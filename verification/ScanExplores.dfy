/**
 The crawl of src/scan.c goes as far as it may: below the depth limit it follows every link of every
 page without media, as long as the budget lasts, and it never goes further.
 */
module ScanExplores {
  import opened Prelude
  import opened ScanCrawl

  /** How many links a page may be away from the root and still have its own links followed. */
  function Depth(maxDepth: nat): int { Min(maxDepth, SCAN_MAX_CHAIN - 1) }

  /** The page a fetch returned. */
  function PageOf(f: Fetch): Page
    requires f.body.Some?
  {
    Page(f.url, f.body.value)
  }

  ghost predicate HasMedia(site: Site, page: Page) { exists step :: MediaOn(site, page, step) }

  /** If fetch number k is a page without media below the depth limit, the links found on it at that
      moment have all been visited in the end, or the budget is used up. */
  ghost predicate Followed(site: Site, c: Crawl, k: nat, maxDepth: nat)
    requires k < |c.log| == |c.visited|
  {
    var f := c.log[k];
    Usable(f.body) && |f.path| < Depth(maxDepth) && !HasMedia(site, PageOf(f)) ==>
      || c.nfetches >= SCAN_MAX_FETCHES
      || forall l <- site.links(f.url, f.body.value, c.visited[..k + 1], |f.path|) ::
           site.resolve(f.url, l.sample) in c.visited
  }

  /** Fetch number k was led to by its path, which is not too long. */
  ghost predicate Reached(site: Site, c: Crawl, root: Page, k: nat, maxDepth: nat)
    requires k < |c.log|
  {
    var f := c.log[k];
    |f.path| <= Depth(maxDepth) && (Usable(f.body) ==> Leads(site, c.log, root, f.path, PageOf(f)))
  }

  /** The second state comes from the first by a crawl from this root; all pages fetched from number
      `first` on were reached from it and have been followed. */
  ghost predicate Explored(site: Site, c: Crawl, c': Crawl, root: Page, first: nat, maxDepth: nat) {
    && Extends(c, c') && Budgeted(c')
    && forall k | first <= k < |c'.log| :: Followed(site, c', k, maxDepth) && Reached(site, c', root, k, maxDepth)
  }

  lemma FollowedStays(site: Site, c: Crawl, c': Crawl, k: nat, maxDepth: nat)
    requires Budgeted(c) && Budgeted(c') && Extends(c, c') && k < |c.log|
    requires Followed(site, c, k, maxDepth)
    ensures Followed(site, c', k, maxDepth)
  {
    assert c'.log[k] == c.log[k] && c'.visited[..k + 1] == c.visited[..k + 1];
    assert forall u <- c.visited :: u in c'.visited by {
      assert c'.visited[..|c.visited|] == c.visited;
    }
  }

  lemma ReachedStays(site: Site, c: Crawl, c': Crawl, root: Page, k: nat, maxDepth: nat)
    requires Extends(c, c') && k < |c.log| && Reached(site, c, root, k, maxDepth)
    ensures Reached(site, c', root, k, maxDepth)
  {
    assert c'.log[k] == c.log[k];
    if Usable(c.log[k].body) {
      LeadsGrows(site, c.log, c'.log, root, c.log[k].path, PageOf(c.log[k]));
    }
  }

  lemma ExploredThen(site: Site, c: Crawl, c1: Crawl, c2: Crawl, root: Page, first: nat, maxDepth: nat)
    requires Explored(site, c, c1, root, first, maxDepth) && Explored(site, c1, c2, root, |c1.log|, maxDepth)
    ensures Explored(site, c, c2, root, first, maxDepth)
  {
    forall k | first <= k < |c2.log|
      ensures Followed(site, c2, k, maxDepth) && Reached(site, c2, root, k, maxDepth)
    {
      if k < |c1.log| {
        FollowedStays(site, c1, c2, k, maxDepth);
        ReachedStays(site, c1, c2, root, k, maxDepth);
      }
    }
  }

  lemma Unchanged(site: Site, c: Crawl, root: Page, maxDepth: nat)
    requires Budgeted(c)
    ensures Explored(site, c, c, root, |c.log|, maxDepth)
  {
  }

  /** The page to be explored is the one fetched last, by these steps. */
  ghost predicate JustFetched(c: Crawl, page: Page, steps: seq<Step>) {
    |c.log| >= 1 && c.log[|c.log| - 1] == Fetch(page.url, Some(page.body), steps)
  }

  lemma {:induction false} DiscoverExplores(site: Site, c: Crawl, root: Page, page: Page, steps: seq<Step>,
                                            maxDepth: nat)
    requires |steps| <= Depth(maxDepth) && Budgeted(c) && JustFetched(c, page, steps)
    requires Leads(site, c.log, root, steps, page)
    ensures Explored(site, c, Discover(site, c, page, steps, maxDepth), root, |c.log| - 1, maxDepth)
    decreases SCAN_MAX_CHAIN - |steps|, 2, 0
  {
    var c' := Discover(site, c, page, steps, maxDepth);
    var me := |c.log| - 1;
    MediaStepIsOnPage(site, page, 0);
    if MediaStep(site, page, 0).Some? || |steps| >= Depth(maxDepth) {
      assert c'.log == c.log && c'.visited == c.visited;
      assert Followed(site, c', me, maxDepth);
    } else {
      var links := site.links(page.url, page.body, c.visited, |steps|);
      assert forall l <- links :: LinkOn(site, page, l, |steps|);
      FollowExplores(site, c, root, page, links, steps, maxDepth);
      assert c'.log[me] == c.log[me] && c'.visited[..me + 1] == c.visited;
    }
    ReachedStays(site, c, c', root, me, maxDepth);
  }

  lemma {:induction false} FollowExplores(site: Site, c: Crawl, root: Page, page: Page, links: seq<Step>,
                                          steps: seq<Step>, maxDepth: nat)
    requires |steps| < Depth(maxDepth) && Budgeted(c) && Leads(site, c.log, root, steps, page)
    requires forall l <- links :: LinkOn(site, page, l, |steps|)
    ensures var c' := Follow(site, c, page, links, steps, maxDepth);
            && Explored(site, c, c', root, |c.log|, maxDepth)
            && (c'.nfetches >= SCAN_MAX_FETCHES ||
                forall l <- links :: site.resolve(page.url, l.sample) in c'.visited)
    decreases SCAN_MAX_CHAIN - |steps|, 1, |links|
  {
    if links == [] || c.nfetches >= SCAN_MAX_FETCHES {
      Unchanged(site, c, root, maxDepth);
    } else {
      var link, rest := links[0], links[1..];
      assert forall l <- rest :: l in links;
      AfterLinkExplores(site, c, root, page, link, steps, maxDepth);
      var c1 := AfterLink(site, c, page.url, link, steps, maxDepth);
      LeadsGrows(site, c.log, c1.log, root, steps, page);
      FollowExplores(site, c1, root, page, rest, steps, maxDepth);
      var c2 := Follow(site, c1, page, rest, steps, maxDepth);
      ExploredThen(site, c, c1, c2, root, |c.log|, maxDepth);
      assert forall l <- links :: l == link || l in rest;
      assert c2.visited[..|c1.visited|] == c1.visited;
    }
  }

  lemma {:induction false} AfterLinkExplores(site: Site, c: Crawl, root: Page, page: Page, link: Step,
                                             steps: seq<Step>, maxDepth: nat)
    requires |steps| < Depth(maxDepth) && c.nfetches < SCAN_MAX_FETCHES && Budgeted(c)
    requires Leads(site, c.log, root, steps, page) && LinkOn(site, page, link, |steps|)
    ensures var c' := AfterLink(site, c, page.url, link, steps, maxDepth);
            && Explored(site, c, c', root, |c.log|, maxDepth)
            && site.resolve(page.url, link.sample) in c'.visited
    decreases SCAN_MAX_CHAIN - |steps|, 0, 0
  {
    var url := site.resolve(page.url, link.sample);
    var path := steps + [link];
    if url in c.visited {
      Unchanged(site, c, root, maxDepth);
    } else {
      var c1 := Fetched(site, c, url, path);
      var body := site.fetch(c.nfetches, url);
      FetchKeepsBudget(site, c, url, path);
      assert c1.log[|c.log|] == Fetch(url, body, path) && c1.visited[|c.visited|] == url;
      if Usable(body) {
        var child := Page(url, body.value);
        LeadsGrows(site, c.log, c1.log, root, steps, page);
        StepLeads(site, c1.log, root, steps, page, link, child);
        DiscoverExplores(site, c1, root, child, path, maxDepth);
        var c' := Discover(site, c1, child, path, maxDepth);
        assert c'.visited[..|c1.visited|] == c1.visited;
      }
    }
  }

  /** The whole crawl, from the landing page, or from the first episode of a series: every fetched page
      was reached by its links within the depth limit; every one below the limit and without media has
      had all its links visited, or the budget is used up; and the first episode of a series is fetched
      next, unless it is the landing page. */
  lemma RecurseExplores(site: Site, landing: Page, maxDepth: nat)
    ensures var c := Recurse(site, Landed(landing), landing, maxDepth);
            var ep := site.firstEpisode(landing.url, landing.body);
            && Budgeted(c) && |c.log| >= 1 && c.log[0] == Fetch(landing.url, Some(landing.body), [])
            && if ep.None? then
                 forall k | 0 <= k < |c.log| ::
                   Followed(site, c, k, maxDepth) && Reached(site, c, landing, k, maxDepth)
               else
                 var url := site.resolve(landing.url, ep.value);
                 if url == landing.url then |c.log| == 1
                 else
                   && |c.log| >= 2 && c.log[1].url == url && c.log[1].path == []
                   && (!Usable(c.log[1].body) ==> |c.log| == 2)
                   && (Usable(c.log[1].body) ==>
                         forall k | 1 <= k < |c.log| ::
                           Followed(site, c, k, maxDepth) && Reached(site, c, PageOf(c.log[1]), k, maxDepth))
  {
    var c := Landed(landing);
    assert Budgeted(c);
    var ep := site.firstEpisode(landing.url, landing.body);
    if ep.None? {
      assert c.log[0].url == landing.url;
      assert Leads(site, c.log, landing, [], landing);
      DiscoverExplores(site, c, landing, landing, [], maxDepth);
    } else {
      var url := site.resolve(landing.url, ep.value);
      if url != landing.url {
        var c1 := Fetched(site, c, url, []);
        FetchKeepsBudget(site, c, url, []);
        var body := site.fetch(c.nfetches, url);
        if Usable(body) {
          var root := Page(url, body.value);
          assert c1.log[1] == Fetch(url, body, []);
          assert Leads(site, c1.log, root, [], root);
          DiscoverExplores(site, c1, root, root, [], maxDepth);
          assert Discover(site, c1, root, [], maxDepth).log[1] == c1.log[1];
        }
      }
    }
  }
}
