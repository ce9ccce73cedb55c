/**
 The recursive discovery of src/scan.c: a depth-first crawl that shares one array of steps between
 its recursion levels and keeps a visited list and a fetch budget.

 The site, the regular expressions and the URL resolver are parameters: a crawl is studied for
 every site graph, and a page may even change between two fetches.
 */
module ScanCrawl {
  import opened Prelude

  const SCAN_MAX_FETCHES := 24
  const SCAN_MAX_CHAIN := 4
  const SCAN_MAX_CANDIDATES := 256
  const SCAN_MAX_PAGE := 8 * 1024 * 1024

  datatype Step = Step(ere: string, sample: string)

  datatype Candidate = Candidate(url: string, count: nat, chain: seq<Step>, depth: nat)

  /** One call of the fetcher, the body it returned, if any, and the links that led to it. */
  datatype Fetch = Fetch(url: string, body: Option<string>, path: seq<Step>)

  datatype Page = Page(url: string, body: string)

  datatype Site = Site(
    fetch: (nat, string) -> Option<string>,                     // n-th call, URL
    mediaEres: seq<string>,
    capture: (string, string) -> Option<string>,                // first capture of an ERE in a body
    resolve: (string, string) -> string,                        // page URL, reference
    isMedia: string -> bool,
    links: (string, string, seq<string>, nat) -> seq<Step>,     // page URL, body, visited, depth
    firstEpisode: (string, string) -> Option<string>)           // page URL, body

  /** The part of struct scan_ctx that changes, and the calls made to the fetcher. */
  datatype Crawl = Crawl(visited: seq<string>, nfetches: nat, log: seq<Fetch>, cands: seq<Candidate>)

  // ----- the functions the loops compute

  /** scan_visited when the URL is new: the list has a fixed capacity. */
  function Mark(visited: seq<string>, url: string): seq<string> {
    if |visited| < SCAN_MAX_FETCHES then visited + [url] else visited
  }

  /** The candidate after another sighting of its URL. */
  function Bump(c: Candidate): Candidate { c.(count := c.count + 1) }

  function FindCandidate(cs: seq<Candidate>, url: string): (i: nat)
    ensures i <= |cs|
    ensures i < |cs| ==> cs[i].url == url
    ensures forall k | 0 <= k < i :: cs[k].url != url
  {
    if cs == [] || cs[0].url == url then 0 else 1 + FindCandidate(cs[1..], url)
  }

  function AddCandidate(cs: seq<Candidate>, url: string, steps: seq<Step>, depth: nat): seq<Candidate> {
    var i := FindCandidate(cs, url);
    if i < |cs| then cs[i := Bump(cs[i])]
    else if |cs| >= SCAN_MAX_CANDIDATES || |steps| == 0 || |steps| > SCAN_MAX_CHAIN then cs
    else cs + [Candidate(url, 1, steps, depth)]
  }

  /** The media step of the first ERE whose capture is a media URL. */
  function MediaStep(site: Site, page: Page, from: nat): Option<Step>
    decreases |site.mediaEres| - from
  {
    if from >= |site.mediaEres| then None else
    var cap := site.capture(page.body, site.mediaEres[from]);
    if cap.Some? && site.isMedia(site.resolve(page.url, cap.value)) then
      Some(Step(site.mediaEres[from], site.resolve(page.url, cap.value)))
    else
      MediaStep(site, page, from + 1)
  }

  function Fetched(site: Site, c: Crawl, url: string, path: seq<Step>): Crawl {
    Crawl(Mark(c.visited, url), c.nfetches + 1, c.log + [Fetch(url, site.fetch(c.nfetches, url), path)], c.cands)
  }

  predicate Usable(body: Option<string>) {
    body.Some? && |body.value| <= SCAN_MAX_PAGE
  }

  /** discover_chain on a page reached by `steps`. */
  function Discover(site: Site, c: Crawl, page: Page, steps: seq<Step>, maxDepth: nat): Crawl
    requires |steps| < SCAN_MAX_CHAIN
    decreases SCAN_MAX_CHAIN - |steps|, 2, 0
  {
    var media := MediaStep(site, page, 0);
    if media.Some? then
      c.(cands := AddCandidate(c.cands, media.value.sample, steps + [media.value], |steps|))
    else if |steps| >= maxDepth || |steps| >= SCAN_MAX_CHAIN - 1 then c
    else Follow(site, c, page, site.links(page.url, page.body, c.visited, |steps|), steps, maxDepth)
  }

  /** Its loop over the links of the page. */
  function Follow(site: Site, c: Crawl, page: Page, links: seq<Step>, steps: seq<Step>, maxDepth: nat): Crawl
    requires |steps| < SCAN_MAX_CHAIN - 1
    decreases SCAN_MAX_CHAIN - |steps|, 1, |links|
  {
    if links == [] || c.nfetches >= SCAN_MAX_FETCHES then c
    else Follow(site, AfterLink(site, c, page.url, links[0], steps, maxDepth), page, links[1..], steps, maxDepth)
  }

  /** One link: skipped when its URL was visited, else fetched and, if it is a page, explored. */
  function AfterLink(site: Site, c: Crawl, pageUrl: string, link: Step, steps: seq<Step>, maxDepth: nat): Crawl
    requires |steps| < SCAN_MAX_CHAIN - 1
    decreases SCAN_MAX_CHAIN - |steps|, 0, 0
  {
    var url := site.resolve(pageUrl, link.sample);
    if url in c.visited then c else
    var c1 := Fetched(site, c, url, steps + [link]);
    var body := site.fetch(c.nfetches, url);
    if Usable(body) then Discover(site, c1, Page(url, body.value), steps + [link], maxDepth) else c1
  }

  /** scan_recurse: a series is explored from its first episode, any other page from itself. */
  function Recurse(site: Site, c: Crawl, landing: Page, maxDepth: nat): Crawl {
    var ep := site.firstEpisode(landing.url, landing.body);
    if ep.None? then Discover(site, c, landing, [], maxDepth) else
    var url := site.resolve(landing.url, ep.value);
    if url in c.visited then c
    else if c.nfetches >= SCAN_MAX_FETCHES then c.(visited := Mark(c.visited, url))
    else
      var c1 := Fetched(site, c, url, []);
      var body := site.fetch(c.nfetches, url);
      if Usable(body) then Discover(site, c1, Page(url, body.value), [], maxDepth) else c1
  }

  /** The crawl as scan_page starts it: the landing page has been fetched and counts. */
  function Landed(landing: Page): Crawl {
    Crawl([landing.url], 1, [Fetch(landing.url, Some(landing.body), [])], [])
  }

  // ----- fetches

  ghost predicate NoDuplicates<T(!new)>(s: seq<T>) {
    forall i, j | 0 <= i < j < |s| :: s[i] != s[j]
  }

  function Urls(log: seq<Fetch>): (r: seq<string>)
    ensures |r| == |log|
  {
    seq(|log|, i requires 0 <= i < |log| => log[i].url)
  }

  /** The visited list is exactly the list of fetched URLs, none twice, within the budget. */
  ghost predicate Budgeted(c: Crawl) {
    && c.visited == Urls(c.log)
    && c.nfetches == |c.log| <= SCAN_MAX_FETCHES
    && NoDuplicates(c.visited)
  }

  lemma FetchKeepsBudget(site: Site, c: Crawl, url: string, path: seq<Step>)
    requires Budgeted(c) && url !in c.visited && c.nfetches < SCAN_MAX_FETCHES
    ensures Budgeted(Fetched(site, c, url, path))
  {
    assert Urls(Fetched(site, c, url, path).log) == Urls(c.log) + [url];
  }

  // ----- chains

  ghost predicate Known(log: seq<Fetch>, page: Page) {
    exists k | 0 <= k < |log| :: log[k].url == page.url && log[k].body == Some(page.body)
  }

  /** `step` is a link found on `page` at this depth. */
  ghost predicate LinkOn(site: Site, page: Page, step: Step, depth: nat) {
    exists visited :: step in site.links(page.url, page.body, visited, depth)
  }

  /** The steps lead from page to page, each fetched and each linked from the one before. */
  ghost predicate Leads(site: Site, log: seq<Fetch>, root: Page, steps: seq<Step>, page: Page)
    decreases |steps|
  {
    Known(log, page) &&
    if steps == [] then page == root else
    var n := |steps| - 1;
    exists prev: Page ::
      && Leads(site, log, root, steps[..n], prev)
      && LinkOn(site, prev, steps[n], n)
      && site.resolve(prev.url, steps[n].sample) == page.url
  }

  predicate MediaOn(site: Site, page: Page, step: Step) {
    && step.ere in site.mediaEres
    && site.capture(page.body, step.ere).Some?
    && step.sample == site.resolve(page.url, site.capture(page.body, step.ere).value)
    && site.isMedia(step.sample)
  }

  /** A recorded chain is one step longer than its depth: links along fetched pages, then the media
      reference found on the last of them. */
  ghost predicate Genuine(site: Site, log: seq<Fetch>, root: Page, maxDepth: nat, cand: Candidate) {
    && |cand.chain| == cand.depth + 1
    && cand.depth <= maxDepth && |cand.chain| <= SCAN_MAX_CHAIN
    && 1 <= cand.count
    && cand.chain[cand.depth].sample == cand.url
    && exists page: Page ::
         && Leads(site, log, root, cand.chain[..cand.depth], page)
         && MediaOn(site, page, cand.chain[cand.depth])
  }

  ghost predicate AllGenuine(site: Site, c: Crawl, root: Page, maxDepth: nat) {
    && |c.cands| <= SCAN_MAX_CANDIDATES
    && (forall i, j | 0 <= i < j < |c.cands| :: c.cands[i].url != c.cands[j].url)
    && forall cand <- c.cands :: Genuine(site, c.log, root, maxDepth, cand)
  }

  ghost predicate Extends(c: Crawl, c': Crawl) {
    c.log <= c'.log && c.visited <= c'.visited
  }

  lemma {:induction false} LeadsGrows(site: Site, log: seq<Fetch>, log': seq<Fetch>, root: Page,
                                      steps: seq<Step>, page: Page)
    requires log <= log' && Leads(site, log, root, steps, page)
    ensures Leads(site, log', root, steps, page)
    decreases |steps|
  {
    if steps == [] {
    } else {
      var n := |steps| - 1;
      var prev: Page :| Leads(site, log, root, steps[..n], prev) && LinkOn(site, prev, steps[n], n)
                        && site.resolve(prev.url, steps[n].sample) == page.url;
      LeadsGrows(site, log, log', root, steps[..n], prev);
    }
  }

  lemma GenuineGrows(site: Site, log: seq<Fetch>, log': seq<Fetch>, root: Page, maxDepth: nat, cand: Candidate)
    requires log <= log' && Genuine(site, log, root, maxDepth, cand)
    ensures Genuine(site, log', root, maxDepth, cand)
  {
    var page: Page :| Leads(site, log, root, cand.chain[..cand.depth], page)
                      && MediaOn(site, page, cand.chain[cand.depth]);
    LeadsGrows(site, log, log', root, cand.chain[..cand.depth], page);
  }

  lemma {:induction false} MediaStepIsOnPage(site: Site, page: Page, from: nat)
    ensures var m := MediaStep(site, page, from); m.Some? ==> MediaOn(site, page, m.value)
    decreases |site.mediaEres| - from
  {
    if from >= |site.mediaEres| {
    } else {
      MediaStepIsOnPage(site, page, from + 1);
    }
  }

  lemma AddKeepsGenuine(site: Site, c: Crawl, root: Page, maxDepth: nat, page: Page, steps: seq<Step>, media: Step)
    requires AllGenuine(site, c, root, maxDepth)
    requires |steps| <= maxDepth && |steps| < SCAN_MAX_CHAIN
    requires Leads(site, c.log, root, steps, page) && MediaOn(site, page, media)
    ensures AllGenuine(site, c.(cands := AddCandidate(c.cands, media.sample, steps + [media], |steps|)),
                       root, maxDepth)
  {
    var i := FindCandidate(c.cands, media.sample);
    if i < |c.cands| {
      var cand := c.cands[i];
      assert cand in c.cands;
      var page': Page :| Leads(site, c.log, root, cand.chain[..cand.depth], page')
                         && MediaOn(site, page', cand.chain[cand.depth]);
      assert Genuine(site, c.log, root, maxDepth, Bump(cand));
      forall k | k in c.cands[i := Bump(cand)]
        ensures Genuine(site, c.log, root, maxDepth, k)
      {
        assert k == Bump(cand) || k in c.cands;
      }
    } else {
      var cand := Candidate(media.sample, 1, steps + [media], |steps|);
      assert cand.chain[..cand.depth] == steps;
      assert Genuine(site, c.log, root, maxDepth, cand);
    }
  }

  lemma FetchKeepsGenuine(site: Site, c: Crawl, root: Page, maxDepth: nat, url: string, path: seq<Step>)
    requires AllGenuine(site, c, root, maxDepth)
    ensures AllGenuine(site, Fetched(site, c, url, path), root, maxDepth)
  {
    var log' := Fetched(site, c, url, path).log;
    forall cand | cand in c.cands
      ensures Genuine(site, log', root, maxDepth, cand)
    {
      GenuineGrows(site, c.log, log', root, maxDepth, cand);
    }
  }

  // ----- the two claims over the whole recursion

  lemma {:induction false} DiscoverSafe(site: Site, c: Crawl, root: Page, page: Page, steps: seq<Step>, maxDepth: nat)
    requires |steps| < SCAN_MAX_CHAIN && |steps| <= maxDepth
    requires Budgeted(c) && AllGenuine(site, c, root, maxDepth)
    requires Leads(site, c.log, root, steps, page)
    ensures var c' := Discover(site, c, page, steps, maxDepth);
            Budgeted(c') && AllGenuine(site, c', root, maxDepth) && Extends(c, c')
    decreases SCAN_MAX_CHAIN - |steps|, 2, 0
  {
    var media := MediaStep(site, page, 0);
    MediaStepIsOnPage(site, page, 0);
    if media.Some? {
      AddKeepsGenuine(site, c, root, maxDepth, page, steps, media.value);
    } else if |steps| < maxDepth && |steps| < SCAN_MAX_CHAIN - 1 {
      var links := site.links(page.url, page.body, c.visited, |steps|);
      assert forall l <- links :: LinkOn(site, page, l, |steps|);
      FollowSafe(site, c, root, page, links, steps, maxDepth);
    }
  }

  lemma {:induction false} FollowSafe(site: Site, c: Crawl, root: Page, page: Page, links: seq<Step>,
                                      steps: seq<Step>, maxDepth: nat)
    requires |steps| < SCAN_MAX_CHAIN - 1 && |steps| < maxDepth
    requires Budgeted(c) && AllGenuine(site, c, root, maxDepth)
    requires Leads(site, c.log, root, steps, page)
    requires forall l <- links :: LinkOn(site, page, l, |steps|)
    ensures var c' := Follow(site, c, page, links, steps, maxDepth);
            Budgeted(c') && AllGenuine(site, c', root, maxDepth) && Extends(c, c')
    decreases SCAN_MAX_CHAIN - |steps|, 1, |links|
  {
    if links == [] || c.nfetches >= SCAN_MAX_FETCHES {
    } else {
      assert forall l <- links[1..] :: l in links;
      AfterLinkSafe(site, c, root, page, links[0], steps, maxDepth);
      var c1 := AfterLink(site, c, page.url, links[0], steps, maxDepth);
      LeadsGrows(site, c.log, c1.log, root, steps, page);
      FollowSafe(site, c1, root, page, links[1..], steps, maxDepth);
    }
  }

  lemma {:induction false} AfterLinkSafe(site: Site, c: Crawl, root: Page, page: Page, link: Step,
                                         steps: seq<Step>, maxDepth: nat)
    requires |steps| < SCAN_MAX_CHAIN - 1 && |steps| < maxDepth && c.nfetches < SCAN_MAX_FETCHES
    requires Budgeted(c) && AllGenuine(site, c, root, maxDepth)
    requires Leads(site, c.log, root, steps, page) && LinkOn(site, page, link, |steps|)
    ensures var c' := AfterLink(site, c, page.url, link, steps, maxDepth);
            && Budgeted(c') && AllGenuine(site, c', root, maxDepth) && Extends(c, c')
            && site.resolve(page.url, link.sample) in c'.visited
    decreases SCAN_MAX_CHAIN - |steps|, 0, 0
  {
    var url := site.resolve(page.url, link.sample);
    if url !in c.visited {
      var c1 := Fetched(site, c, url, steps + [link]);
      FetchKeepsBudget(site, c, url, steps + [link]);
      FetchKeepsGenuine(site, c, root, maxDepth, url, steps + [link]);
      LeadsGrows(site, c.log, c1.log, root, steps, page);
      assert c1.visited[|c.visited|] == url;
      var body := site.fetch(c.nfetches, url);
      if Usable(body) {
        var child := Page(url, body.value);
        assert c1.log[|c.log|] == Fetch(url, body, steps + [link]);
        StepLeads(site, c1.log, root, steps, page, link, child);
        DiscoverSafe(site, c1, root, child, steps + [link], maxDepth);
      }
    }
  }

  lemma StepLeads(site: Site, log: seq<Fetch>, root: Page, steps: seq<Step>, page: Page, link: Step, child: Page)
    requires Leads(site, log, root, steps, page) && Known(log, child)
    requires LinkOn(site, page, link, |steps|) && site.resolve(page.url, link.sample) == child.url
    ensures Leads(site, log, root, steps + [link], child)
  {
    assert (steps + [link])[..|steps|] == steps;
  }

  /** Chains start at the landing page, or at its first episode when it is a series. */
  predicate StartsAt(site: Site, landing: Page, c: Crawl, root: Page) {
    var ep := site.firstEpisode(landing.url, landing.body);
    if ep.None? then root == landing else c.cands == [] || root.url == site.resolve(landing.url, ep.value)
  }

  /** The whole recursive discovery: no URL is fetched twice, at most SCAN_MAX_FETCHES fetches are
      made counting the landing page, and every recorded chain is genuine, starting at the landing
      page or at the first episode. */
  lemma RecurseSafe(site: Site, landing: Page, maxDepth: nat)
    ensures var c := Recurse(site, Landed(landing), landing, maxDepth);
            && NoDuplicates(Urls(c.log)) && |c.log| <= SCAN_MAX_FETCHES
            && c.visited == Urls(c.log) && c.nfetches == |c.log|
            && exists root: Page ::
                 Known(c.log, root) && AllGenuine(site, c, root, maxDepth) && StartsAt(site, landing, c, root)
  {
    var c := Landed(landing);
    assert Budgeted(c);
    assert c.log[0] == Fetch(landing.url, Some(landing.body), []);
    var ep := site.firstEpisode(landing.url, landing.body);
    if ep.None? {
      DiscoverSafe(site, c, landing, landing, [], maxDepth);
      assert Known(Discover(site, c, landing, [], maxDepth).log, landing);
    } else {
      var url := site.resolve(landing.url, ep.value);
      if url !in c.visited {
        var c1 := Fetched(site, c, url, []);
        FetchKeepsBudget(site, c, url, []);
        assert c1.log[|c.log|] == Fetch(url, site.fetch(c.nfetches, url), []) && c1.log[0] == c.log[0];
        var body := site.fetch(c.nfetches, url);
        if Usable(body) {
          var root := Page(url, body.value);
          assert Known(c1.log, root);
          DiscoverSafe(site, c1, root, root, [], maxDepth);
          assert Known(Discover(site, c1, root, [], maxDepth).log, root);
        } else {
          assert Known(c1.log, landing) && AllGenuine(site, c1, landing, maxDepth);
        }
      } else {
        assert Known(c.log, landing) && AllGenuine(site, c, landing, maxDepth);
      }
    }
  }

  /** No link of an explored page is dropped: afterwards it has been visited, or the budget is gone. */
  lemma {:induction false} FollowVisitsAll(site: Site, c: Crawl, root: Page, page: Page, links: seq<Step>,
                                           steps: seq<Step>, maxDepth: nat)
    requires |steps| < SCAN_MAX_CHAIN - 1 && |steps| < maxDepth
    requires Budgeted(c) && AllGenuine(site, c, root, maxDepth)
    requires Leads(site, c.log, root, steps, page)
    requires forall l <- links :: LinkOn(site, page, l, |steps|)
    ensures var c' := Follow(site, c, page, links, steps, maxDepth);
            c'.nfetches == SCAN_MAX_FETCHES ||
            forall l <- links :: site.resolve(page.url, l.sample) in c'.visited
    decreases |links|
  {
    if links == [] || c.nfetches >= SCAN_MAX_FETCHES {
    } else {
      assert forall l <- links[1..] :: l in links;
      AfterLinkSafe(site, c, root, page, links[0], steps, maxDepth);
      var c1 := AfterLink(site, c, page.url, links[0], steps, maxDepth);
      LeadsGrows(site, c.log, c1.log, root, steps, page);
      FollowSafe(site, c1, root, page, links[1..], steps, maxDepth);
      FollowVisitsAll(site, c1, root, page, links[1..], steps, maxDepth);
      assert forall l <- links :: l == links[0] || l in links[1..];
    }
  }
}
