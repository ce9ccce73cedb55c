/** The crawl of src/scan.c misses nothing it has fetched. */
module ScanComplete {
  import opened Prelude
  import opened ScanCrawl

  /** If the page refers to media, a candidate for such a reference is on the list, unless the list
      is full. */
  ghost predicate Recorded(site: Site, cands: seq<Candidate>, page: Page) {
    (exists step :: MediaOn(site, page, step)) ==>
      || |cands| >= SCAN_MAX_CANDIDATES
      || exists step, i :: 0 <= i < |cands| && MediaOn(site, page, step) && cands[i].url == step.sample
  }

  /** The list only grows, and no candidate changes its URL. */
  predicate Grows(cs: seq<Candidate>, cs': seq<Candidate>) {
    |cs| <= |cs'| && forall i | 0 <= i < |cs| :: cs'[i].url == cs[i].url
  }

  /** Between the two states every page fetched has been recorded. */
  ghost predicate Thorough(site: Site, c: Crawl, c': Crawl) {
    && Grows(c.cands, c'.cands) && c.log <= c'.log
    && forall k | |c.log| <= k < |c'.log| ::
         Usable(c'.log[k].body) ==> Recorded(site, c'.cands, Page(c'.log[k].url, c'.log[k].body.value))
  }

  lemma RecordedStays(site: Site, cs: seq<Candidate>, cs': seq<Candidate>, page: Page)
    requires Recorded(site, cs, page) && Grows(cs, cs')
    ensures Recorded(site, cs', page)
  {
    if (exists step :: MediaOn(site, page, step)) && |cs'| < SCAN_MAX_CANDIDATES {
      var step, i :| 0 <= i < |cs| && MediaOn(site, page, step) && cs[i].url == step.sample;
      assert cs'[i].url == step.sample;
    }
  }

  lemma ThoroughThen(site: Site, c: Crawl, c1: Crawl, c2: Crawl)
    requires Thorough(site, c, c1) && Thorough(site, c1, c2)
    ensures Thorough(site, c, c2)
  {
    forall k | |c.log| <= k < |c2.log| && Usable(c2.log[k].body)
      ensures Recorded(site, c2.cands, Page(c2.log[k].url, c2.log[k].body.value))
    {
      if k < |c1.log| {
        assert c2.log[k] == c1.log[k];
        RecordedStays(site, c1.cands, c2.cands, Page(c2.log[k].url, c2.log[k].body.value));
      }
    }
  }

  /** The media step is found whenever there is any media reference. */
  lemma {:induction false} NoMediaStep(site: Site, page: Page, from: nat)
    requires MediaStep(site, page, from).None?
    ensures forall i | from <= i < |site.mediaEres| :: !MediaAt(site, page, i)
    decreases |site.mediaEres| - from
  {
    if from >= |site.mediaEres| {
    } else {
      NoMediaStep(site, page, from + 1);
    }
  }

  predicate MediaAt(site: Site, page: Page, i: nat)
    requires i < |site.mediaEres|
  {
    var cap := site.capture(page.body, site.mediaEres[i]);
    cap.Some? && site.isMedia(site.resolve(page.url, cap.value))
  }

  lemma NothingToRecord(site: Site, cands: seq<Candidate>, page: Page)
    requires MediaStep(site, page, 0).None?
    ensures Recorded(site, cands, page)
  {
    NoMediaStep(site, page, 0);
    forall step
      ensures !MediaOn(site, page, step)
    {
      if MediaOn(site, page, step) {
        var i :| 0 <= i < |site.mediaEres| && site.mediaEres[i] == step.ere;
        assert MediaAt(site, page, i);
        assert false;
      }
    }
  }

  lemma AddRecords(site: Site, cs: seq<Candidate>, page: Page, steps: seq<Step>, media: Step)
    requires MediaOn(site, page, media) && |steps| < SCAN_MAX_CHAIN
    ensures var cs' := AddCandidate(cs, media.sample, steps + [media], |steps|);
            Grows(cs, cs') && Recorded(site, cs', page)
  {
    var cs' := AddCandidate(cs, media.sample, steps + [media], |steps|);
    var i := FindCandidate(cs, media.sample);
    assert i < |cs'| ==> cs'[i].url == media.sample;
  }

  /** After a fetch, exploring the page or finding it unusable completes the step. */
  lemma FetchThen(site: Site, c: Crawl, url: string, path: seq<Step>, c': Crawl)
    requires Thorough(site, Fetched(site, c, url, path), c')
    requires var body := site.fetch(c.nfetches, url);
             Usable(body) ==> Recorded(site, c'.cands, Page(url, body.value))
    ensures Thorough(site, c, c')
  {
    var c1 := Fetched(site, c, url, path);
    assert c1.log[|c.log|] == Fetch(url, site.fetch(c.nfetches, url), path);
    assert c'.log[|c.log|] == c1.log[|c.log|];
  }

  lemma {:induction false} DiscoverThorough(site: Site, c: Crawl, page: Page, steps: seq<Step>, maxDepth: nat)
    requires |steps| < SCAN_MAX_CHAIN
    ensures var c' := Discover(site, c, page, steps, maxDepth);
            Thorough(site, c, c') && Recorded(site, c'.cands, page)
    decreases SCAN_MAX_CHAIN - |steps|, 2, 0
  {
    var media := MediaStep(site, page, 0);
    MediaStepIsOnPage(site, page, 0);
    if media.Some? {
      AddRecords(site, c.cands, page, steps, media.value);
    } else {
      NothingToRecord(site, Discover(site, c, page, steps, maxDepth).cands, page);
      if |steps| < maxDepth && |steps| < SCAN_MAX_CHAIN - 1 {
        FollowThorough(site, c, page, site.links(page.url, page.body, c.visited, |steps|), steps, maxDepth);
      }
    }
  }

  lemma {:induction false} FollowThorough(site: Site, c: Crawl, page: Page, links: seq<Step>,
                                          steps: seq<Step>, maxDepth: nat)
    requires |steps| < SCAN_MAX_CHAIN - 1
    ensures Thorough(site, c, Follow(site, c, page, links, steps, maxDepth))
    decreases SCAN_MAX_CHAIN - |steps|, 1, |links|
  {
    if links == [] || c.nfetches >= SCAN_MAX_FETCHES {
    } else {
      var c1 := AfterLink(site, c, page.url, links[0], steps, maxDepth);
      AfterLinkThorough(site, c, page.url, links[0], steps, maxDepth);
      FollowThorough(site, c1, page, links[1..], steps, maxDepth);
      ThoroughThen(site, c, c1, Follow(site, c1, page, links[1..], steps, maxDepth));
    }
  }

  lemma {:induction false} AfterLinkThorough(site: Site, c: Crawl, pageUrl: string, link: Step,
                                             steps: seq<Step>, maxDepth: nat)
    requires |steps| < SCAN_MAX_CHAIN - 1
    ensures Thorough(site, c, AfterLink(site, c, pageUrl, link, steps, maxDepth))
    decreases SCAN_MAX_CHAIN - |steps|, 0, 0
  {
    var url := site.resolve(pageUrl, link.sample);
    if url !in c.visited {
      var body := site.fetch(c.nfetches, url);
      if Usable(body) {
        DiscoverThorough(site, Fetched(site, c, url, steps + [link]), Page(url, body.value), steps + [link], maxDepth);
      }
      FetchThen(site, c, url, steps + [link], AfterLink(site, c, pageUrl, link, steps, maxDepth));
    }
  }

  /** The whole crawl: media on any page fetched after the landing page, and on the landing page
      itself unless a series is explored instead, is among the candidates unless their list is
      full. */
  lemma RecurseThorough(site: Site, landing: Page, maxDepth: nat)
    ensures var c := Recurse(site, Landed(landing), landing, maxDepth);
            && Thorough(site, Landed(landing), c)
            && (site.firstEpisode(landing.url, landing.body).None? ==> Recorded(site, c.cands, landing))
  {
    var c := Landed(landing);
    var ep := site.firstEpisode(landing.url, landing.body);
    if ep.None? {
      DiscoverThorough(site, c, landing, [], maxDepth);
    } else {
      var url := site.resolve(landing.url, ep.value);
      if url !in c.visited {
        var body := site.fetch(c.nfetches, url);
        if Usable(body) {
          DiscoverThorough(site, Fetched(site, c, url, []), Page(url, body.value), [], maxDepth);
        }
        FetchThen(site, c, url, [], Recurse(site, c, landing, maxDepth));
      }
    }
  }
}
