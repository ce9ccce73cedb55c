/** The scanner's own form: one context object and one array of steps, overwritten level by level. */
module ScanEngine {
  import opened Prelude
  import opened ScanCrawl

  class Scanner {
    const site: Site
    var visited: seq<string>
    var nfetches: nat
    var pageUrl: string
    var cands: seq<Candidate>
    var log: seq<Fetch>  // what the fetcher has been asked for so far

    ghost function State(): Crawl
      reads this
    {
      Crawl(visited, nfetches, log, cands)
    }

    /** The context as scan_page sets it up after fetching the landing page. */
    constructor (site: Site, landing: Page)
      ensures this.site == site && State() == Landed(landing) && pageUrl == landing.url
    {
      this.site := site;
      visited, nfetches, pageUrl := [landing.url], 1, landing.url;
      cands, log := [], [Fetch(landing.url, Some(landing.body), [])];
    }

    /** scan_visited. */
    method Visit(url: string) returns (seen: bool)
      modifies this`visited
      ensures seen <==> url in old(visited)
      ensures visited == if seen then old(visited) else Mark(old(visited), url)
    {
      var i := 0;
      while i < |visited|
        invariant 0 <= i <= |visited| && visited == old(visited)
        invariant url !in visited[..i]
      {
        if visited[i] == url {
          return true;
        }
        i := i + 1;
      }
      if |visited| < SCAN_MAX_FETCHES {
        visited := visited + [url];
      }
      return false;
    }

    method FetchPage(url: string, path: seq<Step>) returns (body: Option<string>)
      modifies this`nfetches, this`log
      ensures body == site.fetch(old(nfetches), url)
      ensures nfetches == old(nfetches) + 1 && log == old(log) + [Fetch(url, body, path)]
    {
      body := site.fetch(nfetches, url);
      nfetches := nfetches + 1;
      log := log + [Fetch(url, body, path)];
    }

    /** add_chain_candidate: the chain is a copy of the first nsteps steps. */
    method AddChainCandidate(url: string, steps: array<Step>, nsteps: nat, depth: nat)
      requires nsteps <= steps.Length
      modifies this`cands
      ensures cands == AddCandidate(old(cands), url, steps[..nsteps], depth)
    {
      var i := 0;
      while i < |cands|
        invariant 0 <= i <= |cands| && cands == old(cands)
        invariant forall k | 0 <= k < i :: cands[k].url != url
      {
        if cands[i].url == url {
          assert FindCandidate(cands, url) == i;
          cands := cands[i := Bump(cands[i])];
          return;
        }
        i := i + 1;
      }
      assert FindCandidate(cands, url) == |cands|;
      if |cands| >= SCAN_MAX_CANDIDATES || nsteps == 0 || nsteps > SCAN_MAX_CHAIN {
        return;
      }
      var chain := [];
      i := 0;
      while i < nsteps
        invariant 0 <= i <= nsteps && chain == steps[..i] && cands == old(cands)
      {
        chain := chain + [steps[i]];
        i := i + 1;
      }
      cands := cands + [Candidate(url, 1, chain, depth)];
    }

    /** discover_chain.  Deeper levels overwrite the array only from position nsteps on. */
    method DiscoverChain(body: string, steps: array<Step>, nsteps: nat, depth: nat, maxDepth: nat)
      requires steps.Length == SCAN_MAX_CHAIN && nsteps == depth < SCAN_MAX_CHAIN
      modifies this, steps
      ensures State() == Discover(site, old(State()), Page(old(pageUrl), body), old(steps[..nsteps]), maxDepth)
      ensures pageUrl == old(pageUrl) && steps[..nsteps] == old(steps[..nsteps])
      decreases SCAN_MAX_CHAIN - nsteps
    {
      ghost var c, page, path := State(), Page(pageUrl, body), steps[..nsteps];
      var mi := 0;
      while mi < |site.mediaEres|
        invariant 0 <= mi <= |site.mediaEres|
        invariant State() == c && pageUrl == old(pageUrl) && steps[..nsteps] == path
        invariant MediaStep(site, page, mi) == MediaStep(site, page, 0)
      {
        var cap := site.capture(body, site.mediaEres[mi]);
        if cap.Some? {
          var mediaUrl := site.resolve(pageUrl, cap.value);
          if site.isMedia(mediaUrl) && nsteps < SCAN_MAX_CHAIN {
            steps[nsteps] := Step(site.mediaEres[mi], mediaUrl);
            assert steps[..nsteps + 1] == path + [steps[nsteps]];
            AddChainCandidate(mediaUrl, steps, nsteps + 1, depth);
            return;
          }
        }
        mi := mi + 1;
      }
      if depth >= maxDepth || nsteps >= SCAN_MAX_CHAIN - 1 {
        return;
      }
      var links := site.links(pageUrl, body, visited, depth);
      var i := 0;
      while i < |links|
        invariant 0 <= i <= |links|
        invariant pageUrl == old(pageUrl) && steps[..nsteps] == path
        invariant Follow(site, State(), page, links[i..], path, maxDepth) ==
                  Follow(site, c, page, links, path, maxDepth)
      {
        if nfetches >= SCAN_MAX_FETCHES {
          return;
        }
        assert links[i..][0] == links[i] && links[i..][1..] == links[i + 1..];
        FollowLink(links[i], steps, nsteps, depth, maxDepth);
        i := i + 1;
      }
    }

    /** The body of its loop over links. */
    method FollowLink(link: Step, steps: array<Step>, nsteps: nat, depth: nat, maxDepth: nat)
      requires steps.Length == SCAN_MAX_CHAIN && nsteps == depth < SCAN_MAX_CHAIN - 1
      modifies this, steps
      ensures State() == AfterLink(site, old(State()), old(pageUrl), link, old(steps[..nsteps]), maxDepth)
      ensures pageUrl == old(pageUrl) && steps[..nsteps] == old(steps[..nsteps])
      decreases SCAN_MAX_CHAIN - nsteps, 0
    {
      var abs := site.resolve(pageUrl, link.sample);
      var seen := Visit(abs);
      if seen {
        return;
      }
      var child := FetchPage(abs, steps[..nsteps] + [link]);
      if child.None? || |child.value| > SCAN_MAX_PAGE {
        return;
      }
      ghost var path := steps[..nsteps];
      steps[nsteps] := link;
      assert steps[..nsteps + 1] == path + [link];
      var saved := pageUrl;
      pageUrl := abs;
      DiscoverChain(child.value, steps, nsteps + 1, depth + 1, maxDepth);
      assert steps[..nsteps] == steps[..nsteps + 1][..nsteps] == path;
      pageUrl := saved;
    }

    /** scan_recurse. */
    method Recurse(body: string, maxDepth: nat)
      modifies this
      ensures State() == ScanCrawl.Recurse(site, old(State()), Page(old(pageUrl), body), maxDepth)
      ensures pageUrl == old(pageUrl)
    {
      var steps := new Step[SCAN_MAX_CHAIN](_ => Step("", ""));
      assert steps[..0] == [];
      var firstEp := site.firstEpisode(pageUrl, body);
      if firstEp.Some? {
        var epUrl := site.resolve(pageUrl, firstEp.value);
        var seen := Visit(epUrl);
        if !seen && nfetches < SCAN_MAX_FETCHES {
          var epBody := FetchPage(epUrl, []);
          if epBody.Some? && |epBody.value| <= SCAN_MAX_PAGE {
            var saved := pageUrl;
            pageUrl := epUrl;
            DiscoverChain(epBody.value, steps, 0, 0, maxDepth);
            pageUrl := saved;
          }
        }
        return;
      }
      DiscoverChain(body, steps, 0, 0, maxDepth);
    }
  }

  /** A scan of any site: the promises of the functional crawl hold of the imperative one. */
  method Scan(site: Site, landing: Page, maxDepth: nat) returns (log: seq<Fetch>, cands: seq<Candidate>)
    ensures var c := ScanCrawl.Recurse(site, Landed(landing), landing, maxDepth); log == c.log && cands == c.cands
    ensures NoDuplicates(Urls(log)) && |log| <= SCAN_MAX_FETCHES
    ensures exists root: Page ::
              && Known(log, root)
              && StartsAt(site, landing, ScanCrawl.Recurse(site, Landed(landing), landing, maxDepth), root)
              && forall cand <- cands :: Genuine(site, log, root, maxDepth, cand)
  {
    var s := new Scanner(site, landing);
    s.Recurse(landing.body, maxDepth);
    RecurseSafe(site, landing, maxDepth);
    log, cands := s.log, s.cands;
  }
}
