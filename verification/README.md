# Verification of the flux downloader

flux downloads a file over several connections at once, scans pages for media, expands URL
patterns, tests mirrors and assembles HLS streams. This project models the parts of it where a
mistake would be silent, and proves what those parts are for.

| files | component |
|---|---|
| `FluxModel`, `FluxInvariant`, `FluxDivide`, `FluxRuns`, `FluxEngine`, `FluxTicks` | the segmented download engine (`src/flux.c`) |
| `ScanCrawl`, `ScanComplete`, `ScanExplores`, `ScanEngine`, `ScanTemplate` | the page scanner (`src/scan.c`): recursive discovery and series templates |
| `UrlGlobRange`, `UrlGlob`, `UrlGlobNotation` | URL ranges and lists (`src/url_glob.c`) |
| `Search`, `SearchEnds` | the mirror speed test and its comparator (`src/search.c`) |
| `FileIo`, `HlsPool`, `HlsPlaylist`, `HlsAttributes`, `HlsText` | the HLS worker pool, concatenation, playlist parser, attribute lists and playlist notation (`src/hls.c`), RFC 8216 |
| `ConnUrl` | URL parsing and printing (`src/conn.c`) |
| `DnMatch` | wildcard host names (`src/dn-match.c`), section 6.4.3 of RFC 6125 |
| `EpisodeSpec`, `EpisodeParsers` | the two episode-specification parsers (`src/extractor.c`, `src/tui.c`) |
| `BasicAuth`, `HttpAuth` | the Basic token and the field that holds it (`src/http.c`), section 2 of RFC 7617 and section 4 of RFC 4648 |
| `Prelude`, `Arithmetic`, `Sums`, `Strings`, `Decimals` | shared definitions |

`dafny verify dfyconfig.toml` checks everything.

## How it is built

**The download engine** is a state machine (`FluxModel.Step`) whose events are the atomic actions of
the main thread, of the setup threads and of the network: creating a setup thread, its request and
its outcome, a cancelled thread, data of any length, end of file, read errors, timeouts, failed or
short writes, steals, interrupted waits. A run is any list of events; an event that cannot happen is
skipped. The source file is a sequence of bytes, and an enabled connection delivers it in order from
the offset its setup thread asked for, in chunks of any size, also past the end of a range that a
steal has shortened meanwhile. Every byte that reaches the output file is the byte the server sent
from its own position, so that the file is right is a theorem and not an assumption. `FluxRuns`
adds processes, state files, crashes and resumes. `FluxEngine.Engine` is the imperative code: fields
and a connection array updated in place by the loops of `flux_do` and `flux_start`, each proved to
perform a run of the state machine.

**The crawl** is a class that, like the code, overwrites one array of steps shared by all recursion
levels; it is proved against a recursive function that passes each level its own steps. The site
(fetcher, regular expressions, resolver, link collector) is a parameter, so the claims hold for every
site graph. What the series expression captures is stated of the text the code emits, cut by its buffer
or not, read as tokens.

**Pools and polling loops** are state machines whose events are one locked action each; classes with
arrays carry them out.

**Parsers** are loops over cursors or buffers, proved against functions, and the functions are proved
against an independent reading: a grammar, a cartesian product, a decoder, a printer, a rule. `HlsText`
and `UrlGlobNotation` print playlists and URL patterns and show that reading gives back what was
printed.

## Where the code and its comments differ

The model follows the code.

- `flux_divide` takes the remainder modulo the segment length instead of modulo the number of
  connections. `FluxDivide.CutEndsAtSize` gives the exact condition under which the last range
  still ends at the size; it holds for up to 65535 connections.
- The output file is opened without truncation. After a successful download it is the source file
  if and only if it did not start out longer (`FluxRuns.SuccessMeansSourceOnDisk`).
- `conn_set` compares scheme names up to the length of the given one, so every prefix of a scheme
  name is accepted (`ht://`, and the empty one).
- An unbracketed host that starts with `[` does not survive printing and parsing;
  `ConnUrl.RoundTripIff` names the exact set of connections that do.
- `search_sortlist_qsort` is not an order on lists that mix negative, zero and positive speeds
  (`Search.ComparatorConsistentIff`); the list it is used on after the speed test has no zero.
- The comment on `add_chain_candidate` says that the shortest chain is kept. The code keeps the first
  one seen.
- The digit clamp of `extractor_parse_episodes` is fixed at 2001. It is harmless exactly for up to
  2000 episodes (`EpisodeSpec.ExtractorClampIff`).
- `tui_apply_spec` accepts blank specifications, the "all" keywords and line ends after an item;
  `extractor_parse_episodes` refuses all three. On everything else they agree
  (`EpisodeSpec.ParsersAgree`).
- The expression of a series is cut when its buffer is nearly full. It captures exactly the group of
  its template if and only if all of the template made it into the expression
  (`ScanTemplate.SeriesCapturesGroupIff`); otherwise it captures none of them
  (`ScanTemplate.CutExpressionMissesGroup`), as happens to the href "1a" written 84 times
  (`ScanTemplate.LongHrefIsLost`). An href with `#` in it is never captured
  (`ScanTemplate.MarkIsNotCaptured`), although it generalises like any other. Braces are not escaped in the expression, so the result is stated
  for templates without braces.
- `http_auth_token` writes no terminator. A field that is used again therefore sends the tail of a
  longer earlier token behind a shorter new one: the last request is right if and only if no earlier
  token was longer (`HttpAuth.LastConnectIsRightIff`).
- Token and terminator fit the field of 1024 elements if and only if user and password have at most
  764 characters together (`HttpAuth.TokenFitsIff`), while `conn_set` accepts more
  (`HttpAuth.AcceptedLoginMayNotFit`).
- `conn_url` returns the length of what follows the login, not that of the URL
  (`ConnUrl.WholeUrlIff`).
- The default vector of a segment is computed by a signed addition, which is defined only up to
  LONG_MAX; the model's vectors go on as 64-bit numbers there.
- The test for a premature end of a certificate name compares wrapped `size_t` values. For a name
  without NUL it holds exactly when there is no dot; for a name with a NUL inside, whose length is
  larger than its text, it never holds (`DnMatch.EndTestMeansNoDot`). Such a name is not reported
  malformed, as the comment promises: the text up to the NUL alone decides
  (`DnMatch.CertMatchesIff`, with `DnMatch.EmbeddedNulIsAccepted` as the input).
- With a limit of no threads `search_getspeeds` polls forever as soon as one mirror waits for its test
  (`SearchEnds.PollingEndsIff`); the configuration accepts such a limit.

## Model

| member | source | states |
|---|---|---|
| FluxDivide.CutEndsAtSize | src/flux.c:899-919 | The last range ends at the file size if and only if size % n < size / n: the exact condition under which taking the tail modulo the segment length is right. |
| FluxDivide.DivideIsExact | src/flux.c:892-919 | For at most 65535 connections the ranges tile [0, size) in order, each is worth a connection when there is more than one, no connection is dropped without need, and dividing again changes nothing. |
| FluxDivide.FreshIsValid | src/flux.c:357-365 | A fresh download satisfies the engine's invariant whatever the output file held before. |
| FluxInvariant.VictimIsFirstLargest | src/flux.c:411-427 | The scan for a victim finds the first range of largest remaining size, and none only if all are below MIN_CHUNK_WORTH. |
| FluxInvariant.StealSplits | src/flux.c:408-436 | A steal cuts the victim's unfinished range in two adjacent pieces of at least half a chunk each, touches no other range, and lowers the sum of surpluses by exactly half a chunk. |
| FluxInvariant.StealIsEven | src/flux.c:408-436 | The two pieces differ by at most one byte, and the odd one goes to the connection that was idle. |
| FluxInvariant.ReactivateKeeps | src/flux.c:408-436 | Stealing keeps ranges inside the file and disjoint, keeps what is covered and how much, and the open sockets' positions. |
| FluxInvariant.TouchKeeps | src/flux.c:543-626 | Any action on one connection keeps the ranges sound and uncovers exactly the bytes it gained. |
| FluxInvariant.WritesSource | src/flux.c:601-619 | Whatever an event writes lies in the connection's own unfinished range and is the source's bytes for it, although the data come from the server's position and may run past a range shortened by a steal. |
| FluxInvariant.StepKeepsValid | src/flux.c:492-726 | Every event keeps the invariant: disjoint ranges in bounds, every byte outside them already on disk, bytes_done plus what remains equals the size, and ready = 1 only when complete. |
| FluxInvariant.RunKeepsValid | src/flux.c:492-726 | So does every run, any interleaving of any length. |
| FluxInvariant.RangesFit | src/flux.c:619-620 | Disjoint ranges inside the file never sum to more than its size, so bytes_done is never negative. |
| FluxInvariant.CompleteMeansOnDisk | src/flux.c:723-725 | bytes_done equals the size if and only if no range is unfinished, and then the file starts with exactly the source. |
| FluxRuns.AtMostOnce | src/flux.c:612-622 | No run counts the same offset written twice, and only offsets still missing are written. |
| FluxRuns.ExactlyOnce | src/flux.c:612-622 | A completing run writes each missing offset exactly once and no other. |
| FluxRuns.StepLowersPotential | src/flux.c:401-436 | No event raises the sum of surpluses, and a steal lowers it by half a chunk, exactly when no data came with it. |
| FluxRuns.StealsAreBounded | src/flux.c:401-436 | Any run makes at most (missing bytes) / 51200 steals, so size / 51200 from a fresh start. |
| FluxRuns.CanAlwaysFinish | src/flux.c:631-678 | From every reachable state that has not failed some continuation completes the download: no order of events strands a range. |
| FluxRuns.SnapshotIsValid | src/flux.c:787-823 | What save_state writes, read back, satisfies the invariant against the file. |
| FluxRuns.WritesKeepSaved | src/flux.c:787-823 | A state file stays true however much the process that wrote it writes afterwards. |
| FluxRuns.NextKeepsWorldValid | src/flux.c:285-355 | Opening, saving, closing, crashing and resuming keep both the process and the state file true of the file on disk. |
| FluxRuns.CloseThenOpen | src/flux.c:730-762 | Closing a finished download leaves no state file; closing an unfinished one that has received anything and opening it again goes on with the same bytes done, the same ranges and the same file. |
| FluxRuns.HistoryKeepsWorldValid | src/flux.c:285-355 | So does any history of them. |
| FluxRuns.SuccessMeansSourceOnDisk | src/flux.c:723-755 | After any history, a process that reports success leaves source + the old file's excess on disk, and exactly the source if and only if the old file was not longer. |
| FluxRuns.ResumeCanFinish | src/flux.c:285-345 | After any history and a crash, the reopened download can be completed. |
| FluxRuns.FreshRunSucceeds | src/flux.c:492-726 | Any single-process run that ends ready has the source on disk. |
| FluxEngine.Engine.Divide | src/flux.c:892-919 | The code's division sets the connection array to the exact division and keeps the rest of the state. |
| FluxEngine.Engine.ReactivateConnection | src/flux.c:408-436 | The in-place steal computes the steal of the state machine. |
| FluxEngine.Engine.RunThreads | src/flux.c:827-853 | Setup threads acting between two steps of the main loop perform their events in order. |
| FluxEngine.Engine.ReadAndClamp | src/flux.c:564-610 | A read delivers the server's next bytes; an over-long one is clamped to the range and disconnects. |
| FluxEngine.Engine.Receive | src/flux.c:601-622 | Clamp, write, advance and steal: the new connections, bytes_done, ready and file after a read that delivered data, also when the write is short or fails. |
| FluxEngine.Engine.VisitConnection | src/flux.c:543-626 | One turn of the data loop is the corresponding event, or none while a setup thread holds the lock. |
| FluxEngine.Engine.CheckConnection | src/flux.c:635-677 | One turn of the reconnect loop: launch, cancel or leave alone; that these choices revive every dropped connection is FluxTicks.TicksCanFinish. |
| FluxEngine.Engine.DataLoop | src/flux.c:543-629 | The whole data loop, including its early return on a write error. |
| FluxEngine.Engine.ReconnectLoop | src/flux.c:634-678 | The whole reconnect loop. |
| FluxEngine.Engine.Do | src/flux.c:492-726 | One call of flux_do takes the state to AfterTick, failed sleeps and the data loop's early return included, and saves the state first when it is time. |
| FluxEngine.Engine.Start | src/flux.c:461-487 | flux_start wakes finished connections, launches the others and resets ready. |
| FluxEngine.Engine.SaveState | src/flux.c:789-823 | The saved state is the snapshot of bytes_done and all ranges. |
| FluxEngine.Engine.Close | src/flux.c:750-757 | flux_close removes the state file of a complete download and writes that of any other with something to resume. |
| FluxEngine.Engine.Resume | src/flux.c:285-341 | Loading a state file gives exactly the restored download. |
| FluxEngine.DataLoopIsRun | src/flux.c:543-629 | What the data loop computes is a run of the state machine. |
| FluxEngine.ReconnectLoopIsRun | src/flux.c:634-678 | So is the reconnect loop's result. |
| FluxEngine.StartLoopIsRun | src/flux.c:461-483 | So is the start loop's. |
| FluxEngine.TickIsRun | src/flux.c:492-726 | So is a whole flux_do, hence everything proved of runs holds of the code. |
| FluxEngine.TickIsHistory | src/flux.c:492-726 | A flux_do is a piece of history: perhaps a save, then a run; so the crash and resume results apply. |
| FluxEngine.DownloadFile | src/flux.c:440-726 | Divide, start and any number of flux_do calls end in the state machine's state and keep the invariant; when ready is 1 the file is the source followed by whatever the old file had beyond it. |
| FluxTicks.RecheckRun | src/flux.c:635-677 | What one recheck does to its connection: an unfinished one that is neither enabled nor being set up gets a setup thread, one whose delay is over is given up and comes up for another, a thread at work is left alone; nothing else changes. |
| FluxTicks.TicksCanFinish | src/flux.c:492-726 | From every state of an unfailed download there are calls of flux_do, one visit and one recheck for each connection, after which ready is 1: no dropped connection is forgotten, data is read, and the final check is made. |
| FluxTicks.DownloadCanFinish | src/flux.c:440-726 | Whatever the old file held, divide and flux_start followed by such calls complete a fresh download. |
| ScanCrawl.DiscoverSafe | src/scan.c:1621-1718 | discover_chain keeps the budget (visited = fetched, no duplicates, at most SCAN_MAX_FETCHES) and records only genuine chains. |
| ScanCrawl.FollowSafe | src/scan.c:1692-1715 | The link loop does. |
| ScanCrawl.AfterLinkSafe | src/scan.c:1693-1714 | One link does, and afterwards its target has been visited. |
| ScanCrawl.RecurseSafe | src/scan.c:2072-2117 | For every site: the recursion fetches no URL twice and makes at most SCAN_MAX_FETCHES fetches counting the landing page, the visited list is the fetch log, and every candidate's chain is depth + 1 <= max_depth + 1 steps along fetched pages from the landing page, or from the first episode of a series, to a media reference on the last. |
| ScanCrawl.FollowVisitsAll | src/scan.c:1692-1715 | No link of an explored page is dropped unless the budget is used up. |
| ScanExplores.DiscoverExplores | src/scan.c:1683-1715 | Every page fetched below a page was reached by its recorded links within the depth limit; each one below the limit and without media has had every link found on it visited, or the budget is used up. |
| ScanExplores.RecurseExplores | src/scan.c:2072-2117 | The same of the whole crawl from the landing page or the first episode of a series; the first episode is fetched next unless it is the landing page, and what is usable of it is explored. |
| ScanComplete.DiscoverThorough | src/scan.c:1621-1718 | Whatever discover_chain fetches is recorded: a page with a media reference has a candidate for one on the list, unless the list is full. |
| ScanComplete.RecurseThorough | src/scan.c:2072-2117 | So for the whole crawl: every page fetched after the landing page, and the landing page itself unless a series is explored instead. |
| ScanEngine.Scanner.Visit | src/scan.c:312-324 | Membership before the call, and the visited list after it. |
| ScanEngine.Scanner.AddChainCandidate | src/scan.c:1478-1531 | Counts a known URL again, or records the first steps of the shared array; limits as in the code. |
| ScanEngine.Scanner.DiscoverChain | src/scan.c:1621-1718 | With one shared, overwritten steps array the recursion computes exactly Discover, which gives each level its own, and leaves the caller's prefix of the array intact. |
| ScanEngine.Scanner.FollowLink | src/scan.c:1693-1714 | One turn of the link loop, likewise. |
| ScanEngine.Scanner.Recurse | src/scan.c:2072-2117 | scan_recurse computes Recurse. |
| ScanEngine.Scan | src/scan.c:2072-2117 | The code's own log and candidates are those of Recurse, with the claims of RecurseSafe. |
| ScanTemplate.BuildTemplate | src/scan.c:1814-1828 | The buffer loop yields the template (each maximal digit run one '#'), cut at the buffer size. |
| ScanTemplate.BuildEre | src/scan.c:1930-1945 | The buffer loop yields the expression of the part of the template it keeps (Emitted), which ends at the first character that finds the buffer nearly full. |
| ScanTemplate.EreReadsBack | src/scan.c:1930-1945 | The emitted expression, read as an extended regular expression of literals and digit runs, is the template's token sequence: escaping is neither missing nor wrong. |
| ScanTemplate.TemplateIsTemplate | src/scan.c:1814-1828 | A generalised string has no digits left and no two adjacent marks. |
| ScanTemplate.TemplateExact | src/scan.c:1814-1945 | A string matches the expression of a template if and only if its own template is that one. |
| ScanTemplate.OnlyTemplatesAreExact | src/scan.c:1814-1945 | That equivalence holds for all strings if and only if the template is one the code can produce. |
| ScanTemplate.SelectTemplate | src/scan.c:1846-1928 | The chosen template is an eligible one no eligible one beats, the first of its kind; none if and only if none is eligible. |
| ScanTemplate.DominantMeans | src/scan.c:1836-1928 | How the chosen family compares with any other: matching the landing page comes first, then the longer common path, then the larger family. |
| ScanTemplate.BuildSeries | src/scan.c:1801-2011 | None if and only if no template is eligible; otherwise an unbeaten eligible template, the emitted expression of it, always shorter than its buffer, and the first href of its group. |
| ScanTemplate.KeptIffWhole | src/scan.c:1814-1945 | The whole template makes it into the expression if and only if it is empty or the expression of all but its last character is shorter than 502. |
| ScanTemplate.EmittedCaptures | src/scan.c:1814-1945 | What the emitted expression captures is what has no '#' and generalises to the kept part of the template. |
| ScanTemplate.SeriesCapturesGroupIff | src/scan.c:1814-1945 | The emitted expression captures exactly the hrefs of the group without '#', found on the page or not, if and only if the string is a template and all of it made it into the expression. |
| ScanTemplate.MarkIsNotCaptured | src/scan.c:1814-1945 | An href with '#' is captured by no emitted expression. |
| ScanTemplate.WholeGroupIff | src/scan.c:1814-1945 | The expression captures the whole group, members with '#' included, if and only if moreover the template has no digit run. |
| ScanTemplate.CutExpressionMissesGroup | src/scan.c:1814-1945 | When part of the template is lost the expression captures no href of the group. |
| ScanTemplate.CutTemplateIsNotWhole | src/scan.c:1814-1945 | That is so for every template that was itself cut by its 512-byte buffer. |
| ScanTemplate.LongHrefIsLost | src/scan.c:1814-1945 | An input on which it happens: "1a" written 73 to 255 times, whose template is not cut. |
| UrlGlobRange.ParseUint | src/url_glob.c:84-100 | Accepts exactly 1 to 19 digits denoting at most LONG_MAX, without the unsigned accumulator ever wrapping. |
| UrlGlobRange.CutIsExact | src/url_glob.c:172-208 | The content of a group is cut at its first separator, with nothing lost, and left uncut only for lack of one. |
| UrlGlobRange.ItemStaysInside | src/url_glob.c:233-253 | Item k lies between the bounds. |
| UrlGlobRange.NextItemPassesEnd | src/url_glob.c:233-253 | One more step would pass the end, so none is missing. |
| UrlGlobRange.RangeIsExact | src/url_glob.c:210-269 | Items start at the first bound, are one step apart and stay inside the bounds; numeric texts read back as their value, fit their buffer, and have one common length when a bound is zero-padded. |
| UrlGlobRange.Fill | src/url_glob.c:251-269 | The loop writes exactly these texts, and no product or sum leaves the range of long. |
| UrlGlobRange.ReadRange | src/url_glob.c:210-245 | Step, bounds, direction and padding are read as specified. |
| UrlGlobRange.CountItems | src/url_glob.c:233-235 | span / step + 1 in machine arithmetic is the true count. |
| UrlGlobRange.BuildRangeImpl | src/url_glob.c:165-273 | build_range as a whole: alternatives, "not a group" or "too many". |
| UrlGlobRange.SplitCommasExact | src/url_glob.c:143-157 | The list items joined by commas are the text, and none contains a comma. |
| UrlGlobRange.CutAtCommas | src/url_glob.c:143-154 | The single scan yields these items. |
| UrlGlobRange.BuildPatternImpl | src/url_glob.c:276-288 | The dispatch between ranges, lists and plain text. |
| UrlGlobRange.GroupSize | src/url_glob.c:276-288 | A group has between 1 and MAX_URLS alternatives. |
| UrlGlobNotation.NumbersDenote | src/url_glob.c:166-273 | `[lo-hi]`, `[lo-hi:step]`, `{lo..hi}` and `{lo..hi..step}` of decimal numbers denote the numbers from lo on, a step apart, up to hi (or down to it, in braces), zero-padded to the longer bound when a bound has a leading zero; too many is refused. |
| UrlGlobNotation.LettersDenote | src/url_glob.c:166-273 | The same notation with two letters denotes the characters from the first to the second. |
| UrlGlobNotation.ListDenotes | src/url_glob.c:127-158 | `{a,b}` denotes its items, empty ones included, or is refused for too many. |
| UrlGlobNotation.GroupIff | src/url_glob.c:276-288 | A text in braces or brackets is a group if and only if it is a range written in one of these ways or, in braces and without two dots in a row, holds a comma; anything else stays as it is. |
| UrlGlob.SegmentsTileSource | src/url_glob.c:316-366 | Segmentation loses nothing: the pieces put together are the URL. |
| UrlGlob.SegmentsAreWellBuilt | src/url_glob.c:316-366 | No piece is empty, no two literals meet, and every pattern is opener, content accepted by the builder, first closer. |
| UrlGlobNotation.WrittenIsSegmented | src/url_glob.c:316-366 | A URL written from literals and groups is cut into exactly these literals and groups. |
| UrlGlobNotation.OneGroupExpands | src/url_glob.c:301-434 | A literal, a group and a literal expand to one URL for each alternative, in order. |
| UrlGlob.SegmentsFit | src/url_glob.c:308-366 | There are never more pieces than characters. |
| UrlGlob.ChoiceIsDigits | src/url_glob.c:379-415 | Choice n of the cartesian product is read off the mixed-radix digits of n. |
| UrlGlob.CarryIsSuccessor | src/url_glob.c:410-414 | One turn of the odometer adds one. |
| UrlGlob.OdometerReturns | src/url_glob.c:379-415 | After as many turns as there are choices the odometer is back at zero. |
| UrlGlob.ExpandIsProduct | src/url_glob.c:302-434 | A successful expansion has one item for each choice, between 1 and 10000, in order with the rightmost group fastest; each URL is its literals and captures and shorter than max_len. |
| UrlGlob.NoGroupsMeansPassthrough | src/url_glob.c:302-434 | A URL without groups expands to itself. |
| UrlGlob.TakeGroup | src/url_glob.c:346-359 | A pending literal and the group are appended and fit the array, also when the URL is refused for its product just afterwards. |
| UrlGlob.Scan | src/url_glob.c:314-366 | The scanner computes the segmentation and the product; stopping early when the product is too large refuses exactly the URLs whose full product is too large. The pieces fit their array of srclen + 1 entries. |
| UrlGlob.Generate | src/url_glob.c:380-396 | The buffer loop builds the URL of the current odometer, or fails exactly when it would not fit. |
| UrlGlob.Advance | src/url_glob.c:410-414 | The carry loop in place. |
| UrlGlob.GenerateInto | src/url_glob.c:379-415 | The generation loop fills the array with all items in order and leaves the odometer after the last, or stops at a URL that does not fit. |
| UrlGlob.GenerateAll | src/url_glob.c:368-424 | The generation loop produces all items in order or fails exactly when some URL does not fit. |
| UrlGlob.Glob | src/url_glob.c:302-434 | url_glob returns exactly Expand. |
| Search.StepKeepsValid | src/search.c:228-273 | Whatever workers do meanwhile, a look at one mirror keeps running = started but unjoined threads <= search_threads, left and correct true, and each thread joined at most once. |
| Search.NothingLeft | src/search.c:228-276 | When left reaches 0 no thread is left, each started one was joined exactly once and every mirror has an answer. |
| Search.SpeedTest.Begin | src/search.c:218-226 | The first loop establishes the invariant and clears the start time of mirrors with a known speed. |
| Search.SpeedTest.Reap | src/search.c:258-271 | Bookkeeping after a worker ended or was cancelled, also when it reports at the last moment; a measured speed stays. |
| Search.SpeedTest.LookAt | src/search.c:229-272 | One turn of the inner loop is one step of the state machine. |
| Search.SpeedTest.GetSpeeds | src/search.c:214-276 | The state is that of the state machine after the passes; when it ends no thread is left, every thread started was joined once, every mirror has the speed its own worker reported (or, known before, the one it had) and the result counts the positive ones. |
| Search.AnswersAreKept | src/search.c:214-304 | Over any passes that settle every mirror: a known speed is kept without a thread; otherwise exactly one thread ran and the speed is what it reported, SPEED_DONE if that was a failure or it ran out of time unheard. |
| Search.AnsweredIff | src/search.c:258-271 | The same both ways: a mirror ends with the positive speed r if and only if its worker reported r or r was known; it ends with SPEED_DONE if and only if it was known bad, its worker failed or nothing was reported. |
| Search.FirstReportCounts | src/search.c:278-304 | A worker that is at work reports once: its first report is the one on record. |
| SearchEnds.CanEnd | src/search.c:228-273 | With at least one thread, from every state of the test some passes bring `left` to 0. |
| SearchEnds.StuckForever | src/search.c:228-273 | Without threads no pass changes anything. |
| SearchEnds.PollingEndsIff | src/search.c:218-273 | The polling can come to an end if and only if at least one thread is allowed or no mirror waits for a test. |
| Search.ComparatorConsistentIff | src/search.c:314-325 | The comparator is antisymmetric and transitive on a list if and only if the list does not mix negative, zero and positive speeds. |
| Search.SortedListIsUsableFirst | src/search.c:307-325 | After the test any sorted order has exactly the usable mirrors in its first `correct` places, fastest first. |
| HlsPool.FineFetchIsComplete | src/hls.c:864-892 | A fetch that succeeds has written its whole segment, whatever its short and interrupted writes did; one that fails leaves no more than a part. |
| HlsPool.StepKeepsValid | src/hls.c:897-919 | Every locked action or fetch of a worker keeps the pool's invariant. |
| HlsPool.ClaimedAtMostOnce | src/hls.c:902-909 | Under any interleaving the jobs are claimed in order, each at most once. |
| HlsPool.SuccessIffAllWritten | src/hls.c:923-963 | With all workers joined, success holds if and only if every segment was completely written. |
| HlsPool.GoodRunSucceeds | src/hls.c:822-963 | When every fetch goes well no failure is reported: once all workers are joined the pool has succeeded and every file holds its segment. |
| HlsPool.StepsRunOut | src/hls.c:897-919 | Every effective action lowers a non-negative measure. |
| HlsPool.SomeStepHelps | src/hls.c:897-919 | As long as a worker is left some action has an effect: the pool is never stuck. |
| HlsPool.EffectiveIsBounded | src/hls.c:897-919 | No schedule has more effective actions than the measure at its start. |
| HlsPool.ScheduleExtends | src/hls.c:947-957 | Every schedule extends to one after which all workers have exited, so that the joins return. |
| HlsPool.FetchSegment | src/hls.c:864-892 | The write loop and close of hls_fetch_segment give exactly that file and result. |
| HlsPool.SharedPool.Act | src/hls.c:897-919 | The worker's code on the shared fields is one step of the state machine. |
| HlsPool.RunPool | src/hls.c:923-963 | hls_run_pool under any schedule computes the state machine's files and result; 0 after joining means every file holds its segment, and it is 0 when every fetch goes well. |
| FileIo.WriteAll | src/hls.c:1023-1033 | Short and interrupted writes: what is written is the prefix WriteLoop computes, the whole buffer on success; a failure has a failed call to show. |
| HlsPool.CopyFile | src/hls.c:1013-1036 | Partial reads likewise for a file. |
| HlsPool.ConcatFiles | src/hls.c:993-1042 | The output is a prefix of the segments in order, on success all of them; it fails only if some call does. |
| HlsPool.Assemble | src/hls.c:923-1042 | Pool and concatenation together: success means the output is the playlist's content in order. |
| HlsPlaylist.IvFromSequence | src/hls.c:686-691 | Writes the 16-byte big-endian encoding. |
| HlsPlaylist.BigEndianIsFaithful | src/hls.c:686-691 | That encoding read back gives the number. |
| HlsPlaylist.TakeUri | src/hls.c:613-671 | A URI line appends a segment with the key state in force, or is skipped without an EXTINF. |
| HlsPlaylist.ParseLines | src/hls.c:564-672 | The line loop computes the fold over the lines. |
| HlsPlaylist.ParseMediaImpl | src/hls.c:532-675 | hls_parse_media as a whole. |
| HlsPlaylist.FoldDescribes | src/hls.c:564-672 | The loop's state at any line is what the lines so far say when read declaratively. |
| HlsPlaylist.ParseMediaAgrees | src/hls.c:532-675 | Segment k is the k-th URI with an EXTINF of its own, carrying that EXTINF and the nearest key above it (sections 4.3.2.4 and 5.2 of RFC 8216); the playlist counts as encrypted if and only if some key tag says so; it is refused if and only if a key is unacceptable, there is an EXT-X-MAP, or there are too many segments. |
| HlsText.TrimGivesBody | src/hls.c:112-122 | Trimming takes the white space around a line and nothing of the line. |
| HlsText.StrtolReadsNumber | src/hls.c:586-589 | A sequence number in decimal notation is read as that number, up to LONG_MAX. |
| HlsText.PlaylistIsTokenized | src/hls.c:564-611 | A text written line by line (EXTINF, key, map, sequence and other tags, references, empty lines; any white space around them; with or without a last line break or a byte order mark) is read as exactly these lines. |
| HlsText.PlaylistIsRead | src/hls.c:532-675 | A playlist written item by item is read back: segment k has its own URI and EXTINF, the key and vector of the last key tag up to it, or the default vector of the written number plus k; it is refused if and only if it has too many items. |
| HlsAttributes.AttrGetIsLookup | src/hls.c:168-209 | On a written attribute list attr_get is a lookup by name ignoring case, the first match winning, commas and equals signs in quotes included (section 4.2 of RFC 8216). |
| HlsAttributes.ParseIvIff | src/hls.c:693-722 | hls_parse_iv accepts a text as a vector if and only if, after an optional 0x, it is its 32 hexadecimal digits in either case. |
| HlsAttributes.KeyTagIsRead | src/hls.c:475-529 | A key tag naming AES-128, a URI and a vector puts exactly these in force, in whatever order they stand. |
| HlsText.KeySpecIsApplied | src/hls.c:475-529 | A written key tag (NONE, or AES-128 with a URI and perhaps a vector) puts in force what it says. |
| HlsPlaylist.DefaultVectorsCoincideIff | src/hls.c:655-664 | The default vector of a parsed segment encodes the sequence number in force plus its index, and two coincide if and only if these numbers do modulo 2^64. |
| HlsPlaylist.SegmentVectorsAreDistinct | src/hls.c:532-675 | In an accepted playlist with no sequence tag below its first segment, segment k without a vector of its own gets that of media_sequence + k, and no two such segments share one. |
| HlsPlaylist.SequenceIsConstant | src/hls.c:586-590 | When every sequence tag stands above the first segment, one number is in force for all (section 4.3.3.2 of RFC 8216). |
| ConnUrl.ParseIsProducible | src/conn.c:56-168 | Whatever conn_set accepts has a supported protocol, a positive port, a directory from '/' to '/' without '?', no '/' in the file name before its query nor in host and credentials, and no '@' in the host. |
| ConnUrl.AfterSetWhenParsed | src/conn.c:56-168 | When conn_set succeeds, the fields it leaves behind are the ones it has read. |
| ConnUrl.HostComesApart | src/conn.c:144-165 | A printed host comes back if and only if it is an IPv6 literal or can be taken neither for one nor cut at a colon. |
| ConnUrl.LoginBackIff | src/conn.c:118-142 | A printed login comes back if and only if it is the protocol's default or an explicit one without a colon in the user name. |
| ConnUrl.RoundTripIff | src/conn.c:56-217 | conn_set undoes conn_url if and only if the connection is well-formed. |
| ConnUrl.DefaultsAreFilledIn | src/conn.c:62-168 | A URL without login and port gets those of its protocol. |
| ConnUrl.BareHostIsRoot | src/conn.c:94-116 | A URL without a path names the root directory. |
| ConnUrl.NoSchemeIsHttp | src/conn.c:61-65 | A URL without a scheme is read as the http URL. |
| ConnUrl.Connection.Set | src/conn.c:56-168 | The result, and every field afterwards, also when the URL is refused: nothing changes for an unsupported protocol, all fields are overwritten otherwise. |
| ConnUrl.Connection.Url | src/conn.c:188-217 | For every buffer length: -1, the URL cut to the buffer with the length of its last part, or the case in which the remaining length wraps and the writes leave the buffer. |
| ConnUrl.WholeUrlIff | src/conn.c:188-217 | The buffer holds the whole URL if and only if the URL and its NUL fit. |
| ConnUrl.CopyThroughUrl | src/conn.c:56-217 | Printing one connection and setting another from the text copies it if and only if it is well-formed. |
| DnMatch.EndTestMeansNoDot | src/dn-match.c:85-87 | With a length not below the text's own, the size_t comparison holds if and only if the length is the text's and there is no dot. |
| DnMatch.GreedySkipIsComplete | src/dn-match.c:72-90 | If any dot-free filling of the wildcard works, the longest skip finds it, with or without a further dot in the pattern. |
| DnMatch.MatchesIff | src/dn-match.c:53-91 | For every text and every length passed: dn_match returns 0 if and only if its end test fails and the name equals the pattern ignoring case or, with a wildcard in the first label and a name that is not internationalised, is the pattern with the wildcard filled without a dot. |
| DnMatch.MalformedIff | src/dn-match.c:60-87 | For every text and every length passed: a name is reported malformed if and only if the end test is reached and holds. |
| DnMatch.CertMatchesIff | src/ssl_verify.c:43-49 | Raw certificate data match if and only if their text up to the first NUL does and they hold a dot or a NUL. |
| DnMatch.CertMalformedIff | src/ssl_verify.c:43-49 | They are reported malformed if and only if they hold neither dot nor NUL and the end test is reached. |
| DnMatch.EmbeddedNulIsAccepted | src/dn-match.c:85-87 | The inputs on which the comment does not hold: any name, a NUL and anything, for the host of that name. |
| EpisodeSpec.AcceptedIffGrammar | src/extractor.c:1090-1122 | The cursor reads a specification as some ranges if and only if the grammar (items, spans, blanks, commas, one trailing comma) derives them and all are within bounds. |
| EpisodeSpec.KeywordSelectsAll | src/tui.c:424-430 | After blanks, each of the three keywords selects every episode. |
| EpisodeSpec.ClampIsHarmless | src/tui.c:440-463 | A digit clamp above the number of episodes changes no outcome. |
| EpisodeSpec.ExtractorClampIff | src/extractor.c:1053-1068 | The fixed clamp changes no outcome if and only if there are at most 2000 episodes. |
| EpisodeSpec.ParsersAgree | src/extractor.c:1070-1147 | On specifications that are not blank, not a keyword and without line ends both parsers return the same; on all others the extractor refuses. |
| EpisodeSpec.BothSelectUnion | src/tui.c:418-478 | There both select exactly the union of the listed ranges. |
| EpisodeParsers.ReadDigits | src/extractor.c:1053-1068 | Clamping at every digit is clamping the whole number once. |
| EpisodeParsers.ExtractorItem | src/extractor.c:1091-1110 | One turn of the loop up to the marks reads one item of the grammar within bounds. |
| EpisodeParsers.TuiItem | src/tui.c:438-464 | The same for the other parser. |
| EpisodeParsers.ParseEpisodes | src/extractor.c:1070-1147 | The loop returns exactly Extractor: a fresh selection with its true count, or null. |
| EpisodeParsers.ApplySpec | src/tui.c:418-478 | The loop sets the selection to exactly Tui, and leaves it alone on failure. |
| EpisodeParsers.EmptyIffNoRange | src/extractor.c:1133-1142 | The final count is 0 if and only if no range was read. |
| BasicAuth.SymbolIsTable | src/http.c:75-77 | The alphabet is the table of 64 characters the code spells out. |
| BasicAuth.DecodeIffEncode | src/http.c:76-103 | A text decodes to given octets if and only if it is their encoding: the token is the one canonical Base64 text of the credentials. |
| BasicAuth.EncodedShape | src/http.c:80-102 | Its length is 4 * ceil(n / 3) and '=' stands exactly at the end, as often as octets are missing. |
| BasicAuth.ServerReadsCredentialsIff | src/http.c:78-103 | Decoding and splitting at the first colon gives user and password back if and only if the user has no colon (section 2 of RFC 7617). |
| BasicAuth.Chain.Next | src/http.c:64-70 | chain_next yields the next character of the concatenation of the three strings, any of which may be empty, and 0 only past its end. |
| BasicAuth.AuthToken | src/http.c:72-103 | The loop stores exactly the encoding of user + ":" + pass at the front of the buffer and changes nothing else, if and only if the buffer is long enough; otherwise the program writes past it. |
| HttpAuth.StoredReadsBackIff | src/http.c:72-103 | Read as a C string, the buffer is the token if and only if a NUL stood behind it before the call. |
| HttpAuth.TokenFitsIff | src/http.h:50-55 | Token and terminator fit 1024 elements if and only if user and password have at most 764 characters together. |
| HttpAuth.AcceptedLoginMayNotFit | src/conn.c:118-142 | conn_set accepts logins that do not fit, for instance 765 to 1000 letters as a user. |
| HttpAuth.LastConnectIsRightIff | src/http.c:133-137 | After any number of connects the field read as a C string is what the last one should send if and only if that has no user or no earlier token was longer. |
| HttpAuth.ShorterLoginIsWrong | src/http.c:133-137 | An input on which it is not: any second login shorter than the first by three characters or more. |
| HttpAuth.Http.Connect | src/http.c:133-137 | http_connect changes the field in place to exactly Connected. |

## Left out

- Servers that cannot resume, unknown sizes, and size 0 (`flux_divide` would divide by zero): the content invariant is meant for resumable downloads of at least one byte.
- The 200/206 distinction: that a connection whose setup succeeded delivers the source from the offset asked for is the model's assumption about servers.
- The old state-file format, truncated state files, and a crash in the middle of writing one: a snapshot is saved as a whole, and output file and state file are taken to survive together.
- The speed limit, average speed and all messages; memory exhaustion; the handles of threads. Locks are modelled by making each locked section one event.
- 32-bit and 64-bit overflow of file offsets: sizes are below 2^63 and every offset is proved to stay within the size.
- FluxEngine.Engine.Do: the clock, select(), the speed measurement that decides about the throttling sleep and the scheduling of threads are arguments; a call is described for every value of them.
- FluxTicks.TicksCanFinish: such calls exist, for a server that answers and delays that pass; that a given network lets them happen is not claimed.
- ScanEngine.Scanner.AddChainCandidate: a candidate's kind, host and ad flag, which are functions of its URL, and its context, which is the same for all.
- ScanCrawl.RecurseSafe: collect_follow_links, the regular expressions, URL resolution and media classification are parameters; the filename-as-parameter heuristic, the later enrichment fetches and the iframe pages collect_iframes (src/scan.c:807-878) fetches before the recursion, outside visited list and budget, are not part of this model.
- That running the emitted configuration finds what the scan found: the two match case differently and resolve links against different pages.
- ScanTemplate.SeriesCapturesGroupIff: stated for templates without braces; regular expressions beyond literals and digit runs are not modelled, and the expressions built are taken to compile.
- UrlGlob.Glob: allocation failures and the error texts.
- Search.SpeedTest.GetSpeeds: the polling passes are an argument; that some bring `left` to 0 is SearchEnds.PollingEndsIff, and that a given clock does so is not claimed; the clock is positive and a worker's result is a positive time or a failure; initial speeds are unknown, known-bad or positive.
- Search.SortedListIsUsableFirst: qsort is taken at its contract, any permutation that the comparator calls sorted.
- HlsPlaylist.ParseMediaAgrees: URL resolution is a parameter.
- HlsText.PlaylistIsRead: the sequence tag stands first and each reference right after its EXTINF; other orders are covered by HlsText.PlaylistIsTokenized with HlsPlaylist.ParseMediaAgrees.
- HlsPlaylist.ParseMediaImpl: durations stay text (no floating point), so there is no total duration; the error texts are not modelled; the sum behind a default vector is not bounded by LONG_MAX.
- Decryption, fetching over the network, ffmpeg and the terminal interface.
- ConnUrl.RoundTripIff: stated for URLs that fit MAX_STRING. The test for IPv6 literals is a parameter, TLS support is taken to be compiled in, and port numbers that overflow sscanf's int are not modelled.
- DnMatch.CertMatchesIff: for certificate data shorter than 2^63 bytes; the host name is a C string.
- EpisodeParsers.ApplySpec: allocation failure (also of zero flags); the size_t accumulator is unbounded here; with a clamp of n + 1 it never exceeds 10 * (n + 1) + 9.
- BasicAuth.AuthToken: credentials are 7-bit, since the code shifts plain char values; nothing is said about the result once the buffer is too short.
- gdrive_normalize, abuf_strcat, variant selection, blocklists and other small helpers.
