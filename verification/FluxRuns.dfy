/** Properties of whole runs of the download engine, and of histories with crashes and resumes. */
module FluxRuns {
  import opened Prelude
  import opened Sums
  import opened FluxModel
  import opened FluxInvariant
  import opened FluxDivide

  lemma {:induction false} RunConcat(src: seq<byte>, d: Download, es: seq<Event>, fs: seq<Event>)
    ensures Run(src, d, es + fs) == Run(src, Run(src, d, es), fs)
    decreases |es|
  {
    if es == [] {
      assert es + fs == fs;
    } else {
      assert (es + fs)[1..] == es[1..] + fs;
      RunConcat(src, Step(src, d, es[0]), es[1..], fs);
    }
  }

  // ----- no offset is written twice

  predicate Writes(src: seq<byte>, d: Download, e: Event, k: int) {
    var (lo, hi) := Written(src, d.flux, e);
    lo <= k < hi
  }

  /** How often a run writes offset k. */
  function Hits(src: seq<byte>, d: Download, es: seq<Event>, k: int): nat
    decreases |es|
  {
    if es == [] then 0 else
    (if Writes(src, d, es[0], k) then 1 else 0) + Hits(src, Step(src, d, es[0]), es[1..], k)
  }

  lemma StepCovers(src: seq<byte>, d: Download, e: Event, k: int)
    requires Valid(src, d)
    ensures var d' := Step(src, d, e);
            && (Writes(src, d, e, k) ==> Covered(d.flux.conns, k) && d.flux.ready == 0)
            && (Covered(d'.flux.conns, k) ==> Covered(d.flux.conns, k))
            && (d'.flux.ready == d.flux.ready ==>
                 (Covered(d'.flux.conns, k) <==> Covered(d.flux.conns, k) && !Writes(src, d, e, k)))
            && (!Writes(src, d, e, k) ==> (Covered(d'.flux.conns, k) <==> Covered(d.flux.conns, k)))
            && (d.flux.ready != 0 ==> d'.flux.ready != 0 && d'.flux.bytesDone == d.flux.bytesDone)
            && d.flux.bytesDone <= d'.flux.bytesDone
  {
    WritesSource(src, d, e);
    if e.At? && Enabled(src, d.flux, e) {
      TouchKeeps(src, d.flux, e.i, e.action);
      var cs := d.flux.conns[e.i := Touched(d.flux.conns[e.i], e.action)];
      if Retires(d.flux.conns[e.i], e.action) {
        ReactivateKeeps(|src|, cs, e.i);
      }
    }
  }

  lemma {:induction false} RunGrows(src: seq<byte>, d: Download, es: seq<Event>)
    requires Valid(src, d)
    ensures d.flux.bytesDone <= Run(src, d, es).flux.bytesDone
    ensures d.flux.ready != 0 ==> d.flux.bytesDone == Run(src, d, es).flux.bytesDone
    decreases |es|
  {
    if es == [] {
    } else {
      StepCovers(src, d, es[0], 0);
      StepKeepsValid(src, d, es[0]);
      RunGrows(src, Step(src, d, es[0]), es[1..]);
    }
  }

  /** In any run at all, every offset is written at most once, and only if it was still missing. */
  lemma {:induction false} AtMostOnce(src: seq<byte>, d: Download, es: seq<Event>, k: int)
    requires Valid(src, d)
    ensures Hits(src, d, es, k) <= 1
    ensures Hits(src, d, es, k) == 1 ==> Covered(d.flux.conns, k) && d.flux.ready == 0
    decreases |es|
  {
    if es == [] {
    } else {
      StepCovers(src, d, es[0], k);
      StepKeepsValid(src, d, es[0]);
      AtMostOnce(src, Step(src, d, es[0]), es[1..], k);
    }
  }

  /** A run that completes has written every missing offset exactly once and no other offset. */
  lemma {:induction false} ExactlyOnce(src: seq<byte>, d: Download, es: seq<Event>, k: int)
    requires Valid(src, d)
    requires Run(src, d, es).flux.bytesDone == |src|
    ensures Hits(src, d, es, k) == if Covered(d.flux.conns, k) then 1 else 0
    decreases |es|
  {
    if es == [] {
      CompleteMeansOnDisk(src, d);
    } else {
      var d' := Step(src, d, es[0]);
      StepCovers(src, d, es[0], k);
      StepKeepsValid(src, d, es[0]);
      RunGrows(src, d', es[1..]);
      CompleteMeansOnDisk(src, d');
      ExactlyOnce(src, d', es[1..], k);
    }
  }

  // ----- work stealing is bounded

  predicate IsSteal(src: seq<byte>, s: Flux, e: Event) {
    && e.At? && Enabled(src, s, e)
    && Retires(s.conns[e.i], e.action)
    && Steals(s.conns[e.i := Touched(s.conns[e.i], e.action)], e.i)
  }

  function StealCount(src: seq<byte>, d: Download, es: seq<Event>): nat
    decreases |es|
  {
    if es == [] then 0 else
    (if IsSteal(src, d.flux, es[0]) then 1 else 0) + StealCount(src, Step(src, d, es[0]), es[1..])
  }

  function Potential(d: Download): int { Sum(Surpluses(d.flux.conns)) }

  /** A steal lowers the potential by exactly half a chunk; nothing raises it. */
  lemma StepLowersPotential(src: seq<byte>, d: Download, e: Event)
    requires Valid(src, d)
    ensures Potential(Step(src, d, e)) <=
              Potential(d) - if IsSteal(src, d.flux, e) then MIN_CHUNK_WORTH / 2 else 0
    ensures IsSteal(src, d.flux, e) && Gained(d.flux.conns[e.i], e.action) == 0 ==>
              Potential(Step(src, d, e)) == Potential(d) - MIN_CHUNK_WORTH / 2
  {
    if e.At? && Enabled(src, d.flux, e) {
      var c := d.flux.conns[e.i];
      var c' := Touched(c, e.action);
      TouchKeeps(src, d.flux, e.i, e.action);
      SumReplace(d.flux.conns, e.i, c');
      var cs := d.flux.conns[e.i := c'];
      if IsSteal(src, d.flux, e) {
        StealSplits(|src|, cs, e.i);
      }
    }
  }

  lemma {:induction false} StealsLowerPotential(src: seq<byte>, d: Download, es: seq<Event>)
    requires Valid(src, d)
    ensures 51200 * StealCount(src, d, es) <= Potential(d) - Potential(Run(src, d, es))
    decreases |es|
  {
    if es == [] {
    } else {
      StepLowersPotential(src, d, es[0]);
      StepKeepsValid(src, d, es[0]);
      StealsLowerPotential(src, Step(src, d, es[0]), es[1..]);
    }
  }

  /** No run, however long, steals more often than once for each half chunk still missing. */
  lemma StealsAreBounded(src: seq<byte>, d: Download, es: seq<Event>)
    requires Valid(src, d)
    ensures StealCount(src, d, es) <= (|src| - d.flux.bytesDone) / 51200
  {
    StealsLowerPotential(src, d, es);
    RunKeepsValid(src, d, es);
    var d' := Run(src, d, es);
    SumNonNegative(Surpluses(d'.flux.conns));
    forall i | 0 <= i < |d.flux.conns|
      ensures Surpluses(d.flux.conns)[i] <= Remainders(d.flux.conns)[i]
    {
      assert d.flux.conns[i] in d.flux.conns;
    }
    SumMonotone(Surpluses(d.flux.conns), Remainders(d.flux.conns));
  }

  // ----- a download can always be completed

  /** One event of a setup in progress, leading closer to an enabled connection. */
  function NextForSetup(c: Conn): Action {
    if c.setup.Asking? then SetupOk
    else if c.setup.Launched? then Ask
    else if c.state then Cancel
    else Launch(true, false)
  }

  function SetupDistance(c: Conn): nat {
    if c.enabled then 0
    else if c.setup.Asking? then 1
    else if c.setup.Launched? then 2
    else if !c.state then 3 else 4
  }

  lemma {:induction false} CanEnable(src: seq<byte>, d: Download, i: nat) returns (es: seq<Event>)
    requires Valid(src, d) && d.flux.ready == 0
    requires i < |d.flux.conns| && d.flux.conns[i].Unfinished()
    ensures var d' := Run(src, d, es);
            && d'.flux.ready == 0 && i < |d'.flux.conns|
            && d'.flux.conns[i].enabled && d'.flux.conns[i].Unfinished()
            && d'.flux.bytesDone == d.flux.bytesDone
    decreases SetupDistance(d.flux.conns[i])
  {
    var c := d.flux.conns[i];
    assert c in d.flux.conns && SocketOk(c);
    if c.enabled {
      es := [];
    } else {
      var e := At(i, NextForSetup(c));
      StepKeepsValid(src, d, e);
      var rest := CanEnable(src, Step(src, d, e), i);
      es := [e] + rest;
      assert es[1..] == rest;
    }
  }

  /** An unfinished range can be fetched in one piece, once its connection is brought up. */
  lemma CanFetchRange(src: seq<byte>, d: Download, i: nat) returns (es: seq<Event>)
    requires Valid(src, d) && d.flux.ready == 0 && i < |d.flux.conns| && d.flux.conns[i].Unfinished()
    ensures var d' := Run(src, d, es);
            Valid(src, d') && d'.flux.ready == 0 && d'.flux.bytesDone > d.flux.bytesDone
  {
    var bring := CanEnable(src, d, i);
    var d1 := Run(src, d, bring);
    RunKeepsValid(src, d, bring);
    var n := d1.flux.conns[i].Remaining();
    assert d1.flux.conns[i] in d1.flux.conns && SocketOk(d1.flux.conns[i]);
    var last := At(i, Data(n, n));
    StepKeepsValid(src, d1, last);
    es := bring + [last];
    RunConcat(src, d, bring, [last]);
    assert Run(src, d1, [last]) == Step(src, d1, last);
  }

  lemma SomeUnfinished(src: seq<byte>, d: Download) returns (i: nat)
    requires Valid(src, d) && d.flux.bytesDone != |src|
    ensures i < |d.flux.conns| && d.flux.conns[i].Unfinished()
  {
    CompleteMeansOnDisk(src, d);
    var c :| c in d.flux.conns && c.Unfinished();
    i :| 0 <= i < |d.flux.conns| && d.flux.conns[i] == c;
  }

  /** From every reachable state of a run that has not failed, some continuation completes the
      download: no order of events leaves a range that nobody can fetch. */
  lemma {:induction false} CanAlwaysFinish(src: seq<byte>, d: Download) returns (es: seq<Event>)
    requires Valid(src, d) && d.flux.ready == 0
    ensures Run(src, d, es).flux.bytesDone == |src|
    ensures Run(src, d, es).flux.ready == 1
    decreases |src| - d.flux.bytesDone
  {
    if d.flux.bytesDone == |src| {
      es := [Finish];
    } else {
      var i := SomeUnfinished(src, d);
      var one := CanFetchRange(src, d, i);
      RemaindersNonNegative(src, Run(src, d, one));
      var rest := CanAlwaysFinish(src, Run(src, d, one));
      es := one + rest;
      RunConcat(src, d, one, rest);
    }
  }

  // ----- state files, crashes and resumes

  /** The contents of the state file. */
  datatype Saved = Saved(bytesDone: int, ranges: seq<(int, int)>)

  /** What outlives a process, and the process if one is running. */
  datatype World = World(file: seq<byte>, saved: Option<Saved>, process: Option<Flux>)

  datatype Happening =
    | Open(wanted: nat, zeroFill: bool)   // flux_open, fresh or from the state file
    | Inside(event: Event)
    | Save                                // save_state at the start of some flux_do
    | Close                               // flux_close
    | Crash

  function Snapshot(s: Flux): Saved {
    Saved(s.bytesDone, seq(|s.conns|, i requires 0 <= i < |s.conns| =>
      (s.conns[i].currentbyte, s.conns[i].lastbyte)))
  }

  function Restore(size: int, saved: Saved): Flux {
    Flux(size,
         seq(|saved.ranges|, i requires 0 <= i < |saved.ranges| =>
           FreshConn(saved.ranges[i].0, saved.ranges[i].1)),
         saved.bytesDone, 0)
  }

  function Next(src: seq<byte>, w: World, h: Happening): World
    requires 1 <= |src|
  {
    match h
    case Open(wanted, zeroFill) =>
      if w.process.Some? || !(1 <= wanted <= 0xFFFF) then w
      else if w.saved.Some? then w.(process := Some(Restore(|src|, w.saved.value)))
      else
        w.(process := Some(Flux(|src|, Divide(|src|, wanted), 0, 0)),
           file := if zeroFill then WriteAt(w.file, 0, Zeros(|src|)) else w.file)
    case Inside(e) =>
      if w.process.None? then w else
      var d := Step(src, Download(w.process.value, w.file), e);
      w.(process := Some(d.flux), file := d.file)
    case Save => if w.process.None? then w else w.(saved := Some(Snapshot(w.process.value)))
    case Close =>
      if w.process.None? then w else
      var s := w.process.value;
      World(w.file,
            if s.ready == 1 then None else if s.bytesDone > 0 then Some(Snapshot(s)) else w.saved,
            None)
    case Crash => w.(process := None)
  }

  function History(src: seq<byte>, w: World, hs: seq<Happening>): World
    requires 1 <= |src|
    decreases |hs|
  {
    if hs == [] then w else History(src, Next(src, w, hs[0]), hs[1..])
  }

  /** Both the running process and the state file describe the file on disk truly; whatever the
      file held beyond the download's size is still there. */
  ghost predicate WorldValid(src: seq<byte>, before: seq<byte>, w: World) {
    && (w.process.Some? ==> Valid(src, Download(w.process.value, w.file)))
    && (w.saved.Some? ==> Valid(src, Download(Restore(|src|, w.saved.value), w.file)))
    && |before| <= |w.file| <= Max(|before|, |src|)
    && (forall k | |src| <= k < |before| :: w.file[k] == before[k])
  }

  lemma SnapshotIsValid(src: seq<byte>, s: Flux, file: seq<byte>)
    requires Valid(src, Download(s, file))
    ensures Valid(src, Download(Restore(|src|, Snapshot(s)), file))
  {
    var r := Restore(|src|, Snapshot(s));
    assert |r.conns| == |s.conns|;
    assert Remainders(r.conns) == Remainders(s.conns);
    forall i | 0 <= i < |s.conns|
      ensures 0 <= r.conns[i].currentbyte <= r.conns[i].lastbyte <= |src|
    {
      assert s.conns[i] in s.conns;
    }
    forall i, j | 0 <= i < j < |s.conns|
      ensures Apart(r.conns[i], r.conns[j])
    {
      assert Apart(s.conns[i], s.conns[j]);
    }
    forall k | 0 <= k < |src| && Covered(s.conns, k)
      ensures Covered(r.conns, k)
    {
      var i :| 0 <= i < |s.conns| && s.conns[i].Covers(k);
      assert r.conns[i].Covers(k);
    }
  }

  /** A process never invalidates the state file, however much it writes after saving it. */
  lemma WritesKeepSaved(src: seq<byte>, d: Download, e: Event, r: Flux)
    requires Valid(src, d) && Valid(src, Download(r, d.file))
    ensures Valid(src, Download(r, Step(src, d, e).file))
    ensures var file' := Step(src, d, e).file;
            && |d.file| <= |file'| <= Max(|d.file|, |src|)
            && forall k | |src| <= k < |d.file| :: file'[k] == d.file[k]
  {
    WritesSource(src, d, e);
    var (lo, hi) := Written(src, d.flux, e);
    var file' := Step(src, d, e).file;
    if lo < hi {
      WriteAtAt(d.file, lo, src[lo..hi]);
      forall k | 0 <= k < |src|
        ensures Covered(r.conns, k) || OnDisk(src, file', k)
      {
        if !Covered(r.conns, k) && Enabled(src, d.flux, e) {
          WriteKeeps(src, d.file, lo, hi, k);
        }
      }
    }
  }

  lemma NextKeepsWorldValid(src: seq<byte>, before: seq<byte>, w: World, h: Happening)
    requires 1 <= |src| && WorldValid(src, before, w)
    ensures WorldValid(src, before, Next(src, w, h))
  {
    match h
    case Open(wanted, zeroFill) =>
      if w.process.None? && w.saved.None? && 1 <= wanted <= 0xFFFF {
        FreshIsValid(src, wanted, Next(src, w, h).file);
        WriteAtAt(w.file, 0, Zeros(|src|));
      }
    case Inside(e) =>
      if w.process.Some? {
        var d := Download(w.process.value, w.file);
        StepKeepsValid(src, d, e);
        WritesKeepSaved(src, d, e, w.process.value);
        if w.saved.Some? {
          WritesKeepSaved(src, d, e, Restore(|src|, w.saved.value));
        }
      }
    case Save =>
      if w.process.Some? {
        SnapshotIsValid(src, w.process.value, w.file);
      }
    case Close =>
      if w.process.Some? {
        SnapshotIsValid(src, w.process.value, w.file);
      }
    case Crash =>
  }

  /** The same ranges are left to fetch. */
  predicate SameRanges(a: seq<Conn>, b: seq<Conn>) {
    && |a| == |b|
    && forall i | 0 <= i < |a| :: a[i].currentbyte == b[i].currentbyte && a[i].lastbyte == b[i].lastbyte
  }

  /** Closing a finished download leaves no state file.  Closing an unfinished one that has received
      anything and opening it again goes on where it was, whatever the number of connections asked
      for. */
  lemma CloseThenOpen(src: seq<byte>, w: World, wanted: nat, zeroFill: bool)
    requires 1 <= |src| && w.process.Some? && 1 <= wanted <= 0xFFFF
    ensures var s := w.process.value;
            var closed := Next(src, w, Close);
            var again := Next(src, closed, Open(wanted, zeroFill));
            && closed.process.None? && closed.file == w.file
            && (s.ready == 1 ==> closed.saved.None?)
            && (s.ready != 1 && s.bytesDone <= 0 ==> closed.saved == w.saved)
            && (s.ready != 1 && s.bytesDone > 0 ==>
                 && again.file == w.file && again.process.Some?
                 && again.process.value.bytesDone == s.bytesDone && again.process.value.ready == 0
                 && SameRanges(again.process.value.conns, s.conns))
  {
    var r := Restore(|src|, Snapshot(w.process.value));
    assert SameRanges(r.conns, w.process.value.conns);
  }

  /** Any number of processes, saves, crashes and resumes, in any order, keep the world valid. */
  lemma {:induction false} HistoryKeepsWorldValid(src: seq<byte>, before: seq<byte>, w: World, hs: seq<Happening>)
    requires 1 <= |src| && WorldValid(src, before, w)
    ensures WorldValid(src, before, History(src, w, hs))
    decreases |hs|
  {
    if hs == [] {
    } else {
      NextKeepsWorldValid(src, before, w, hs[0]);
      HistoryKeepsWorldValid(src, before, Next(src, w, hs[0]), hs[1..]);
    }
  }

  /** Whatever happened before, a process that reports success leaves the source file on disk; it
      is all the file holds exactly when the output did not start out longer. */
  lemma SuccessMeansSourceOnDisk(src: seq<byte>, before: seq<byte>, hs: seq<Happening>)
    requires 1 <= |src|
    ensures var w := History(src, World(before, None, None), hs);
            w.process.Some? && w.process.value.ready == 1 ==>
              && w.file == src + before[Min(|src|, |before|)..]
              && (w.file == src <==> |before| <= |src|)
  {
    var w := History(src, World(before, None, None), hs);
    HistoryKeepsWorldValid(src, before, World(before, None, None), hs);
    if w.process.Some? && w.process.value.ready == 1 {
      CompleteMeansOnDisk(src, Download(w.process.value, w.file));
      assert w.file == src + before[Min(|src|, |before|)..] by {
        assert forall k | 0 <= k < |src| :: w.file[k] == w.file[..|src|][k];
      }
    }
  }

  /** After any crash a reopened download can still be completed. */
  lemma ResumeCanFinish(src: seq<byte>, before: seq<byte>, hs: seq<Happening>, wanted: nat)
    returns (es: seq<Event>)
    requires 1 <= |src| && 1 <= wanted <= 0xFFFF
    ensures var w := Next(src, Next(src, History(src, World(before, None, None), hs), Crash),
                          Open(wanted, false));
            && w.process.Some?
            && Run(src, Download(w.process.value, w.file), es).flux.ready == 1
  {
    var w0 := History(src, World(before, None, None), hs);
    HistoryKeepsWorldValid(src, before, World(before, None, None), hs);
    var w1 := Next(src, w0, Crash);
    var w := Next(src, w1, Open(wanted, false));
    NextKeepsWorldValid(src, before, w0, Crash);
    NextKeepsWorldValid(src, before, w1, Open(wanted, false));
    es := CanAlwaysFinish(src, Download(w.process.value, w.file));
  }

  function Insides(es: seq<Event>): (hs: seq<Happening>)
    ensures |hs| == |es|
  {
    seq(|es|, i requires 0 <= i < |es| => Inside(es[i]))
  }

  lemma {:induction false} InsidesRun(src: seq<byte>, w: World, es: seq<Event>)
    requires 1 <= |src| && w.process.Some?
    ensures var d := Run(src, Download(w.process.value, w.file), es);
            History(src, w, Insides(es)) == w.(process := Some(d.flux), file := d.file)
    decreases |es|
  {
    if es == [] {
    } else {
      assert Insides(es)[1..] == Insides(es[1..]);
      InsidesRun(src, Next(src, w, Inside(es[0])), es[1..]);
    }
  }

  /** A fresh download that reports success, in one process. */
  lemma FreshRunSucceeds(src: seq<byte>, before: seq<byte>, wanted: nat, es: seq<Event>)
    requires 1 <= |src| && 1 <= wanted <= 0xFFFF
    ensures var d := Run(src, Download(Flux(|src|, Divide(|src|, wanted), 0, 0), before), es);
            d.flux.ready == 1 ==> d.file == src + before[Min(|src|, |before|)..]
  {
    var w0 := World(before, None, None);
    var open := Open(wanted, false);
    InsidesRun(src, Next(src, w0, open), es);
    assert ([open] + Insides(es))[1..] == Insides(es);
    SuccessMeansSourceOnDisk(src, before, [open] + Insides(es));
  }
}
