/**
 Calls of flux_do, whatever state they find, can complete the download: disconnected connections get
 new setup threads, connected ones are read, and the last call notices that nothing is missing.
 */
module FluxTicks {
  import opened Prelude
  import opened FluxModel
  import opened FluxInvariant
  import opened FluxDivide
  import opened FluxRuns
  import opened FluxEngine

  /** One visit and one recheck for each connection. */
  predicate ForAll(t: Tick, n: nat) { |t.visits| == |t.rechecks| == n }

  /** A call that can happen in this state: select waits if and only if a connection is ready to be
      waited for, and only such connections have something to read. */
  predicate Plausible(d: Download, t: Tick) {
    && ForAll(t, |d.flux.conns|)
    && (t.waits <==> exists c <- d.flux.conns :: c.enabled && c.LockFree())
    && forall i | 0 <= i < |t.visits| ::
         t.visits[i].poll.Quiet? || (d.flux.conns[i].enabled && d.flux.conns[i].LockFree())
  }

  predicate AllPlausible(src: seq<byte>, d: Download, ticks: seq<Tick>, k: nat)
    decreases |ticks| - k
  {
    |ticks| <= k || d.flux.ready != 0 ||
    (Plausible(d, ticks[k]) && AllPlausible(src, AfterTick(src, d, ticks[k]), ticks, k + 1))
  }

  // ----- runs of calls

  lemma {:induction false} TicksShift(src: seq<byte>, d: Download, t: Tick, ticks: seq<Tick>, k: nat)
    ensures AfterTicks(src, d, [t] + ticks, k + 1) == AfterTicks(src, d, ticks, k)
    ensures AllPlausible(src, d, [t] + ticks, k + 1) <==> AllPlausible(src, d, ticks, k)
    decreases |ticks| - k
  {
    if |ticks| <= k || d.flux.ready != 0 {
    } else {
      assert ([t] + ticks)[k + 1] == ticks[k];
      TicksShift(src, AfterTick(src, d, ticks[k]), t, ticks, k + 1);
    }
  }

  lemma TicksCons(src: seq<byte>, d: Download, t: Tick, ticks: seq<Tick>)
    requires d.flux.ready == 0
    ensures AfterTicks(src, d, [t] + ticks, 0) == AfterTicks(src, AfterTick(src, d, t), ticks, 0)
    ensures AllPlausible(src, d, [t] + ticks, 0) <==>
              Plausible(d, t) && AllPlausible(src, AfterTick(src, d, t), ticks, 0)
  {
    assert ([t] + ticks)[0] == t;
    TicksShift(src, AfterTick(src, d, t), t, ticks, 0);
  }

  // ----- quiet visits

  const Still := Visit([], Quiet(false))

  lemma StillVisit(src: seq<byte>, d: Download, i: nat)
    ensures Run(src, d, VisitEvents(src, d, i, Still)) == d
  {
    assert ThreadEvents([]) == [];
    assert VisitEvents(src, d, i, Still) == [];
  }

  lemma {:induction false} StillLoop(src: seq<byte>, d: Download, vs: seq<Visit>, k: nat)
    requires forall j | k <= j < |vs| :: vs[j] == Still
    ensures AfterDataLoop(src, d, vs, k) == d
    decreases |vs| - k
  {
    if |vs| <= k || d.flux.ready != 0 {
    } else {
      StillVisit(src, d, k);
      StillLoop(src, d, vs, k + 1);
    }
  }

  /** A data loop in which one connection alone has something to do. */
  lemma {:induction false} OneVisit(src: seq<byte>, d: Download, vs: seq<Visit>, k: nat, i: nat)
    requires d.flux.ready == 0 && k <= i < |vs|
    requires forall j | k <= j < |vs| && j != i :: vs[j] == Still
    ensures AfterDataLoop(src, d, vs, k) == Run(src, d, VisitEvents(src, d, i, vs[i]))
    decreases i - k
  {
    if k == i {
      StillLoop(src, Run(src, d, VisitEvents(src, d, i, vs[i])), vs, i + 1);
    } else {
      StillVisit(src, d, k);
      OneVisit(src, d, vs, k + 1, i);
    }
  }

  // ----- one recheck

  /** What a setup thread can still do for its connection. */
  function Help(c: Conn, i: nat): seq<ThreadStep> {
    if c.setup.Asking? then [ThreadStep(i, Succeeds)]
    else if c.setup.Launched? then [ThreadStep(i, TakesLock), ThreadStep(i, Succeeds)]
    else []
  }

  function Helped(c: Conn): Conn {
    if c.setup.Asking? then Touched(c, SetupOk)
    else if c.setup.Launched? then Touched(Touched(c, Ask), SetupOk)
    else c
  }

  /** What the reconnect loop does with a connection when threads can be created. */
  function Rechecked(c: Conn, delayOver: bool): Conn {
    if !c.LockFree() || c.enabled || !c.Unfinished() then c
    else if !c.state then Touched(c, Launch(true, false))
    else if delayOver then Touched(c, Cancel) else c
  }

  /** The same valid, unbroken download but for one connection. */
  ghost predicate OnlyConn(src: seq<byte>, d: Download, d': Download, i: nat, c: Conn) {
    && i < |d.flux.conns| && d'.flux.conns == d.flux.conns[i := c]
    && Valid(src, d') && d'.flux.ready == 0 && d'.flux.bytesDone == d.flux.bytesDone
  }

  lemma OneAction(src: seq<byte>, d: Download, i: nat, a: Action)
    requires Valid(src, d) && d.flux.ready == 0 && i < |d.flux.conns|
    requires Allowed(src, 0, d.flux.conns[i], a) && !a.Data?
    requires !Retires(d.flux.conns[i], a) && !Breaks(d.flux.conns[i], a)
    ensures OnlyConn(src, d, Run(src, d, [At(i, a)]), i, Touched(d.flux.conns[i], a))
  {
    StepKeepsValid(src, d, At(i, a));
    assert Run(src, d, [At(i, a)]) == Step(src, d, At(i, a));
  }

  lemma HelpedRun(src: seq<byte>, d: Download, i: nat)
    requires Valid(src, d) && d.flux.ready == 0 && i < |d.flux.conns|
    ensures var c := d.flux.conns[i]; OnlyConn(src, d, Run(src, d, ThreadEvents(Help(c, i))), i, Helped(c))
  {
    var c := d.flux.conns[i];
    if c.setup.Asking? {
      assert ThreadEvents(Help(c, i)) == [At(i, SetupOk)];
      OneAction(src, d, i, SetupOk);
    } else if c.setup.Launched? {
      assert ThreadEvents(Help(c, i)) == [At(i, Ask)] + [At(i, SetupOk)];
      OneAction(src, d, i, Ask);
      OneAction(src, Run(src, d, [At(i, Ask)]), i, SetupOk);
      RunConcat(src, d, [At(i, Ask)], [At(i, SetupOk)]);
    } else {
      assert ThreadEvents(Help(c, i)) == [];
      assert d.flux.conns[i := c] == d.flux.conns;
    }
  }

  lemma CheckRun(src: seq<byte>, d: Download, i: nat, delayOver: bool)
    requires Valid(src, d) && d.flux.ready == 0 && i < |d.flux.conns|
    ensures var r := Recheck([], true, delayOver);
            OnlyConn(src, d, Run(src, d, RecheckEvents(src, d, i, r)), i, Rechecked(d.flux.conns[i], delayOver))
  {
    var c := d.flux.conns[i];
    var r := Recheck([], true, delayOver);
    assert ThreadEvents([]) == [];
    assert d.flux.conns[i := c] == d.flux.conns;
    if !c.LockFree() || c.enabled || !c.Unfinished() || (c.state && !delayOver) {
      assert RecheckEvents(src, d, i, r) == [];
    } else {
      var a := if !c.state then Launch(true, false) else Cancel;
      assert RecheckEvents(src, d, i, r) == [At(i, a)];
      OneAction(src, d, i, a);
    }
  }

  /** A recheck, perhaps with the connection's setup thread at work before it. */
  lemma RecheckRun(src: seq<byte>, d: Download, i: nat, r: Recheck)
    requires Valid(src, d) && d.flux.ready == 0 && i < |d.flux.conns| && r.created
    requires r.threads == [] || r.threads == Help(d.flux.conns[i], i)
    ensures var c := d.flux.conns[i];
            OnlyConn(src, d, Run(src, d, RecheckEvents(src, d, i, r)), i,
                     Rechecked(if r.threads == [] then c else Helped(c), r.delayOver))
  {
    var c := d.flux.conns[i];
    var te := ThreadEvents(r.threads);
    var d1 := Run(src, d, te);
    if r.threads == [] {
      assert r == Recheck([], true, r.delayOver);
      CheckRun(src, d, i, r.delayOver);
    } else {
      HelpedRun(src, d, i);
      var rest := RecheckEvents(src, d1, i, Recheck([], true, r.delayOver));
      assert ThreadEvents([]) == [];
      assert RecheckEvents(src, d, i, r) == te + rest;
      RunConcat(src, d, te, rest);
      CheckRun(src, d1, i, r.delayOver);
      assert d.flux.conns[i := Helped(c)][i := Rechecked(Helped(c), r.delayOver)] ==
             d.flux.conns[i := Rechecked(Helped(c), r.delayOver)];
    }
  }

  // ----- the reconnect loop

  const Leave := Recheck([], true, false)

  /** What a recheck of another connection leaves alone. */
  ghost predicate Beside(src: seq<byte>, d: Download, d': Download, i: nat) {
    && Valid(src, d') && d'.flux.ready == 0 && d'.flux.bytesDone == d.flux.bytesDone
    && |d'.flux.conns| == |d.flux.conns| && (i < |d.flux.conns| ==> d'.flux.conns[i] == d.flux.conns[i])
  }

  lemma LeaveOne(src: seq<byte>, d: Download, k: nat, i: nat)
    requires Valid(src, d) && d.flux.ready == 0 && k < |d.flux.conns| && k != i
    ensures Beside(src, d, Run(src, d, RecheckEvents(src, d, k, Leave)), i)
  {
    RecheckRun(src, d, k, Leave);
  }

  lemma {:induction false} LeaveRest(src: seq<byte>, d: Download, rs: seq<Recheck>, k: nat, i: nat)
    requires Valid(src, d) && d.flux.ready == 0 && |rs| == |d.flux.conns| && i < k
    requires forall j | k <= j < |rs| :: rs[j] == Leave
    ensures Beside(src, d, AfterReconnectLoop(src, d, rs, k), i)
    decreases |rs| - k
  {
    if |rs| <= k {
    } else {
      LeaveOne(src, d, k, i);
      LeaveRest(src, Run(src, d, RecheckEvents(src, d, k, rs[k])), rs, k + 1, i);
    }
  }

  /** A reconnect loop in which threads can be created and one connection is helped along. */
  lemma {:induction false} OneRecheck(src: seq<byte>, d: Download, rs: seq<Recheck>, k: nat, i: nat)
    requires Valid(src, d) && d.flux.ready == 0 && |rs| == |d.flux.conns| && k <= i < |rs|
    requires forall j | 0 <= j < |rs| && j != i :: rs[j] == Leave
    requires rs[i].created && (rs[i].threads == [] || rs[i].threads == Help(d.flux.conns[i], i))
    ensures var d' := AfterReconnectLoop(src, d, rs, k);
            && Valid(src, d') && d'.flux.ready == 0 && d'.flux.bytesDone == d.flux.bytesDone
            && |d'.flux.conns| == |d.flux.conns|
            && var c := d.flux.conns[i];
               d'.flux.conns[i] == Rechecked(if rs[i].threads == [] then c else Helped(c), rs[i].delayOver)
    decreases |rs| - k
  {
    var d1 := Run(src, d, RecheckEvents(src, d, k, rs[k]));
    if k == i {
      RecheckRun(src, d, i, rs[i]);
      LeaveRest(src, d1, rs, i + 1, i);
    } else {
      LeaveOne(src, d, k, i);
      OneRecheck(src, d1, rs, k + 1, i);
    }
  }

  // ----- three kinds of calls

  predicate SomeoneReady(d: Download) { exists c <- d.flux.conns :: c.enabled && c.LockFree() }

  function Quietly(n: nat): seq<Visit> { seq(n, _ => Still) }

  /** Nothing to read; the setup of connection i advances. */
  function HelpTick(d: Download, i: nat): Tick
    requires i < |d.flux.conns|
  {
    var n, c := |d.flux.conns|, d.flux.conns[i];
    Tick(false, SomeoneReady(d), false, Quietly(n),
         seq(n, j => if j == i then Recheck(Help(c, i), true, c.setup.Idle? && c.state) else Leave), false)
  }

  function Distance(c: Conn): nat {
    if c.enabled then 0 else if !c.setup.Idle? then 1 else if !c.state then 2 else 3
  }

  lemma HelpTickHelps(src: seq<byte>, d: Download, i: nat)
    requires Valid(src, d) && d.flux.ready == 0 && i < |d.flux.conns|
    requires d.flux.conns[i].Unfinished() && !d.flux.conns[i].enabled
    ensures Plausible(d, HelpTick(d, i))
    ensures var d' := AfterTick(src, d, HelpTick(d, i));
            && Valid(src, d') && d'.flux.ready == 0 && d'.flux.bytesDone == d.flux.bytesDone
            && |d'.flux.conns| == |d.flux.conns| && d'.flux.conns[i].Unfinished()
            && Distance(d'.flux.conns[i]) < Distance(d.flux.conns[i])
  {
    var t, c := HelpTick(d, i), d.flux.conns[i];
    assert c in d.flux.conns && SocketOk(c);
    StillLoop(src, d, t.visits, 0);
    OneRecheck(src, d, t.rechecks, 0, i);
    CompleteMeansOnDisk(src, d);
  }

  /** Connection i is read to the end of its range. */
  function ReadTick(d: Download, i: nat): Tick
    requires i < |d.flux.conns| && d.flux.conns[i].Unfinished()
  {
    var n, left := |d.flux.conns|, d.flux.conns[i].Remaining();
    Tick(false, true, false, Quietly(n)[i := Visit([], Bytes(left, left))], seq(n, _ => Leave), false)
  }

  lemma ReadAll(src: seq<byte>, d: Download, i: nat, left: nat)
    requires Valid(src, d) && d.flux.ready == 0 && i < |d.flux.conns|
    requires d.flux.conns[i].Unfinished() && d.flux.conns[i].enabled && left == d.flux.conns[i].Remaining()
    ensures var d1 := Run(src, d, VisitEvents(src, d, i, Visit([], Bytes(left, left))));
            && Valid(src, d1) && d1.flux.ready == 0 && d1.flux.bytesDone > d.flux.bytesDone
            && |d1.flux.conns| == |d.flux.conns|
  {
    var c := d.flux.conns[i];
    assert c in d.flux.conns && SocketOk(c);
    var e := At(i, Data(left, left));
    assert ThreadEvents([]) == [];
    assert VisitEvents(src, d, i, Visit([], Bytes(left, left))) == [e];
    assert Run(src, d, [e]) == Step(src, d, e);
    StepKeepsValid(src, d, e);
  }

  lemma ReadTickIsPlausible(src: seq<byte>, d: Download, i: nat)
    requires Valid(src, d) && d.flux.ready == 0 && i < |d.flux.conns|
    requires d.flux.conns[i].Unfinished() && d.flux.conns[i].enabled
    ensures Plausible(d, ReadTick(d, i))
  {
    var c := d.flux.conns[i];
    assert c in d.flux.conns && SocketOk(c);
  }

  lemma ReadTickReads(src: seq<byte>, d: Download, i: nat)
    requires Valid(src, d) && d.flux.ready == 0 && i < |d.flux.conns|
    requires d.flux.conns[i].Unfinished() && d.flux.conns[i].enabled
    ensures var d' := AfterTick(src, d, ReadTick(d, i));
            && Valid(src, d') && d'.flux.bytesDone > d.flux.bytesDone && |d'.flux.conns| == |d.flux.conns|
            && d'.flux.ready == if d'.flux.bytesDone == |src| then 1 else 0
  {
    var t, left := ReadTick(d, i), d.flux.conns[i].Remaining();
    OneVisit(src, d, t.visits, 0, i);
    ReadAll(src, d, i, left);
    var d1 := Run(src, d, VisitEvents(src, d, i, t.visits[i]));
    assert AfterDataLoop(src, d, t.visits, 0) == d1;
    ChecksOnly(src, d1, t);
  }

  /** After a data loop that went well, a call without trouble looks whether it is ready. */
  lemma ChecksOnly(src: seq<byte>, d: Download, t: Tick)
    requires Valid(src, d) && d.flux.ready == 0 && !t.sleepFails
    requires t.rechecks == seq(|d.flux.conns|, _ => Leave)
    ensures var d' := AfterChecks(src, d, t);
            && Valid(src, d') && d'.flux.bytesDone == d.flux.bytesDone && |d'.flux.conns| == |d.flux.conns|
            && d'.flux.ready == if d'.flux.bytesDone == |src| then 1 else 0
  {
    OneRecheck(src, d, t.rechecks, 0, 0);
    var d2 := AfterReconnectLoop(src, d, t.rechecks, 0);
    if d2.flux.bytesDone == d2.flux.size {
      FinishKeepsValid(src, d2);
    }
  }

  lemma FinishKeepsValid(src: seq<byte>, d: Download)
    requires Valid(src, d) && d.flux.bytesDone == d.flux.size
    ensures Valid(src, d.(flux := d.flux.(ready := 1)))
  {
    StepKeepsValid(src, d, Finish);
  }

  /** Nothing happens at all. */
  function IdleTick(d: Download): Tick {
    Tick(false, SomeoneReady(d), false, Quietly(|d.flux.conns|), seq(|d.flux.conns|, _ => Leave), false)
  }

  lemma IdleTickChecks(src: seq<byte>, d: Download)
    requires Valid(src, d) && d.flux.ready == 0 && d.flux.bytesDone == |src|
    ensures Plausible(d, IdleTick(d)) && AfterTick(src, d, IdleTick(d)).flux.ready == 1
  {
    var t := IdleTick(d);
    StillLoop(src, d, t.visits, 0);
    ChecksOnly(src, d, t);
  }

  // ----- to the end

  /** Calls that read one more range to its end, bringing its connection up first. */
  lemma {:induction false} TicksCanFetch(src: seq<byte>, d: Download, i: nat) returns (ticks: seq<Tick>)
    requires Valid(src, d) && d.flux.ready == 0 && i < |d.flux.conns| && d.flux.conns[i].Unfinished()
    ensures AllPlausible(src, d, ticks, 0) && forall t <- ticks :: ForAll(t, |d.flux.conns|)
    ensures var d' := AfterTicks(src, d, ticks, 0);
            && Valid(src, d') && d'.flux.bytesDone > d.flux.bytesDone && |d'.flux.conns| == |d.flux.conns|
            && d'.flux.ready == if d'.flux.bytesDone == |src| then 1 else 0
    decreases Distance(d.flux.conns[i])
  {
    if d.flux.conns[i].enabled {
      var t := ReadTick(d, i);
      ReadTickReads(src, d, i);
      ReadTickIsPlausible(src, d, i);
      TicksCons(src, d, t, []);
      ticks := [t] + [];
    } else {
      var t := HelpTick(d, i);
      HelpTickHelps(src, d, i);
      var rest := TicksCanFetch(src, AfterTick(src, d, t), i);
      TicksCons(src, d, t, rest);
      ticks := [t] + rest;
    }
  }

  lemma {:induction false} TicksAppend(src: seq<byte>, d: Download, a: seq<Tick>, b: seq<Tick>, k: nat)
    requires k <= |a|
    ensures AfterTicks(src, d, a + b, k) == AfterTicks(src, AfterTicks(src, d, a, k), b, 0)
    ensures AllPlausible(src, d, a, k) && AllPlausible(src, AfterTicks(src, d, a, k), b, 0) ==>
              AllPlausible(src, d, a + b, k)
    decreases |a| - k
  {
    if d.flux.ready != 0 {
    } else if k == |a| {
      TicksDrop(src, d, a, b, 0);
    } else {
      assert (a + b)[k] == a[k];
      TicksAppend(src, AfterTick(src, d, a[k]), a, b, k + 1);
    }
  }

  lemma {:induction false} TicksDrop(src: seq<byte>, d: Download, a: seq<Tick>, b: seq<Tick>, k: nat)
    requires k <= |b|
    ensures AfterTicks(src, d, a + b, |a| + k) == AfterTicks(src, d, b, k)
    ensures AllPlausible(src, d, a + b, |a| + k) <==> AllPlausible(src, d, b, k)
    decreases |b| - k
  {
    if k == |b| || d.flux.ready != 0 {
    } else {
      assert (a + b)[|a| + k] == b[k];
      TicksDrop(src, AfterTick(src, d, b[k]), a, b, k + 1);
    }
  }

  /** From every state of an unfailed download some plausible calls of flux_do complete it. */
  lemma {:induction false} TicksCanFinish(src: seq<byte>, d: Download) returns (ticks: seq<Tick>)
    requires Valid(src, d) && d.flux.ready == 0
    ensures AllPlausible(src, d, ticks, 0) && forall t <- ticks :: ForAll(t, |d.flux.conns|)
    ensures AfterTicks(src, d, ticks, 0).flux.ready == 1
    decreases |src| - d.flux.bytesDone
  {
    RemaindersNonNegative(src, d);
    if d.flux.bytesDone == |src| {
      IdleTickChecks(src, d);
      TicksCons(src, d, IdleTick(d), []);
      ticks := [IdleTick(d)] + [];
    } else {
      var i := SomeUnfinished(src, d);
      var one := TicksCanFetch(src, d, i);
      var d1 := AfterTicks(src, d, one, 0);
      if d1.flux.ready == 1 {
        ticks := one;
      } else {
        RemaindersNonNegative(src, d1);
        var rest := TicksCanFinish(src, d1);
        TicksAppend(src, d, one, rest, 0);
        ticks := one + rest;
      }
    }
  }

  // ----- from the start

  lemma StartStep(src: seq<byte>, d: Download, i: nat)
    requires Valid(src, d) && d.flux.ready == 0 && i < |d.flux.conns| && d.flux.conns[i].LockFree()
    ensures var d' := Run(src, d, StartEvents(src, d, i, Leave));
            Valid(src, d') && d'.flux.ready == 0 && |d'.flux.conns| == |d.flux.conns|
  {
    assert ThreadEvents([]) == [];
    var e := if d.flux.conns[i].Unfinished() then At(i, Launch(true, true)) else At(i, Wake);
    assert StartEvents(src, d, i, Leave) == [e];
    assert Run(src, d, [e]) == Step(src, d, e);
    StepKeepsValid(src, d, e);
  }

  lemma {:induction false} StartLoopStarts(src: seq<byte>, d: Download, rs: seq<Recheck>, i: nat)
    requires Valid(src, d) && d.flux.ready == 0 && |rs| == |d.flux.conns| && i <= |rs|
    requires rs == seq(|rs|, _ => Leave)
    requires forall j | 0 <= j < |d.flux.conns| :: d.flux.conns[j].LockFree()
    ensures var d' := AfterStartLoop(src, d, rs, i);
            Valid(src, d') && d'.flux.ready == 0 && |d'.flux.conns| == |d.flux.conns|
    decreases |rs| - i
  {
    if i == |rs| {
    } else {
      StartStep(src, d, i);
      var d1 := Run(src, d, StartEvents(src, d, i, rs[i]));
      StartStepKeepsLocks(src, d, i);
      StartLoopStarts(src, d1, rs, i + 1);
    }
  }

  lemma StartStepKeepsLocks(src: seq<byte>, d: Download, i: nat)
    requires i < |d.flux.conns| && forall j | 0 <= j < |d.flux.conns| :: d.flux.conns[j].LockFree()
    ensures var d' := Run(src, d, StartEvents(src, d, i, Leave));
            |d'.flux.conns| == |d.flux.conns| && forall j | 0 <= j < |d.flux.conns| :: d'.flux.conns[j].LockFree()
  {
    assert ThreadEvents([]) == [];
    var e := if d.flux.conns[i].Unfinished() then At(i, Launch(true, true)) else At(i, Wake);
    assert StartEvents(src, d, i, Leave) == [e];
    assert Run(src, d, [e]) == Step(src, d, e);
  }

  /** Whatever the output file held, a fresh download can be started and completed by flux_do: with these
      arguments DownloadFile ends with ready == 1. */
  lemma DownloadCanFinish(src: seq<byte>, wanted: nat, before: seq<byte>)
    returns (starts: seq<Recheck>, ticks: seq<Tick>)
    requires 1 <= |src| && 1 <= wanted <= 0xFFFF
    ensures |starts| == ConnectionCount(|src|, wanted)
    ensures forall t <- ticks :: ForAll(t, ConnectionCount(|src|, wanted))
    ensures var d := AfterStartLoop(src, FreshDownload(src, wanted, before), starts, 0);
            AllPlausible(src, d, ticks, 0) && AfterTicks(src, d, ticks, 0).flux.ready == 1
  {
    var d := FreshDownload(src, wanted, before);
    FreshIsValid(src, wanted, before);
    starts := seq(|d.flux.conns|, _ => Leave);
    StartLoopStarts(src, d, starts, 0);
    ticks := TicksCanFinish(src, AfterStartLoop(src, d, starts, 0));
  }
}
