/**
 The segment downloads of src/hls.c: worker threads claim jobs from a shared counter under a lock,
 and the temporary files are concatenated in playlist order.
 */
module HlsPool {
  import opened Prelude
  import opened Sums
  import opened FileIo

  /** Where a worker is: about to take the lock, fetching a job, about to report a failure, gone. */
  datatype Worker = AtLock | Fetching(job: nat) | Reporting | Exited

  /** `segment` is what each job has to write; `files` are the temporary files, `ok` the job flags. */
  datatype Pool = Pool(
    segment: seq<seq<byte>>,
    next: nat,
    failed: bool,
    workers: seq<Worker>,
    files: seq<Option<seq<byte>>>,
    ok: seq<bool>,
    claims: seq<nat>)

  datatype Event =
    | Take(w: nat)                                     // lock, look, claim or leave, unlock
    | Fetch(w: nat, attempt: Attempt)                  // hls_fetch_segment
    | Report(w: nat)                                   // lock, failed = 1, unlock

  /** How hls_fetch_segment goes: it ends before the temporary file is open, for want of data, key or
      file, or it writes the (decrypted) data with these calls and closes the file. */
  datatype Attempt = NoFile | Writes(calls: seq<Io>, closes: bool)

  /** What hls_fetch_segment leaves in the file, and whether it succeeds. */
  datatype Fetched = Fetched(file: Option<seq<byte>>, fine: bool)

  /** None as long as the write loop is still running. */
  function Attempted(before: Option<seq<byte>>, data: seq<byte>, a: Attempt): Option<Fetched> {
    match a
    case NoFile => Some(Fetched(before, false))
    case Writes(calls, closes) =>
      var p := WriteLoop(|data|, 0, calls, 0);
      if p.rc.Running? then None else Some(Fetched(Some(data[..p.written]), p.rc.Success? && closes))
  }

  /** A fetch that succeeds has written the whole segment, whatever its write calls did; one that
      fails leaves no more than a part. */
  lemma FineFetchIsComplete(before: Option<seq<byte>>, data: seq<byte>, a: Attempt)
    requires Attempted(before, data, a).Some?
    ensures var f := Attempted(before, data, a).value;
            && (f.fine ==> f.file == Some(data))
            && (f.file == before || (f.file.Some? && f.file.value <= data))
  {
    match a
    case NoFile =>
    case Writes(calls, closes) =>
      var p := WriteLoop(|data|, 0, calls, 0);
      assert data[..|data|] == data && data[..p.written] <= data;
  }

  function Count(p: Pool): nat { |p.segment| }

  function Step(p: Pool, e: Event): (p': Pool)
    requires |p.files| == |p.ok| == |p.segment|
    ensures p'.segment == p.segment && |p'.workers| == |p.workers|
    ensures |p'.files| == |p'.ok| == |p.segment|
  {
    if e.w >= |p.workers| then p else
    match e
    case Take(w) =>
      if !p.workers[w].AtLock? then p
      else if p.failed || p.next >= Count(p) then p.(workers := p.workers[w := Exited])
      else p.(next := p.next + 1, workers := p.workers[w := Fetching(p.next)], claims := p.claims + [p.next])
    case Fetch(w, attempt) =>
      if !p.workers[w].Fetching? || p.workers[w].job >= Count(p) then p else
      var j := p.workers[w].job;
      var f := Attempted(p.files[j], p.segment[j], attempt);
      if f.None? then p
      else if f.value.fine then
        p.(files := p.files[j := f.value.file], ok := p.ok[j := true], workers := p.workers[w := AtLock])
      else
        p.(files := p.files[j := f.value.file], workers := p.workers[w := Reporting])
    case Report(w) =>
      if !p.workers[w].Reporting? then p
      else p.(failed := true, workers := p.workers[w := Exited])
  }

  /** The pool hls_run_pool sets up; when no thread can be created the caller is the one worker. */
  function Fresh(segment: seq<seq<byte>>, started: nat): Pool {
    Pool(segment, 0, false, seq(Max(1, started), _ => AtLock),
         seq(|segment|, _ => None), seq(|segment|, _ => false), [])
  }

  predicate Written(p: Pool, j: nat)
    requires |p.files| == |p.ok| == |p.segment|
  {
    j < Count(p) && p.ok[j] && p.files[j] == Some(p.segment[j])
  }

  ghost predicate Busy(p: Pool, j: nat) {
    exists w | 0 <= w < |p.workers| :: p.workers[w] == Fetching(j)
  }

  ghost predicate Failing(p: Pool) {
    p.failed || exists w | 0 <= w < |p.workers| :: p.workers[w].Reporting?
  }

  ghost predicate Valid(p: Pool) {
    && |p.files| == |p.ok| == |p.segment| && 1 <= |p.workers|
    && p.next <= Count(p)
    && p.claims == seq(p.next, i => i)
    && (forall w | 0 <= w < |p.workers| && p.workers[w].Fetching? ::
         p.workers[w].job < p.next && !p.ok[p.workers[w].job])
    && (forall v, w | 0 <= v < w < |p.workers| && p.workers[v].Fetching? && p.workers[w].Fetching? ::
         p.workers[v].job != p.workers[w].job)
    && (forall j: nat | j < p.next :: Accounted(p, j))
    && (forall j: nat | j < Count(p) && p.ok[j] :: Written(p, j))
    && (forall j: nat | p.next <= j < Count(p) :: !p.ok[j] && p.files[j].None?)
    && (forall w | 0 <= w < |p.workers| && p.workers[w].Exited? :: p.failed || p.next == Count(p))
  }

  lemma FreshIsValid(segment: seq<seq<byte>>, started: nat)
    ensures Valid(Fresh(segment, started))
  {
  }

  /** What the three kinds of events have in common: job j < next stays accounted for. */
  ghost predicate Accounted(p: Pool, j: nat)
    requires |p.files| == |p.ok| == |p.segment|
  {
    Written(p, j) || Busy(p, j) || Failing(p)
  }

  lemma TakeKeepsValid(p: Pool, w: nat)
    requires Valid(p)
    ensures Valid(Step(p, Take(w)))
  {
    var p' := Step(p, Take(w));
    if w < |p.workers| && p.workers[w].AtLock? {
      forall j: nat | j < p'.next
        ensures Accounted(p', j)
      {
        if j < p.next {
          assert Accounted(p, j);
          OthersAccount(p, p', w, j);
        } else {
          assert p'.workers[w] == Fetching(j);
        }
      }
    }
  }

  /** A step of worker w, which is neither fetching j nor reporting, keeps j accounted for. */
  lemma OthersAccount(p: Pool, p': Pool, w: nat, j: nat)
    requires |p.files| == |p.ok| == |p.segment| && |p'.files| == |p'.ok| == |p'.segment|
    requires p'.segment == p.segment && Accounted(p, j) && |p'.workers| == |p.workers|
    requires w < |p.workers| && (p.workers[w] == Fetching(j) || p.workers[w].Reporting? ==> Accounted(p', j))
    requires forall v | 0 <= v < |p.workers| && v != w :: p'.workers[v] == p.workers[v]
    requires Written(p, j) ==> Written(p', j)
    requires p.failed ==> p'.failed
    ensures Accounted(p', j)
  {
    if Busy(p, j) {
      var v :| 0 <= v < |p.workers| && p.workers[v] == Fetching(j);
      assert v != w ==> p'.workers[v] == Fetching(j);
    } else if Failing(p) && !p.failed {
      var v :| 0 <= v < |p.workers| && p.workers[v].Reporting?;
      assert v != w ==> p'.workers[v].Reporting?;
    }
  }

  lemma FetchKeepsValid(p: Pool, w: nat, a: Attempt)
    requires Valid(p)
    ensures Valid(Step(p, Fetch(w, a)))
  {
    var p' := Step(p, Fetch(w, a));
    if p' != p {
      var k := p.workers[w].job;
      FineFetchIsComplete(p.files[k], p.segment[k], a);
      assert p'.workers[w].Reporting? || Written(p', k);
      forall j: nat | j < p'.next
        ensures Accounted(p', j)
      {
        assert Accounted(p, j);
        OthersAccount(p, p', w, j);
      }
    }
  }

  lemma ReportKeepsValid(p: Pool, w: nat)
    requires Valid(p)
    ensures Valid(Step(p, Report(w)))
  {
    var p' := Step(p, Report(w));
    forall j: nat | j < p'.next
      ensures Accounted(p', j)
    {
      assert Accounted(p, j);
      if w < |p.workers| {
        OthersAccount(p, p', w, j);
      }
    }
  }

  lemma StepKeepsValid(p: Pool, e: Event)
    requires Valid(p)
    ensures Valid(Step(p, e))
  {
    match e
    case Take(w) => TakeKeepsValid(p, w);
    case Fetch(w, a) => FetchKeepsValid(p, w, a);
    case Report(w) => ReportKeepsValid(p, w);
  }

  function Run(p: Pool, es: seq<Event>): (p': Pool)
    requires |p.files| == |p.ok| == |p.segment|
    ensures p'.segment == p.segment && |p'.workers| == |p.workers|
    ensures |p'.files| == |p'.ok| == |p.segment|
    decreases |es|
  {
    if es == [] then p else Run(Step(p, es[0]), es[1..])
  }

  lemma {:induction false} RunKeepsValid(p: Pool, es: seq<Event>)
    requires Valid(p)
    ensures Valid(Run(p, es))
    decreases |es|
  {
    if es == [] {
    } else {
      StepKeepsValid(p, es[0]);
      RunKeepsValid(Step(p, es[0]), es[1..]);
    }
  }

  predicate AllExited(p: Pool) { forall w <- p.workers :: w.Exited? }

  /** Every job index is claimed at most once, in order, under any interleaving. */
  lemma ClaimedAtMostOnce(segment: seq<seq<byte>>, started: nat, es: seq<Event>)
    ensures var p := Run(Fresh(segment, started), es);
            && |p.claims| <= |segment|
            && forall i | 0 <= i < |p.claims| :: p.claims[i] == i
  {
    FreshIsValid(segment, started);
    RunKeepsValid(Fresh(segment, started), es);
  }

  /** Once every worker is joined, hls_run_pool reports success exactly when every segment has been
      written completely. */
  lemma SuccessIffAllWritten(segment: seq<seq<byte>>, started: nat, es: seq<Event>)
    requires AllExited(Run(Fresh(segment, started), es))
    ensures var p := Run(Fresh(segment, started), es);
            && (!p.failed ==> forall j: nat | j < |segment| :: p.ok[j] && p.files[j] == Some(segment[j]))
            && (!p.failed ==> |p.claims| == |segment|)
            && (p.failed ==> exists j: nat | j < |segment| :: !p.ok[j])
  {
    var q := Fresh(segment, started);
    FreshIsValid(segment, started);
    RunKeepsValid(q, es);
    var p := Run(q, es);
    if !p.failed {
      assert p.workers[0] in p.workers;
      assert p.next == |segment|;
      forall j: nat | j < |segment|
        ensures p.ok[j] && p.files[j] == Some(segment[j])
      {
        assert Accounted(p, j);
        assert forall w | 0 <= w < |p.workers| :: p.workers[w] in p.workers;
      }
      assert |p.claims| == |segment|;
    } else {
      FailureLeavesGap(q, es);
    }
  }

  /** No fetch of the schedule goes wrong: files open, write calls do not fail, files close. */
  predicate GoesWell(e: Event) {
    e.Fetch? ==> e.attempt.Writes? && e.attempt.closes && forall c <- e.attempt.calls :: !c.Error?
  }

  /** No worker has anything to report. */
  ghost predicate Untroubled(p: Pool) { !p.failed && forall w <- p.workers :: !w.Reporting? }

  lemma StepStaysUntroubled(p: Pool, e: Event)
    requires |p.files| == |p.ok| == |p.segment| && Untroubled(p) && GoesWell(e)
    ensures Untroubled(Step(p, e))
  {
    if e.w < |p.workers| {
      assert p.workers[e.w] in p.workers;
      if e.Fetch? {
        forall size: nat, off: nat, at: nat | off <= size && at <= |e.attempt.calls|
          ensures !WriteLoop(size, off, e.attempt.calls, at).rc.Failure?
        {
          assert forall k | 0 <= k < |e.attempt.calls| :: e.attempt.calls[k] in e.attempt.calls;
        }
      }
    }
  }

  /** When every fetch goes well no failure is ever reported. */
  lemma {:induction false} GoodRunStaysUntroubled(p: Pool, es: seq<Event>)
    requires |p.files| == |p.ok| == |p.segment| && Untroubled(p) && forall e <- es :: GoesWell(e)
    ensures Untroubled(Run(p, es))
    decreases |es|
  {
    if es == [] {
    } else {
      assert es[0] in es && forall e <- es[1..] :: e in es;
      StepStaysUntroubled(p, es[0]);
      GoodRunStaysUntroubled(Step(p, es[0]), es[1..]);
    }
  }

  /** So hls_run_pool succeeds when every fetch does. */
  lemma GoodRunSucceeds(segment: seq<seq<byte>>, started: nat, es: seq<Event>)
    requires (forall e <- es :: GoesWell(e)) && AllExited(Run(Fresh(segment, started), es))
    ensures var p := Run(Fresh(segment, started), es);
            !p.failed && forall j: nat | j < |segment| :: p.ok[j] && p.files[j] == Some(segment[j])
  {
    GoodRunStaysUntroubled(Fresh(segment, started), es);
    SuccessIffAllWritten(segment, started, es);
  }

  /** A claimed job that nobody works on any more and that was not completed. */
  ghost predicate Lost(p: Pool, j: nat) {
    j < p.next && j < |p.ok| && !p.ok[j] && forall v | 0 <= v < |p.workers| :: p.workers[v] != Fetching(j)
  }

  ghost predicate Gap(p: Pool) {
    Failing(p) ==> exists j: nat :: Lost(p, j)
  }

  /** A failed job is never marked done, whatever happens later. */
  lemma LostPersists(p: Pool, e: Event, j: nat)
    requires Valid(p) && Lost(p, j)
    ensures Lost(Step(p, e), j)
  {
    var p' := Step(p, e);
    forall v | 0 <= v < |p'.workers|
      ensures p'.workers[v] != Fetching(j)
    {
      assert p.workers[v] != Fetching(j);
    }
  }

  lemma FailureLosesJob(p: Pool, w: nat, a: Attempt)
    requires Valid(p) && w < |p.workers| && p.workers[w].Fetching?
    requires var f := Attempted(p.files[p.workers[w].job], p.segment[p.workers[w].job], a); f.Some? && !f.value.fine
    ensures Lost(Step(p, Fetch(w, a)), p.workers[w].job)
  {
  }

  lemma StepKeepsGap(p: Pool, e: Event)
    requires Valid(p) && Gap(p)
    ensures Valid(Step(p, e)) && Gap(Step(p, e))
  {
    StepKeepsValid(p, e);
    if Failing(p) {
      var j: nat :| Lost(p, j);
      LostPersists(p, e, j);
    } else if Failing(Step(p, e)) {
      assert forall v | 0 <= v < |p.workers| :: !p.workers[v].Reporting?;
      assert e.Fetch? && e.w < |p.workers| && p.workers[e.w].Fetching?;
      FailureLosesJob(p, e.w, e.attempt);
    }
  }

  lemma {:induction false} RunKeepsGap(p: Pool, es: seq<Event>)
    requires Valid(p) && Gap(p)
    ensures Valid(Run(p, es)) && Gap(Run(p, es))
    decreases |es|
  {
    if es == [] {
    } else {
      StepKeepsGap(p, es[0]);
      RunKeepsGap(Step(p, es[0]), es[1..]);
    }
  }

  lemma FailureLeavesGap(p: Pool, es: seq<Event>)
    requires Valid(p) && !Failing(p)
    ensures Run(p, es).failed ==> exists j: nat | j < |p.segment| :: !Run(p, es).ok[j]
  {
    RunKeepsGap(p, es);
    var q := Run(p, es);
    if q.failed {
      assert Failing(q);
      var j: nat :| Lost(q, j);
    }
  }

  // ----- every schedule ends

  function Weight(w: Worker): nat {
    match w case AtLock => 1 case Fetching(_) => 3 case Reporting => 1 case Exited => 0
  }

  function Weights(ws: seq<Worker>): (r: seq<int>)
    ensures |r| == |ws|
  {
    seq(|ws|, i requires 0 <= i < |ws| => Weight(ws[i]))
  }

  function Measure(p: Pool): int { 3 * (Count(p) - p.next) + Sum(Weights(p.workers)) }

  /** Each effective event brings the pool nearer its end. */
  lemma StepsRunOut(p: Pool, e: Event)
    requires Valid(p)
    ensures 0 <= Measure(Step(p, e))
    ensures Step(p, e) != p ==> Measure(Step(p, e)) < Measure(p)
  {
    StepKeepsValid(p, e);
    var p' := Step(p, e);
    SumNonNegative(Weights(p'.workers));
    if e.w < |p.workers| {
      assert Weights(p'.workers) == Weights(p.workers)[e.w := Weight(p'.workers[e.w])];
      SumUpdate(Weights(p.workers), e.w, Weight(p'.workers[e.w]));
    }
  }

  /** As long as a worker is left some action has an effect. */
  lemma SomeStepHelps(p: Pool) returns (e: Event)
    requires Valid(p) && !AllExited(p)
    ensures Step(p, e) != p
  {
    var worker :| worker in p.workers && !worker.Exited?;
    var w: nat :| w < |p.workers| && p.workers[w] == worker;
    e := match worker
      case AtLock => Take(w)
      case Fetching(_) => Fetch(w, NoFile)
      case Reporting => Report(w);
    assert Step(p, e).workers[w] != p.workers[w];
  }

  /** How many actions of a schedule have an effect. */
  function Effective(p: Pool, es: seq<Event>): nat
    requires |p.files| == |p.ok| == |p.segment|
    decreases |es|
  {
    if es == [] then 0 else (if Step(p, es[0]) != p then 1 else 0) + Effective(Step(p, es[0]), es[1..])
  }

  /** No schedule has more effective actions than the measure allows, so none keeps a pool busy
      forever ... */
  lemma {:induction false} EffectiveIsBounded(p: Pool, es: seq<Event>)
    requires Valid(p)
    ensures Effective(p, es) <= Measure(p) - Measure(Run(p, es)) <= Measure(p)
    decreases |es|
  {
    SumNonNegative(Weights(p.workers));
    if es == [] {
    } else {
      StepKeepsValid(p, es[0]);
      StepsRunOut(p, es[0]);
      RunKeepsValid(p, es);
      EffectiveIsBounded(Step(p, es[0]), es[1..]);
      SumNonNegative(Weights(Run(p, es).workers));
    }
  }

  /** ... and none gets it stuck: every schedule extends to one after which all workers have exited
      and the joins return. */
  lemma {:induction false} JoinsReturn(p: Pool) returns (es: seq<Event>)
    requires Valid(p)
    ensures AllExited(Run(p, es))
    decreases Measure(p)
  {
    SumNonNegative(Weights(p.workers));
    if AllExited(p) {
      es := [];
    } else {
      var e := SomeStepHelps(p);
      StepsRunOut(p, e);
      StepKeepsValid(p, e);
      var rest := JoinsReturn(Step(p, e));
      es := [e] + rest;
      assert es[1..] == rest;
    }
  }

  lemma {:induction false} RunConcat(p: Pool, es: seq<Event>, fs: seq<Event>)
    requires |p.files| == |p.ok| == |p.segment|
    ensures Run(p, es + fs) == Run(Run(p, es), fs)
    decreases |es|
  {
    if es == [] {
      assert es + fs == fs;
    } else {
      assert (es + fs)[1..] == es[1..] + fs;
      RunConcat(Step(p, es[0]), es[1..], fs);
    }
  }

  lemma ScheduleExtends(segment: seq<seq<byte>>, started: nat, es: seq<Event>) returns (more: seq<Event>)
    ensures AllExited(Run(Fresh(segment, started), es + more))
  {
    FreshIsValid(segment, started);
    RunKeepsValid(Fresh(segment, started), es);
    more := JoinsReturn(Run(Fresh(segment, started), es));
    RunConcat(Fresh(segment, started), es, more);
  }

  // ----- hls_fetch_segment

  method FetchSegment(before: Option<seq<byte>>, data: seq<byte>, a: Attempt)
    returns (ended: bool, fine: bool, file: Option<seq<byte>>)
    ensures Attempted(before, data, a) == if ended then Some(Fetched(file, fine)) else None
  {
    if a.NoFile? {
      return true, false, before;
    }
    var out, rc, at := WriteAll([], data, a.calls, 0);
    assert out == data[..WriteLoop(|data|, 0, a.calls, 0).written];
    var werr := rc.Failure?;
    if !a.closes {
      werr := true;
    }
    ended, fine, file := !rc.Running?, !werr, Some(out);
  }

  // ----- the shared structure in place

  class SharedPool {
    const segment: seq<seq<byte>>
    var next: nat
    var failed: bool
    var workers: array<Worker>
    var files: array<Option<seq<byte>>>
    var ok: array<bool>
    var claims: seq<nat>

    ghost predicate Shaped()
      reads this
    {
      files.Length == ok.Length == |segment|
    }

    ghost function State(): (p: Pool)
      requires Shaped()
      reads this, workers, files, ok
      ensures |p.files| == |p.ok| == |p.segment|
    {
      Pool(segment, next, failed, workers[..], files[..], ok[..], claims)
    }

    constructor (segment: seq<seq<byte>>, started: nat)
      ensures Shaped() && State() == Fresh(segment, started) && this.segment == segment
      ensures fresh(workers) && fresh(files) && fresh(ok)
    {
      this.segment, next, failed, claims := segment, 0, false, [];
      workers := new Worker[Max(1, started)](_ => AtLock);
      files := new Option<seq<byte>>[|segment|](_ => None);
      ok := new bool[|segment|](_ => false);
    }

    /** One critical section or one fetch of one worker. */
    method Act(e: Event)
      requires Shaped() && Valid(State())
      modifies this`next, this`failed, this`claims, workers, files, ok
      ensures Shaped() && State() == Step(old(State()), e)
    {
      if e.w >= workers.Length {
        return;
      }
      ghost var p := State();
      match e
      case Take(w) =>
        if workers[w].AtLock? {
          if failed || next >= |segment| {
            workers[w] := Exited;
          } else {
            var idx := next;
            next := next + 1;
            claims := claims + [idx];
            workers[w] := Fetching(idx);
          }
          assert workers[..] == p.workers[w := workers[w]];
        }
      case Fetch(w, a) =>
        if workers[w].Fetching? {
          var j := workers[w].job;
          var ended, fine, file := FetchSegment(files[j], segment[j], a);
          if !ended {
            return;
          }
          files[j] := file;
          if fine {
            ok[j] := true;
            workers[w] := AtLock;
          } else {
            workers[w] := Reporting;
          }
          assert workers[..] == p.workers[w := workers[w]];
          assert files[..] == p.files[j := files[j]];
          assert ok[..] == p.ok[j := ok[j]];
        }
      case Report(w) =>
        if workers[w].Reporting? {
          failed := true;
          workers[w] := Exited;
          assert workers[..] == p.workers[w := Exited];
        }
    }
  }

  /** hls_run_pool under any schedule.  `joined` says that every worker has ended. */
  method RunPool(segment: seq<seq<byte>>, started: nat, schedule: seq<Event>)
    returns (joined: bool, rc: int, files: seq<Option<seq<byte>>>)
    ensures segment == [] ==> joined && rc == 0
    ensures segment != [] ==>
              var p := Run(Fresh(segment, started), schedule);
              joined == AllExited(p) && files == p.files && rc == if p.failed then -1 else 0
    ensures joined && (forall e <- schedule :: GoesWell(e)) ==> rc == 0
    ensures joined && rc == 0 ==> files == seq(|segment|, j requires 0 <= j < |segment| => Some(segment[j]))
  {
    if segment == [] {
      return true, 0, [];
    }
    var pool := new SharedPool(segment, started);
    FreshIsValid(segment, started);
    var k := 0;
    while k < |schedule|
      invariant 0 <= k <= |schedule| && pool.Shaped() && pool.segment == segment
      invariant fresh(pool) && fresh(pool.workers) && fresh(pool.files) && fresh(pool.ok)
      invariant Valid(pool.State())
      invariant Run(pool.State(), schedule[k..]) == Run(Fresh(segment, started), schedule)
    {
      StepKeepsValid(pool.State(), schedule[k]);
      assert schedule[k..][1..] == schedule[k + 1..];
      pool.Act(schedule[k]);
      k := k + 1;
    }
    joined := forall i | 0 <= i < pool.workers.Length :: pool.workers[i].Exited?;
    assert joined == AllExited(pool.State());
    rc := if pool.failed then -1 else 0;
    files := pool.files[..];
    if joined {
      assert AllExited(pool.State());
      SuccessIffAllWritten(segment, started, schedule);
      if forall e <- schedule :: GoesWell(e) {
        GoodRunSucceeds(segment, started, schedule);
      }
    }
  }

  // ----- concatenation

  const BUFFER := 65536

  function Concat(cs: seq<seq<byte>>): seq<byte> {
    if cs == [] then [] else Concat(cs[..|cs| - 1]) + cs[|cs| - 1]
  }

  lemma {:induction false} ConcatPrefix(cs: seq<seq<byte>>, k: nat)
    requires k <= |cs|
    ensures Concat(cs[..k]) <= Concat(cs)
    decreases |cs|
  {
    if k < |cs| {
      ConcatPrefix(cs[..|cs| - 1], k);
      assert cs[..|cs| - 1][..k] == cs[..k];
    } else {
      assert cs[..k] == cs;
    }
  }

  /** The read loop for one temporary file. */
  method CopyFile(out: seq<byte>, file: seq<byte>, calls: seq<Io>, at: nat)
    returns (out': seq<byte>, rc: Outcome, at': nat)
    requires at <= |calls|
    ensures at <= at' <= |calls|
    ensures exists n | 0 <= n <= |file| :: out' == out + file[..n]
    ensures rc.Success? ==> out' == out + file
    ensures Explained(rc, calls, at')
  {
    out', at' := out, at;
    var pos := 0;
    assert out == out + file[..0];
    while true
      invariant 0 <= pos <= |file| && at <= at' <= |calls|
      invariant out' == out + file[..pos]
      decreases |calls| - at'
    {
      if at' == |calls| {
        return out', Running, at';
      }
      var call := calls[at'];
      at' := at' + 1;
      if call.Error? {
        return out', Failure, at';
      }
      if call.Bytes? {
        if pos == |file| {
          assert file[..pos] == file;
          return out', Success, at';
        }
        var n := Min(Min(Max(1, call.n), BUFFER), |file| - pos);
        var wrote;
        ghost var at'' := at';
        out', wrote, at' := WriteAll(out', file[pos..pos + n], calls, at');
        ghost var off := WriteLoop(n, 0, calls, at'').written;
        assert file[..pos] + file[pos..pos + n][..off] == file[..pos + off];
        assert out' == out + file[..pos + off];
        if !wrote.Success? {
          return out', wrote, at';
        }
        assert file[..pos] + file[pos..pos + n] == file[..pos + n];
        pos := pos + n;
      }
    }
  }

  /** hls_concat.  Whatever the reads and writes do, the output is a prefix of the segments in
      playlist order, and on success it is all of them. */
  method ConcatFiles(files: seq<seq<byte>>, opens: seq<bool>, calls: seq<Io>, closes: bool)
    returns (out: seq<byte>, rc: Outcome, at: nat)
    requires |opens| == |files| + 1
    ensures out <= Concat(files)
    ensures rc.Success? ==> out == Concat(files)
    ensures rc.Failure? ==>
              !closes || (exists k | 0 <= k < |opens| :: !opens[k]) || exists k | 0 <= k < |calls| :: calls[k].Error?
    ensures rc.Running? ==> at == |calls|
  {
    out, at := [], 0;
    if !opens[0] {
      return [], Failure, 0;
    }
    var i := 0;
    while i < |files|
      invariant 0 <= i <= |files| && at <= |calls|
      invariant out == Concat(files[..i])
    {
      ConcatPrefix(files, i);
      if !opens[i + 1] {
        return out, Failure, at;
      }
      var copied;
      out, copied, at := CopyFile(out, files[i], calls, at);
      ConcatPrefix(files, i + 1);
      assert files[..i + 1][..i] == files[..i];
      if !copied.Success? {
        return out, copied, at;
      }
      i := i + 1;
    }
    assert files[..i] == files;
    rc := if closes then Success else Failure;
  }

  /** Pool and concatenation together: success means the output is the playlist's content. */
  method Assemble(segment: seq<seq<byte>>, started: nat, schedule: seq<Event>,
                  opens: seq<bool>, calls: seq<Io>, closes: bool)
    returns (out: seq<byte>, rc: Outcome)
    requires |opens| == |segment| + 1
    ensures rc.Success? ==> out == Concat(segment)
  {
    var at;
    var joined, pool, files := RunPool(segment, started, schedule);
    if !joined {
      return [], Running;
    }
    if pool != 0 {
      return [], Failure;
    }
    var contents := seq(|segment|, j requires 0 <= j < |segment| => files[j].value);
    assert contents == segment;
    out, rc, at := ConcatFiles(contents, opens, calls, closes);
  }
}
