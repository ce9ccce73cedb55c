/**
 The mirror speed test of src/search.c: a polling loop starts at most `searchThreads` worker
 threads, cancels those that take too long, joins each and counts the mirrors that answered; the
 list is then sorted by a comparator of its own.
 */
module Search {
  import opened Prelude
  import opened Sums

  const SPEED_ACTIVE := -3
  const SPEED_FAILED := -2
  const SPEED_DONE := -1
  const SPEED_PENDING := 0

  /** The worker of one mirror: `Working` until it has written its result, `Done` until joined. */
  datatype Thread = NoThread | Working | Done

  /** The fields of search_t the loop uses, the worker behind them, and two records of the test: what
      the worker reported before it was joined, and whether its time was over when it was. */
  datatype Mirror = Mirror(
    speed: int, startTime: int, thread: Thread, starts: nat, joins: nat, reported: Option<int>, expired: bool)

  /** A worker reports a time above zero, or that it failed. */
  datatype Report = Report(i: nat, result: int)

  predicate IsResult(speed: int) { speed > 0 || speed == SPEED_FAILED }

  /** What the environment decides while the loop looks at one mirror: which workers report first,
      the clock, whether the time limit is over, whether a thread can be created, and whether the
      worker of this very mirror still reports between the loop's look and its join. */
  datatype Look = Look(reports: seq<Report>, now: int, expired: bool, created: bool, late: Option<int>)

  predicate Possible(l: Look) {
    && l.now > 0
    && (forall r <- l.reports :: IsResult(r.result))
    && (l.late.Some? ==> IsResult(l.late.value))
  }

  /** A report takes effect if that worker is still at work. */
  function Reported(m: Mirror, result: int): Mirror {
    if m.thread.Working? then m.(speed := result, thread := Done, reported := Some(result)) else m
  }

  // ----- what the loop counts

  function Unjoined(m: Mirror): int { if m.thread.NoThread? then 0 else 1 }

  function Unsettled(m: Mirror): int { if m.speed == SPEED_PENDING || !m.thread.NoThread? then 1 else 0 }

  function Usable(m: Mirror): int { if m.speed > 0 && m.thread.NoThread? then 1 else 0 }

  function Marks(ms: seq<Mirror>, f: Mirror -> int): (r: seq<int>)
    ensures |r| == |ms|
  {
    seq(|ms|, i requires 0 <= i < |ms| => f(ms[i]))
  }

  function Tally(ms: seq<Mirror>, f: Mirror -> int): int { Sum(Marks(ms, f)) }

  lemma TallyUpdate(ms: seq<Mirror>, f: Mirror -> int, i: nat, m: Mirror)
    requires i < |ms|
    ensures Tally(ms[i := m], f) == Tally(ms, f) - f(ms[i]) + f(m)
  {
    assert Marks(ms[i := m], f) == Marks(ms, f)[i := f(m)];
    SumUpdate(Marks(ms, f), i, f(m));
  }

  lemma TallyNonNegative(ms: seq<Mirror>, f: Mirror -> int)
    requires forall m <- ms :: 0 <= f(m)
    ensures 0 <= Tally(ms, f)
    ensures forall x <- Marks(ms, f) :: 0 <= x <= Tally(ms, f)
  {
    forall x | x in Marks(ms, f)
      ensures 0 <= x
    {
      var i :| 0 <= i < |ms| && Marks(ms, f)[i] == x;
      assert ms[i] in ms;
    }
    SumNonNegative(Marks(ms, f));
  }

  /** Every started thread is joined exactly once, and none is started twice. */
  predicate Coherent(m: Mirror) {
    && m.joins + Unjoined(m) == m.starts <= 1
    && match m.thread
       case Working => m.speed == SPEED_ACTIVE && m.startTime != 0
       case Done => IsResult(m.speed) && m.startTime != 0
       case NoThread =>
         || (m.speed == SPEED_PENDING && m.starts == 0)
         || m.speed == SPEED_DONE
         || (m.speed > 0 && m.startTime == 0)
  }

  datatype State = State(mirrors: seq<Mirror>, left: int, running: int, correct: int)

  ghost predicate Valid(s: State, searchThreads: int) {
    && (forall m <- s.mirrors :: Coherent(m))
    && s.running == Tally(s.mirrors, Unjoined)
    && s.left == Tally(s.mirrors, Unsettled)
    && s.correct == Tally(s.mirrors, Usable)
    && s.running <= Max(0, searchThreads)
  }

  // ----- one look at one mirror

  /** The mirror and the change of `left`, `running` and `correct`. */
  function Joined(m: Mirror, expired: bool): Mirror {
    var j := m.(thread := NoThread, joins := m.joins + 1, expired := expired);
    if m.speed == SPEED_ACTIVE || m.speed == SPEED_FAILED then j.(speed := SPEED_DONE)
    else j.(startTime := 0)
  }

  /** Whether the loop joins this mirror's worker now. */
  predicate Reaps(m: Mirror, l: Look) {
    || (m.speed == SPEED_ACTIVE && l.expired)
    || m.speed == SPEED_FAILED
    || (m.speed > 0 && m.startTime != 0)
  }

  function AfterLook(m: Mirror, running: int, searchThreads: int, l: Look): Mirror {
    if Reaps(m, l) then Joined(if l.late.Some? then Reported(m, l.late.value) else m, l.expired)
    else if m.speed == SPEED_PENDING && running < searchThreads && l.created then
      m.(speed := SPEED_ACTIVE, startTime := l.now, thread := Working, starts := m.starts + 1)
    else if m.speed == SPEED_PENDING && running < searchThreads then m.(startTime := l.now)
    else m
  }

  function Reports(ms: seq<Mirror>, rs: seq<Report>): (r: seq<Mirror>)
    ensures |r| == |ms|
    decreases |rs|
  {
    if rs == [] then ms
    else if rs[0].i < |ms| then Reports(ms[rs[0].i := Reported(ms[rs[0].i], rs[0].result)], rs[1..])
    else Reports(ms, rs[1..])
  }

  function Step(s: State, searchThreads: int, i: nat, l: Look): (s': State)
    requires i < |s.mirrors|
    ensures |s'.mirrors| == |s.mirrors|
  {
    var ms := Reports(s.mirrors, l.reports);
    var m := ms[i];
    var m' := AfterLook(m, s.running, searchThreads, l);
    State(ms[i := m'],
          s.left - Unsettled(m) + Unsettled(m'),
          s.running - Unjoined(m) + Unjoined(m'),
          s.correct - Usable(m) + Usable(m'))
  }

  lemma {:induction false} ReportsKeep(s: State, searchThreads: int, rs: seq<Report>)
    requires Valid(s, searchThreads) && forall r <- rs :: IsResult(r.result)
    ensures Valid(s.(mirrors := Reports(s.mirrors, rs)), searchThreads)
    decreases |rs|
  {
    if rs == [] {
    } else {
      var s' := s;
      assert rs[0] in rs && forall r <- rs[1..] :: r in rs;
      if rs[0].i < |s.mirrors| {
        var m := s.mirrors[rs[0].i];
        assert m in s.mirrors;
        var m' := Reported(m, rs[0].result);
        ReplaceKeeps(s, rs[0].i, m');
        s' := s.(mirrors := s.mirrors[rs[0].i := m']);
        assert Unjoined(m') == Unjoined(m) && Unsettled(m') == Unsettled(m) && Usable(m') == Usable(m);
      }
      ReportsKeep(s', searchThreads, rs[1..]);
    }
  }

  lemma ReplaceKeeps(s: State, i: nat, m: Mirror)
    requires i < |s.mirrors| && Coherent(m) && forall n <- s.mirrors :: Coherent(n)
    ensures var ms := s.mirrors[i := m];
            && (forall n <- ms :: Coherent(n))
            && Tally(ms, Unjoined) == Tally(s.mirrors, Unjoined) - Unjoined(s.mirrors[i]) + Unjoined(m)
            && Tally(ms, Unsettled) == Tally(s.mirrors, Unsettled) - Unsettled(s.mirrors[i]) + Unsettled(m)
            && Tally(ms, Usable) == Tally(s.mirrors, Usable) - Usable(s.mirrors[i]) + Usable(m)
  {
    TallyUpdate(s.mirrors, Unjoined, i, m);
    TallyUpdate(s.mirrors, Unsettled, i, m);
    TallyUpdate(s.mirrors, Usable, i, m);
    forall n | n in s.mirrors[i := m]
      ensures Coherent(n)
    {
      assert n == m || n in s.mirrors;
    }
  }

  /** Whatever the workers do meanwhile, a look keeps the counts true and the limit respected. */
  lemma StepKeepsValid(s: State, searchThreads: int, i: nat, l: Look)
    requires i < |s.mirrors| && Valid(s, searchThreads) && Possible(l)
    ensures Valid(Step(s, searchThreads, i, l), searchThreads)
    ensures |Step(s, searchThreads, i, l).mirrors| == |s.mirrors|
  {
    ReportsKeep(s, searchThreads, l.reports);
    var ms := Reports(s.mirrors, l.reports);
    assert ms[i] in ms;
    ReplaceKeeps(s.(mirrors := ms), i, AfterLook(ms[i], s.running, searchThreads, l));
  }

  /** When nothing is left no thread is left, and every mirror has an answer. */
  lemma NothingLeft(s: State, searchThreads: int)
    requires Valid(s, searchThreads) && s.left <= 0
    ensures s.running == 0
    ensures forall m <- s.mirrors :: m.thread.NoThread? && m.starts == m.joins && (m.speed > 0 || m.speed == SPEED_DONE)
  {
    TallyNonNegative(s.mirrors, Unsettled);
    forall i | 0 <= i < |s.mirrors|
      ensures Unsettled(s.mirrors[i]) == 0
    {
      assert Marks(s.mirrors, Unsettled)[i] in Marks(s.mirrors, Unsettled);
    }
    SumMonotone(Marks(s.mirrors, Unjoined), Marks(s.mirrors, Unsettled));
    TallyNonNegative(s.mirrors, Unjoined);
    forall m | m in s.mirrors
      ensures m.thread.NoThread? && m.starts == m.joins && (m.speed > 0 || m.speed == SPEED_DONE)
    {
      var i :| 0 <= i < |s.mirrors| && s.mirrors[i] == m;
      assert Coherent(m);
    }
  }

  // ----- the loop itself

  /** A mirror at the start of the test. */
  predicate Untouched(m: Mirror) {
    && m.thread.NoThread? && m.starts == m.joins == 0 && m.reported.None?
    && (m.speed == SPEED_PENDING || m.speed == SPEED_DONE || m.speed > 0)
  }

  /** A mirror with a known speed needs no test. */
  function Begun(m: Mirror): Mirror { if m.speed == SPEED_PENDING then m else m.(startTime := 0) }

  lemma BegunCoherent(m: Mirror)
    requires Untouched(m)
    ensures Coherent(Begun(m))
  {
  }

  lemma BegunCounts(m: Mirror)
    requires Untouched(m)
    ensures Unjoined(Begun(m)) == 0
    ensures Unsettled(Begun(m)) == if m.speed == SPEED_PENDING then 1 else 0
    ensures Usable(Begun(m)) == if m.speed > 0 then 1 else 0
  {
  }

  lemma BegunAreCoherent(before: seq<Mirror>, after: seq<Mirror>)
    requires |after| == |before| && forall m <- before :: Untouched(m)
    requires forall k | 0 <= k < |before| :: after[k] == Begun(before[k])
    ensures forall m <- after :: Coherent(m)
  {
    forall m | m in after
      ensures Coherent(m)
    {
      var k :| 0 <= k < |after| && after[k] == m;
      assert before[k] in before;
      BegunCoherent(before[k]);
    }
  }

  /** The state when the polling starts. */
  function Opening(ms: seq<Mirror>): State {
    var begun := seq(|ms|, i requires 0 <= i < |ms| => Begun(ms[i]));
    State(begun, Tally(begun, Unsettled), 0, Tally(begun, Usable))
  }

  /** One look for each of n mirrors. */
  predicate Complete(looks: seq<Look>, n: nat) { |looks| == n && forall l <- looks :: Possible(l) }

  /** The rest of one pass, from mirror number i on. */
  function AfterPass(s: State, searchThreads: int, looks: seq<Look>, i: nat): (s': State)
    ensures |s'.mirrors| == |s.mirrors|
    decreases |looks| - i
  {
    if i >= |looks| || i >= |s.mirrors| then s
    else AfterPass(Step(s, searchThreads, i, looks[i]), searchThreads, looks, i + 1)
  }

  /** The passes from number p on, until nothing is left. */
  function AfterPasses(s: State, searchThreads: int, passes: seq<seq<Look>>, p: nat): (s': State)
    decreases |passes| - p
  {
    if p >= |passes| || s.left <= 0 then s
    else AfterPasses(AfterPass(s, searchThreads, passes[p], 0), searchThreads, passes, p + 1)
  }

  lemma {:induction false} ZeroTally(ms: seq<Mirror>, f: Mirror -> int)
    requires forall m <- ms :: f(m) == 0
    ensures Tally(ms, f) == 0
    decreases |ms|
  {
    if ms == [] {
    } else {
      var n := |ms| - 1;
      assert ms[n] in ms && forall m <- ms[..n] :: m in ms;
      ZeroTally(ms[..n], f);
      assert Marks(ms, f)[..n] == Marks(ms[..n], f);
    }
  }

  lemma OpeningIsValid(ms: seq<Mirror>, searchThreads: int)
    requires forall m <- ms :: Untouched(m)
    ensures Valid(Opening(ms), searchThreads)
  {
    var begun := Opening(ms).mirrors;
    BegunAreCoherent(ms, begun);
    forall m | m in begun
      ensures Unjoined(m) == 0
    {
      var i :| 0 <= i < |begun| && begun[i] == m;
      assert ms[i] in ms;
    }
    ZeroTally(begun, Unjoined);
  }

  // ----- what a mirror's answer says

  /** The speed a finished test leaves behind. */
  function Answer(reported: Option<int>): int {
    if reported.Some? && reported.value > 0 then reported.value else SPEED_DONE
  }

  /** A mirror after the test, from what it was before: a known speed is kept; otherwise the measured
      time, if the worker reported one, and a failure if it reported that or ran out of time. */
  predicate Answered(before: Mirror, m: Mirror) {
    if before.speed != SPEED_PENDING then m.speed == before.speed && m.starts == 0
    else m.starts == m.joins == 1 && m.speed == Answer(m.reported) && (m.reported.None? ==> m.expired)
  }

  /** The same read the other way round. */
  lemma AnsweredIff(before: Mirror, m: Mirror, r: int)
    requires Untouched(before) && Answered(before, m) && r > 0
    ensures m.speed == r <==> before.speed == r || (before.speed == SPEED_PENDING && m.reported == Some(r))
    ensures m.speed == SPEED_DONE <==>
              || before.speed == SPEED_DONE
              || (before.speed == SPEED_PENDING && (m.reported.None? || m.reported.value <= 0))
  {
  }

  /** A mirror during the test. */
  predicate Tracks(before: Mirror, m: Mirror) {
    if before.speed != SPEED_PENDING then m == Begun(before)
    else match m.thread
      case Working => m.starts == 1 && m.speed == SPEED_ACTIVE && m.reported.None?
      case Done => m.starts == 1 && m.reported == Some(m.speed)
      case NoThread =>
        || (m.speed == SPEED_PENDING && m.starts == 0 && m.reported.None?)
        || (m.starts == 1 && m.speed == Answer(m.reported) && (m.reported.None? ==> m.expired))
  }

  ghost predicate AllTrack(before: seq<Mirror>, ms: seq<Mirror>) {
    |ms| == |before| && forall i | 0 <= i < |ms| :: Tracks(before[i], ms[i])
  }

  lemma ReportTracks(before: Mirror, m: Mirror, result: int)
    requires Untouched(before) && Tracks(before, m)
    ensures Tracks(before, Reported(m, result))
  {
  }

  lemma LookTracks(before: Mirror, m: Mirror, running: int, searchThreads: int, l: Look)
    requires Untouched(before) && Tracks(before, m) && Coherent(m) && Possible(l)
    ensures Tracks(before, AfterLook(m, running, searchThreads, l))
  {
    if l.late.Some? {
      ReportTracks(before, m, l.late.value);
    }
  }

  lemma {:induction false} ReportsTrack(before: seq<Mirror>, ms: seq<Mirror>, rs: seq<Report>)
    requires AllTrack(before, ms) && forall m <- before :: Untouched(m)
    ensures AllTrack(before, Reports(ms, rs))
    decreases |rs|
  {
    if rs == [] {
    } else {
      var ms' := ms;
      if rs[0].i < |ms| {
        assert before[rs[0].i] in before;
        ReportTracks(before[rs[0].i], ms[rs[0].i], rs[0].result);
        ms' := ms[rs[0].i := Reported(ms[rs[0].i], rs[0].result)];
      }
      ReportsTrack(before, ms', rs[1..]);
    }
  }

  function FirstReport(rs: seq<Report>, i: nat): Option<int> {
    if rs == [] then None else if rs[0].i == i then Some(rs[0].result) else FirstReport(rs[1..], i)
  }

  /** Of the reports made before a look, the first of each worker at work counts, and it is the one on
      record. */
  lemma {:induction false} FirstReportCounts(ms: seq<Mirror>, rs: seq<Report>, i: nat)
    requires i < |ms|
    ensures var m, first := ms[i], FirstReport(rs, i);
            Reports(ms, rs)[i] ==
              if m.thread.Working? && first.Some?
              then m.(speed := first.value, thread := Done, reported := first) else m
    decreases |rs|
  {
    if rs == [] {
    } else if rs[0].i < |ms| {
      FirstReportCounts(ms[rs[0].i := Reported(ms[rs[0].i], rs[0].result)], rs[1..], i);
    } else {
      FirstReportCounts(ms, rs[1..], i);
    }
  }

  lemma StepTracks(before: seq<Mirror>, s: State, searchThreads: int, i: nat, l: Look)
    requires AllTrack(before, s.mirrors) && forall m <- before :: Untouched(m)
    requires Valid(s, searchThreads) && i < |s.mirrors| && Possible(l)
    ensures AllTrack(before, Step(s, searchThreads, i, l).mirrors)
  {
    ReportsTrack(before, s.mirrors, l.reports);
    ReportsKeep(s, searchThreads, l.reports);
    var ms := Reports(s.mirrors, l.reports);
    assert ms[i] in ms && before[i] in before;
    LookTracks(before[i], ms[i], s.running, searchThreads, l);
  }

  lemma {:induction false} PassTracks(before: seq<Mirror>, s: State, searchThreads: int, looks: seq<Look>, i: nat)
    requires AllTrack(before, s.mirrors) && forall m <- before :: Untouched(m)
    requires Valid(s, searchThreads) && Complete(looks, |s.mirrors|)
    ensures var s' := AfterPass(s, searchThreads, looks, i); AllTrack(before, s'.mirrors) && Valid(s', searchThreads)
    decreases |looks| - i
  {
    if i >= |looks| {
    } else {
      assert looks[i] in looks;
      StepTracks(before, s, searchThreads, i, looks[i]);
      StepKeepsValid(s, searchThreads, i, looks[i]);
      PassTracks(before, Step(s, searchThreads, i, looks[i]), searchThreads, looks, i + 1);
    }
  }

  lemma {:induction false} PassesTrack(before: seq<Mirror>, s: State, searchThreads: int, passes: seq<seq<Look>>,
                                       p: nat)
    requires AllTrack(before, s.mirrors) && forall m <- before :: Untouched(m)
    requires Valid(s, searchThreads) && forall looks <- passes :: Complete(looks, |before|)
    ensures var s' := AfterPasses(s, searchThreads, passes, p);
            AllTrack(before, s'.mirrors) && Valid(s', searchThreads)
    decreases |passes| - p
  {
    if p >= |passes| || s.left <= 0 {
    } else {
      assert passes[p] in passes;
      PassTracks(before, s, searchThreads, passes[p], 0);
      PassesTrack(before, AfterPass(s, searchThreads, passes[p], 0), searchThreads, passes, p + 1);
    }
  }

  /** When the passes have brought `left` to 0, every mirror's answer is what its test said. */
  lemma AnswersAreKept(before: seq<Mirror>, searchThreads: int, passes: seq<seq<Look>>)
    requires forall m <- before :: Untouched(m)
    requires forall looks <- passes :: Complete(looks, |before|)
    ensures var s := AfterPasses(Opening(before), searchThreads, passes, 0);
            s.left <= 0 ==>
              |s.mirrors| == |before| && forall i | 0 <= i < |before| :: Answered(before[i], s.mirrors[i])
  {
    var s := Opening(before);
    OpeningIsValid(before, searchThreads);
    assert AllTrack(before, s.mirrors) by {
      assert forall i | 0 <= i < |before| :: before[i] in before;
    }
    PassesTrack(before, s, searchThreads, passes, 0);
    var s' := AfterPasses(s, searchThreads, passes, 0);
    if s'.left <= 0 {
      NothingLeft(s', searchThreads);
      assert forall i | 0 <= i < |before| :: before[i] in before && s'.mirrors[i] in s'.mirrors;
    }
  }

  class SpeedTest {
    const searchThreads: int
    var results: array<Mirror>
    var left: int
    var running: int
    var correct: int

    ghost function S(): State
      reads this, results
    {
      State(results[..], left, running, correct)
    }

    constructor (searchThreads: int, results: array<Mirror>)
      ensures this.searchThreads == searchThreads && this.results == results
    {
      this.searchThreads, this.results := searchThreads, results;
      left, running, correct := 0, 0, 0;
    }

    method BeginAt(i: nat)
      requires i < results.Length && Untouched(results[i])
      modifies this`left, this`correct, results
      ensures results[..] == old(results[..])[i := Begun(old(results[i]))]
      ensures Unjoined(results[i]) == 0
      ensures left == old(left) - 1 + Unsettled(results[i]) && correct == old(correct) + Usable(results[i])
    {
      BegunCounts(results[i]);
      if results[i].speed != SPEED_PENDING {
        results[i] := results[i].(startTime := 0);
        left := left - 1;
        if results[i].speed > 0 {
          correct := correct + 1;
        }
      }
    }

    /** The first loop of search_getspeeds: mirrors with a known speed need no test. */
    method Begin()
      requires forall m <- results[..] :: Untouched(m)
      modifies this`left, this`running, this`correct, results
      ensures Valid(S(), searchThreads) && S() == Opening(old(results[..]))
    {
      left, running, correct := results.Length, 0, 0;
      ghost var before := results[..];
      var i := 0;
      while i < results.Length
        invariant 0 <= i <= results.Length && running == 0
        invariant forall k | i <= k < results.Length :: results[k] == before[k]
        invariant forall k | 0 <= k < i :: results[k] == Begun(before[k])
        invariant left == Tally(results[..i], Unsettled) + (results.Length - i)
        invariant correct == Tally(results[..i], Usable)
        invariant Tally(results[..i], Unjoined) == 0
      {
        assert before[i] in before;
        BeginAt(i);
        TallySnoc(results[..i], results[i]);
        assert results[..i + 1] == results[..i] + [results[i]];
        i := i + 1;
      }
      assert results[..i] == results[..];
      BegunAreCoherent(before, results[..]);
      assert results[..] == Opening(before).mirrors;
    }

    /** Workers that report do so on their own. */
    method LetReport(rs: seq<Report>)
      modifies results
      ensures results[..] == Reports(old(results[..]), rs)
    {
      var k := 0;
      while k < |rs|
        invariant 0 <= k <= |rs|
        invariant Reports(results[..], rs[k..]) == Reports(old(results[..]), rs)
      {
        var r := rs[k];
        ghost var ms := results[..];
        if r.i < results.Length {
          results[r.i] := Reported(results[r.i], r.result);
          assert results[..] == ms[r.i := Reported(ms[r.i], r.result)];
        }
        assert rs[k..][1..] == rs[k + 1..];
        k := k + 1;
      }
    }

    /** The bookkeeping after a worker was cancelled or has finished.  pthread_join is called on a
        thread that was started and not joined before. */
    method Reap(i: nat, late: Option<int>, expired: bool)
      requires i < results.Length && Coherent(results[i]) && !results[i].thread.NoThread?
      requires late.Some? ==> IsResult(late.value)
      modifies this`left, this`running, this`correct, results
      ensures var m := old(results[i]);
              var m' := Joined(if late.Some? then Reported(m, late.value) else m, expired);
              && results[..] == old(results[..])[i := m']
              && left == old(left) - 1 && running == old(running) - 1
              && correct == old(correct) + Usable(m')
    {
      if late.Some? {
        results[i] := Reported(results[i], late.value);
      }
      assert results[i].thread != NoThread;  // never a join without a thread
      results[i] := results[i].(thread := NoThread, joins := results[i].joins + 1, expired := expired);
      running := running - 1;
      left := left - 1;
      if results[i].speed == SPEED_ACTIVE || results[i].speed == SPEED_FAILED {
        results[i] := results[i].(speed := SPEED_DONE);
      } else {
        results[i] := results[i].(startTime := 0);
        if results[i].speed > 0 {
          correct := correct + 1;
        }
      }
    }

    /** One turn of the inner loop. */
    method LookAt(i: nat, l: Look)
      requires i < results.Length && Valid(S(), searchThreads) && Possible(l)
      modifies this`left, this`running, this`correct, results
      ensures S() == Step(old(S()), searchThreads, i, l)
    {
      ReportsKeep(S(), searchThreads, l.reports);
      LetReport(l.reports);
      ghost var ms := results[..];
      assert ms[i] in ms && Coherent(results[i]);
      var speed := results[i].speed;
      if speed == SPEED_DONE {
        return;
      }
      if speed == SPEED_PENDING {
        if running >= searchThreads {
          return;
        }
        results[i] := results[i].(speed := SPEED_ACTIVE, startTime := l.now);
        if l.created {
          results[i] := results[i].(thread := Working, starts := results[i].starts + 1);
          running := running + 1;
        } else {
          results[i] := results[i].(speed := SPEED_PENDING);
        }
        assert results[..] == ms[i := AfterLook(ms[i], old(running), searchThreads, l)];
        return;
      }
      if speed == SPEED_ACTIVE && !l.expired {
        return;
      }
      if speed > 0 && results[i].startTime == 0 {
        return;
      }
      Reap(i, l.late, l.expired);
    }

    /** One pass over all mirrors. */
    method Pass(looks: seq<Look>)
      requires Valid(S(), searchThreads) && Complete(looks, results.Length)
      modifies this`left, this`running, this`correct, results
      ensures Valid(S(), searchThreads)
      ensures S() == AfterPass(old(S()), searchThreads, looks, 0)
    {
      var i := 0;
      while i < results.Length
        invariant 0 <= i <= results.Length && Valid(S(), searchThreads)
        invariant AfterPass(S(), searchThreads, looks, i) == AfterPass(old(S()), searchThreads, looks, 0)
      {
        StepKeepsValid(S(), searchThreads, i, looks[i]);
        LookAt(i, looks[i]);
        i := i + 1;
      }
    }

    /** The outer loop. */
    method Poll(passes: seq<seq<Look>>)
      requires Valid(S(), searchThreads)
      requires forall p <- passes :: Complete(p, results.Length)
      modifies this`left, this`running, this`correct, results
      ensures Valid(S(), searchThreads)
      ensures S() == AfterPasses(old(S()), searchThreads, passes, 0)
    {
      ghost var end := AfterPasses(S(), searchThreads, passes, 0);
      var p := 0;
      while p < |passes| && left > 0
        invariant 0 <= p <= |passes| && Valid(S(), searchThreads)
        invariant AfterPasses(S(), searchThreads, passes, p) == end
      {
        ghost var s := S();
        assert passes[p] in passes;
        Pass(passes[p]);
        assert AfterPasses(s, searchThreads, passes, p) == AfterPasses(S(), searchThreads, passes, p + 1);
        p := p + 1;
      }
    }

    /** search_getspeeds.  Each pass is one turn of the outer loop; if they run out first, `ended` is
        false and nothing is claimed about the result. */
    method GetSpeeds(passes: seq<seq<Look>>) returns (ended: bool, usable: int)
      requires forall m <- results[..] :: Untouched(m)
      requires forall p <- passes :: Complete(p, results.Length)
      modifies this`left, this`running, this`correct, results
      ensures Valid(S(), searchThreads)
      ensures S() == AfterPasses(Opening(old(results[..])), searchThreads, passes, 0)
      ensures usable == correct && (ended <==> left <= 0)
      ensures ended ==>
                && running == 0
                && (forall m <- results[..] :: m.thread.NoThread? && m.starts == m.joins <= 1)
                && (forall m <- results[..] :: m.speed > 0 || m.speed == SPEED_DONE)
                && usable == PositiveCount(Speeds(results[..]))
                && forall i | 0 <= i < results.Length :: Answered(old(results[i]), results[i])
    {
      AnswersAreKept(results[..], searchThreads, passes);
      Begin();
      Poll(passes);
      ended, usable := left <= 0, correct;
      if ended {
        AllAnswered(S(), searchThreads);
      }
    }
  }

  /** What the caller relies on once nothing is left. */
  lemma AllAnswered(s: State, searchThreads: int)
    requires Valid(s, searchThreads) && s.left <= 0
    ensures s.running == 0 && s.correct == PositiveCount(Speeds(s.mirrors))
    ensures forall m <- s.mirrors :: m.thread.NoThread? && m.starts == m.joins <= 1
    ensures forall m <- s.mirrors :: m.speed > 0 || m.speed == SPEED_DONE
  {
    NothingLeft(s, searchThreads);
    TallyIsPositiveCount(s.mirrors);
  }

  lemma TallySnoc(ms: seq<Mirror>, m: Mirror)
    ensures Tally(ms + [m], Unjoined) == Tally(ms, Unjoined) + Unjoined(m)
    ensures Tally(ms + [m], Unsettled) == Tally(ms, Unsettled) + Unsettled(m)
    ensures Tally(ms + [m], Usable) == Tally(ms, Usable) + Usable(m)
  {
    assert Marks(ms + [m], Unjoined)[..|ms|] == Marks(ms, Unjoined);
    assert Marks(ms + [m], Unsettled)[..|ms|] == Marks(ms, Unsettled);
    assert Marks(ms + [m], Usable)[..|ms|] == Marks(ms, Usable);
  }

  // ----- sorting

  function Speeds(ms: seq<Mirror>): (r: seq<int>)
    ensures |r| == |ms|
  {
    seq(|ms|, i requires 0 <= i < |ms| => ms[i].speed)
  }

  function PositiveCount(xs: seq<int>): nat {
    if xs == [] then 0 else PositiveCount(xs[..|xs| - 1]) + if xs[|xs| - 1] > 0 then 1 else 0
  }

  lemma {:induction false} TallyIsPositiveCount(ms: seq<Mirror>)
    requires forall m <- ms :: m.thread.NoThread?
    ensures Tally(ms, Usable) == PositiveCount(Speeds(ms))
    decreases |ms|
  {
    if ms == [] {
    } else {
      var n := |ms| - 1;
      assert ms[n] in ms && forall m <- ms[..n] :: m in ms;
      TallyIsPositiveCount(ms[..n]);
      assert ms == ms[..n] + [ms[n]];
      TallySnoc(ms[..n], ms[n]);
      assert Speeds(ms)[..n] == Speeds(ms[..n]);
    }
  }

  /** search_sortlist_qsort on two speeds. */
  function Compare(a: int, b: int): int {
    if a < 0 && b > 0 then 1
    else if a > 0 && b < 0 then -1
    else if a < b then -1
    else if a > b then 1 else 0
  }

  ghost predicate Consistent(xs: seq<int>) {
    && (forall a <- xs, b <- xs :: Compare(a, b) == -Compare(b, a))
    && (forall a <- xs, b <- xs, c <- xs :: Compare(a, b) <= 0 && Compare(b, c) <= 0 ==> Compare(a, c) <= 0)
  }

  /** The comparator orders a list consistently, as qsort demands, unless the list mixes negative,
      zero and positive speeds. */
  lemma ComparatorConsistentIff(xs: seq<int>)
    ensures Consistent(xs) <==>
              !(exists a <- xs, b <- xs, c <- xs :: a < 0 && b == 0 && c > 0)
  {
    if exists a <- xs, b <- xs, c <- xs :: a < 0 && b == 0 && c > 0 {
      var a, b, c :| a in xs && b in xs && c in xs && a < 0 && b == 0 && c > 0;
      assert Compare(a, b) <= 0 && Compare(b, c) <= 0 && Compare(a, c) > 0;
    }
  }

  ghost predicate SortedByCompare(xs: seq<int>) {
    forall i, j | 0 <= i < j < |xs| :: Compare(xs[i], xs[j]) <= 0
  }

  lemma {:induction false} PositiveCountOfMultiset(xs: seq<int>, ys: seq<int>)
    requires multiset(xs) == multiset(ys)
    ensures PositiveCount(xs) == PositiveCount(ys)
    decreases |xs|
  {
    if xs == [] {
      assert |multiset(ys)| == 0;
    } else {
      var n := |xs| - 1;
      var x, front := xs[n], xs[..n];
      assert xs == front + [x];
      assert multiset(xs) == multiset(front) + multiset{x};
      assert x in multiset(ys);
      var a, b := CutAt(ys, x);
      WithoutOne(a, x, b);
      DropSame(multiset(front), multiset(a + b), x);
      PositiveCountOfMultiset(front, a + b);
      PositiveCountSnoc(front, x);
    }
  }

  lemma DropSame(a: multiset<int>, b: multiset<int>, x: int)
    requires a + multiset{x} == b + multiset{x}
    ensures a == b
  {
    assert forall y :: a[y] == (a + multiset{x})[y] - multiset{x}[y];
    assert forall y :: b[y] == (b + multiset{x})[y] - multiset{x}[y];
  }

  lemma CutAt(ys: seq<int>, x: int) returns (a: seq<int>, b: seq<int>)
    requires x in ys
    ensures ys == a + [x] + b
  {
    var j :| 0 <= j < |ys| && ys[j] == x;
    a, b := ys[..j], ys[j + 1..];
  }

  lemma WithoutOne(a: seq<int>, x: int, b: seq<int>)
    ensures multiset(a + [x] + b) == multiset(a + b) + multiset{x}
    ensures PositiveCount(a + [x] + b) == PositiveCount(a + b) + if x > 0 then 1 else 0
  {
    PositiveCountAppend(a + [x], b);
    PositiveCountAppend(a, b);
    PositiveCountSnoc(a, x);
  }

  lemma PositiveCountSnoc(a: seq<int>, x: int)
    ensures PositiveCount(a + [x]) == PositiveCount(a) + if x > 0 then 1 else 0
  {
    assert (a + [x])[..|a|] == a;
  }

  lemma {:induction false} PositiveCountAppend(a: seq<int>, b: seq<int>)
    ensures PositiveCount(a + b) == PositiveCount(a) + PositiveCount(b)
    decreases |b|
  {
    if b == [] {
      assert a + b == a;
    } else {
      var n := |b| - 1;
      assert (a + b)[..|a + b| - 1] == a + b[..n];
      PositiveCountAppend(a, b[..n]);
    }
  }

  lemma {:induction false} PositivesComeFirst(xs: seq<int>)
    requires SortedByCompare(xs) && forall x <- xs :: x != 0
    ensures PositiveCount(xs) <= |xs|
    ensures forall i | 0 <= i < |xs| :: xs[i] > 0 <==> i < PositiveCount(xs)
    decreases |xs|
  {
    if xs == [] {
    } else {
      var n := |xs| - 1;
      assert forall x <- xs[..n] :: x in xs;
      PositivesComeFirst(xs[..n]);
      assert xs[n] in xs;
      if xs[n] > 0 && n > 0 {
        assert Compare(xs[n - 1], xs[n]) <= 0;
        assert xs[n - 1] in xs;
      }
    }
  }

  /** After the test, any order qsort may produce puts exactly the usable mirrors first, fastest
      first. */
  lemma SortedListIsUsableFirst(tested: seq<int>, sorted: seq<int>, correct: nat)
    requires forall x <- tested :: x > 0 || x == SPEED_DONE
    requires correct == PositiveCount(tested)
    requires multiset(sorted) == multiset(tested) && SortedByCompare(sorted)
    ensures Consistent(tested)
    ensures correct <= |sorted| == |tested|
    ensures forall i | 0 <= i < |sorted| :: sorted[i] > 0 <==> i < correct
    ensures forall i, j | 0 <= i < j < correct :: sorted[i] <= sorted[j]
    ensures multiset(sorted[..correct]) == multiset(Positives(tested))
  {
    assert |multiset(sorted)| == |multiset(tested)|;
    forall x | x in sorted
      ensures x > 0 || x == SPEED_DONE
    {
      assert x in multiset(sorted) && x in multiset(tested) && x in tested;
    }
    ComparatorConsistentIff(tested);
    PositiveCountOfMultiset(sorted, tested);
    PositivesComeFirst(sorted);
    forall i, j | 0 <= i < j < correct
      ensures sorted[i] <= sorted[j]
    {
      assert Compare(sorted[i], sorted[j]) <= 0;
    }
    SamePositives(tested, sorted, correct);
  }

  lemma SamePositives(tested: seq<int>, sorted: seq<int>, correct: nat)
    requires multiset(sorted) == multiset(tested) && correct <= |sorted|
    requires forall i | 0 <= i < |sorted| :: sorted[i] > 0 <==> i < correct
    ensures multiset(sorted[..correct]) == multiset(Positives(tested))
  {
    PositivesOfMultiset(tested);
    PositivesOfMultiset(sorted);
    PositivesIsPrefix(sorted, correct);
    var p, q := Positives(sorted), Positives(tested);
    assert sorted[..correct] == p;
    assert forall x :: multiset(p)[x] == multiset(q)[x];
  }

  function Positives(xs: seq<int>): seq<int> {
    if xs == [] then [] else Positives(xs[..|xs| - 1]) + if xs[|xs| - 1] > 0 then [xs[|xs| - 1]] else []
  }

  lemma {:induction false} PositivesOfMultiset(xs: seq<int>)
    ensures forall x :: multiset(Positives(xs))[x] == if x > 0 then multiset(xs)[x] else 0
    decreases |xs|
  {
    if xs == [] {
    } else {
      var n := |xs| - 1;
      PositivesOfMultiset(xs[..n]);
      assert xs == xs[..n] + [xs[n]];
    }
  }

  lemma {:induction false} PositivesIsPrefix(xs: seq<int>, p: nat)
    requires p <= |xs| && forall i | 0 <= i < |xs| :: xs[i] > 0 <==> i < p
    ensures Positives(xs) == xs[..p]
    decreases |xs|
  {
    if xs == [] {
    } else {
      var n := |xs| - 1;
      PositivesIsPrefix(xs[..n], Min(p, n));
      assert p <= n ==> xs[..n][..p] == xs[..p];
      assert p == n + 1 ==> xs[..p] == xs[..n] + [xs[n]] && xs[..n][..n] == xs[..n];
    }
  }
}
