/** When the polling loop of search_getspeeds (src/search.c) comes to an end. */
module SearchEnds {
  import opened Prelude
  import opened Sums
  import opened Search

  predicate AllComplete(passes: seq<seq<Look>>, n: nat) { forall p <- passes :: Complete(p, n) }

  // ----- without threads nothing ever happens

  lemma NoThreads(s: State, searchThreads: int)
    requires Valid(s, searchThreads) && searchThreads <= 0
    ensures s.running == 0 && forall m <- s.mirrors :: m.thread.NoThread?
  {
    TallyNonNegative(s.mirrors, Unjoined);
    forall m | m in s.mirrors
      ensures m.thread.NoThread?
    {
      var i :| 0 <= i < |s.mirrors| && s.mirrors[i] == m;
      assert Marks(s.mirrors, Unjoined)[i] in Marks(s.mirrors, Unjoined);
    }
  }

  lemma {:induction false} NobodyReports(ms: seq<Mirror>, rs: seq<Report>)
    requires forall m <- ms :: m.thread.NoThread?
    ensures Reports(ms, rs) == ms
    decreases |rs|
  {
    if rs == [] {
    } else {
      if rs[0].i < |ms| {
        assert ms[rs[0].i] in ms && ms[rs[0].i := ms[rs[0].i]] == ms;
      }
      NobodyReports(ms, rs[1..]);
    }
  }

  lemma StuckStep(s: State, searchThreads: int, i: nat, l: Look)
    requires Valid(s, searchThreads) && searchThreads <= 0 && i < |s.mirrors|
    ensures Step(s, searchThreads, i, l) == s
  {
    NoThreads(s, searchThreads);
    NobodyReports(s.mirrors, l.reports);
    var m := s.mirrors[i];
    assert m in s.mirrors && Coherent(m);
    assert AfterLook(m, s.running, searchThreads, l) == m;
    assert s.mirrors[i := m] == s.mirrors;
  }

  lemma {:induction false} StuckPass(s: State, searchThreads: int, looks: seq<Look>, i: nat)
    requires Valid(s, searchThreads) && searchThreads <= 0
    ensures AfterPass(s, searchThreads, looks, i) == s
    decreases |looks| - i
  {
    if i >= |looks| || i >= |s.mirrors| {
    } else {
      StuckStep(s, searchThreads, i, looks[i]);
      StuckPass(s, searchThreads, looks, i + 1);
    }
  }

  lemma {:induction false} StuckForever(s: State, searchThreads: int, passes: seq<seq<Look>>, p: nat)
    requires Valid(s, searchThreads) && searchThreads <= 0
    ensures AfterPasses(s, searchThreads, passes, p) == s
    decreases |passes| - p
  {
    if p >= |passes| || s.left <= 0 {
    } else {
      StuckPass(s, searchThreads, passes[p], 0);
      StuckForever(s, searchThreads, passes, p + 1);
    }
  }

  // ----- with a thread it can always be brought to an end

  function Weight(m: Mirror): int {
    if !m.thread.NoThread? then 1 else if m.speed == SPEED_PENDING then 2 else 0
  }

  function Measure(s: State): int { Tally(s.mirrors, Weight) }

  /** The time limit is over, and threads can be created. */
  const Late := Look([], 1, true, true, None)

  lemma LateLook(m: Mirror, running: int, searchThreads: int)
    requires Coherent(m)
    ensures var m' := AfterLook(m, running, searchThreads, Late);
            if !m.thread.NoThread? || (m.speed == SPEED_PENDING && running < searchThreads)
            then Weight(m') < Weight(m) else m' == m
  {
  }

  /** Such a look leaves the state alone or brings it nearer its end. */
  lemma LateStep(s: State, searchThreads: int, i: nat)
    requires Valid(s, searchThreads) && i < |s.mirrors|
    ensures var s', m := Step(s, searchThreads, i, Late), s.mirrors[i];
            && Valid(s', searchThreads)
            && (s' == s || Measure(s') < Measure(s))
            && (!m.thread.NoThread? || (m.speed == SPEED_PENDING && s.running < searchThreads) ==>
                 Measure(s') < Measure(s))
  {
    var m := s.mirrors[i];
    assert m in s.mirrors;
    StepKeepsValid(s, searchThreads, i, Late);
    LateLook(m, s.running, searchThreads);
    TallyUpdate(s.mirrors, Weight, i, AfterLook(m, s.running, searchThreads, Late));
    assert s.mirrors[i := m] == s.mirrors;
  }

  function LatePass(n: nat): (looks: seq<Look>)
    ensures Complete(looks, n)
  {
    seq(n, _ => Late)
  }

  /** A pass of such looks leaves the state alone or brings it nearer its end; it does the latter when
      the look at mirror k would, and comes at or after i. */
  lemma {:induction false} LateRest(s: State, searchThreads: int, i: nat, k: nat)
    requires Valid(s, searchThreads) && i <= |s.mirrors| && k < |s.mirrors|
    ensures var s' := AfterPass(s, searchThreads, LatePass(|s.mirrors|), i);
            && Valid(s', searchThreads) && (s' == s || Measure(s') < Measure(s))
            && (i <= k && Measure(Step(s, searchThreads, k, Late)) < Measure(s) ==> Measure(s') < Measure(s))
    decreases |s.mirrors| - i
  {
    if i == |s.mirrors| {
    } else {
      LateStep(s, searchThreads, i);
      LateRest(Step(s, searchThreads, i, Late), searchThreads, i + 1, k);
    }
  }

  /** As long as something is left, some mirror has a thread to be joined or waits for one. */
  lemma SomethingToDo(s: State, searchThreads: int) returns (k: nat)
    requires Valid(s, searchThreads) && searchThreads >= 1 && s.left > 0
    ensures k < |s.mirrors| && Measure(Step(s, searchThreads, k, Late)) < Measure(s)
  {
    if exists m <- s.mirrors :: !m.thread.NoThread? {
      var m :| m in s.mirrors && !m.thread.NoThread?;
      k :| 0 <= k < |s.mirrors| && s.mirrors[k] == m;
    } else {
      ZeroTally(s.mirrors, Unjoined);
      if forall m <- s.mirrors :: Unsettled(m) == 0 {
        ZeroTally(s.mirrors, Unsettled);
      }
      var m :| m in s.mirrors && Unsettled(m) != 0;
      k :| 0 <= k < |s.mirrors| && s.mirrors[k] == m;
    }
    LateStep(s, searchThreads, k);
  }

  lemma {:induction false} PassesShift(s: State, searchThreads: int, first: seq<Look>, rest: seq<seq<Look>>, p: nat)
    ensures AfterPasses(s, searchThreads, [first] + rest, p + 1) == AfterPasses(s, searchThreads, rest, p)
    decreases |rest| - p
  {
    if p >= |rest| || s.left <= 0 {
    } else {
      PassesShift(AfterPass(s, searchThreads, rest[p], 0), searchThreads, first, rest, p + 1);
    }
  }

  /** From every state of a test with at least one thread some passes bring `left` to 0. */
  lemma {:induction false} CanEnd(s: State, searchThreads: int) returns (passes: seq<seq<Look>>)
    requires Valid(s, searchThreads) && searchThreads >= 1
    ensures AllComplete(passes, |s.mirrors|)
    ensures AfterPasses(s, searchThreads, passes, 0).left <= 0
    decreases Measure(s)
  {
    TallyNonNegative(s.mirrors, Weight);
    if s.left <= 0 {
      passes := [];
    } else {
      var k := SomethingToDo(s, searchThreads);
      LateRest(s, searchThreads, 0, k);
      var first := LatePass(|s.mirrors|);
      var rest := CanEnd(AfterPass(s, searchThreads, first, 0), searchThreads);
      passes := [first] + rest;
      PassesShift(AfterPass(s, searchThreads, first, 0), searchThreads, first, rest, 0);
    }
  }

  /** The polling can come to an end if and only if at least one thread is allowed or no mirror waits
      for a test. */
  lemma PollingEndsIff(ms: seq<Mirror>, searchThreads: int)
    requires forall m <- ms :: Untouched(m)
    ensures (exists passes ::
               AllComplete(passes, |ms|) && AfterPasses(Opening(ms), searchThreads, passes, 0).left <= 0)
            <==> searchThreads >= 1 || forall m <- ms :: m.speed != SPEED_PENDING
  {
    var s := Opening(ms);
    OpeningIsValid(ms, searchThreads);
    if searchThreads >= 1 {
      var passes := CanEnd(s, searchThreads);
    } else {
      forall passes: seq<seq<Look>>
        ensures AfterPasses(s, searchThreads, passes, 0) == s
      {
        StuckForever(s, searchThreads, passes, 0);
      }
      LeftIffPending(ms);
      assert AllComplete([], |ms|);
    }
  }

  lemma LeftIffPending(ms: seq<Mirror>)
    requires forall m <- ms :: Untouched(m)
    ensures Opening(ms).left <= 0 <==> forall m <- ms :: m.speed != SPEED_PENDING
  {
    var begun := Opening(ms).mirrors;
    TallyNonNegative(begun, Unsettled);
    forall i | 0 <= i < |ms|
      ensures Unsettled(begun[i]) == if ms[i].speed == SPEED_PENDING then 1 else 0
      ensures Unsettled(begun[i]) <= Tally(begun, Unsettled)
    {
      assert ms[i] in ms;
      BegunCounts(ms[i]);
      assert Marks(begun, Unsettled)[i] in Marks(begun, Unsettled);
    }
    if forall m <- ms :: m.speed != SPEED_PENDING {
      forall m | m in begun
        ensures Unsettled(m) == 0
      {
        var i :| 0 <= i < |begun| && begun[i] == m;
        assert ms[i] in ms;
      }
      ZeroTally(begun, Unsettled);
    } else {
      var m :| m in ms && m.speed == SPEED_PENDING;
      var i :| 0 <= i < |ms| && ms[i] == m;
    }
  }
}
