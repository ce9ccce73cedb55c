/**
 The imperative engine: an array of conn_t structures updated in place by the loops of
 flux_divide, reactivate_connection, flux_start and flux_do.  Every method is proved to do exactly
 what a list of FluxModel events does, so the invariants and the run theorems apply to it.

 What the environment decides during one call (which connection is readable, how many bytes arrive,
 how write() ends, which setup threads get to run in between) is a parameter.
 */
module FluxEngine {
  import opened Prelude
  import opened FluxModel
  import opened FluxInvariant
  import opened FluxDivide
  import opened FluxRuns

  // ----- what the environment decides

  datatype ThreadKind = TakesLock | Succeeds | GivesUp

  /** One atomic action of the setup thread of connection i, if it is at that point. */
  datatype ThreadStep = ThreadStep(i: nat, kind: ThreadKind)

  /** What the main thread finds on a readable or silent connection. */
  datatype Poll =
    | Quiet(expired: bool)
    | Failed
    | Bytes(n: nat, wrote: int)  // tcp_read asked for n bytes; what write() will return

  datatype Visit = Visit(threads: seq<ThreadStep>, poll: Poll)

  datatype Recheck = Recheck(threads: seq<ThreadStep>, created: bool, delayOver: bool)

  /** One call of flux_do: whether it is time to save the state, whether select waited on anything,
      whether it failed, the two loops, and whether the throttling sleep failed. */
  datatype Tick = Tick(
    saves: bool, waits: bool, fails: bool, visits: seq<Visit>, rechecks: seq<Recheck>, sleepFails: bool)

  // ----- the same call as events

  function ThreadEvent(t: ThreadStep): Event {
    At(t.i, match t.kind case TakesLock => Ask case Succeeds => SetupOk case GivesUp => SetupFail)
  }

  function ThreadEvents(ts: seq<ThreadStep>): (es: seq<Event>)
    ensures |es| == |ts|
  {
    seq(|ts|, k requires 0 <= k < |ts| => ThreadEvent(ts[k]))
  }

  /** The server cannot send more than the file holds; after its last byte a read returns 0.
      write() returns at most what it was asked to write. */
  function PollAction(src: seq<byte>, c: Conn, p: Poll): Option<Action> {
    match p
    case Quiet(expired) => if expired then Some(Timeout) else None
    case Failed => Some(ReadError)
    case Bytes(n, wrote) =>
      var n' := Min(n, |src| - c.next);
      if n' <= 0 then Some(Eof) else Some(Data(n', Max(-1, Min(wrote, Wanted(c, n')))))
  }

  function VisitEvents(src: seq<byte>, d: Download, i: nat, v: Visit): seq<Event> {
    var d1 := Run(src, d, ThreadEvents(v.threads));
    ThreadEvents(v.threads) +
    if i < |d1.flux.conns| && d1.flux.conns[i].LockFree() && d1.flux.conns[i].enabled then
      match PollAction(src, d1.flux.conns[i], v.poll)
      case None => []
      case Some(a) => [At(i, a)]
    else []
  }

  function RecheckEvents(src: seq<byte>, d: Download, i: nat, r: Recheck): seq<Event> {
    var d1 := Run(src, d, ThreadEvents(r.threads));
    ThreadEvents(r.threads) +
    if i >= |d1.flux.conns| || !d1.flux.conns[i].LockFree() then []
    else
      var c := d1.flux.conns[i];
      if c.enabled || !c.Unfinished() then []
      else if !c.state then [At(i, Launch(r.created, false))]
      else if r.delayOver then [At(i, Cancel)] else []
  }

  function StartEvents(src: seq<byte>, d: Download, i: nat, r: Recheck): seq<Event> {
    var d1 := Run(src, d, ThreadEvents(r.threads));
    ThreadEvents(r.threads) +
    if i < |d1.flux.conns| && d1.flux.conns[i].Unfinished() then [At(i, Launch(r.created, true))]
    else [At(i, Wake)]
  }

  /** The data loop of flux_do from connection i on; a failed write returns at once. */
  function AfterDataLoop(src: seq<byte>, d: Download, vs: seq<Visit>, i: nat): Download
    decreases |vs| - i
  {
    if |vs| <= i || d.flux.ready != 0 then d
    else AfterDataLoop(src, Run(src, d, VisitEvents(src, d, i, vs[i])), vs, i + 1)
  }

  function AfterReconnectLoop(src: seq<byte>, d: Download, rs: seq<Recheck>, i: nat): Download
    decreases |rs| - i
  {
    if |rs| <= i then d
    else AfterReconnectLoop(src, Run(src, d, RecheckEvents(src, d, i, rs[i])), rs, i + 1)
  }

  function AfterStartLoop(src: seq<byte>, d: Download, rs: seq<Recheck>, i: nat): Download
    decreases |rs| - i
  {
    if |rs| <= i then d
    else AfterStartLoop(src, Run(src, d, StartEvents(src, d, i, rs[i])), rs, i + 1)
  }

  /** One whole call of flux_do. */
  function AfterTick(src: seq<byte>, d: Download, t: Tick): Download {
    if t.fails then d.(flux := d.flux.(ready := -1)) else
    var d1 := if t.waits then AfterDataLoop(src, d, t.visits, 0) else d;
    if d1.flux.ready != 0 then d1 else AfterChecks(src, d1, t)
  }

  /** flux_do from conn_check on. */
  function AfterChecks(src: seq<byte>, d: Download, t: Tick): Download {
    var d2 := AfterReconnectLoop(src, d, t.rechecks, 0);
    if t.sleepFails then Step(src, d2, Abort)
    else if d2.flux.bytesDone == d2.flux.size then d2.(flux := d2.flux.(ready := 1)) else d2
  }

  /** Calls of flux_do until it is ready or the calls run out. */
  function AfterTicks(src: seq<byte>, d: Download, ticks: seq<Tick>, k: nat): Download
    decreases |ticks| - k
  {
    if |ticks| <= k || d.flux.ready != 0 then d else AfterTicks(src, AfterTick(src, d, ticks[k]), ticks, k + 1)
  }

  // ----- every call is a run of events

  lemma {:induction false} DataLoopIsRun(src: seq<byte>, d: Download, vs: seq<Visit>, i: nat)
    returns (es: seq<Event>)
    ensures AfterDataLoop(src, d, vs, i) == Run(src, d, es)
    decreases |vs| - i
  {
    if |vs| <= i || d.flux.ready != 0 {
      es := [];
    } else {
      var first := VisitEvents(src, d, i, vs[i]);
      var rest := DataLoopIsRun(src, Run(src, d, first), vs, i + 1);
      es := first + rest;
      RunConcat(src, d, first, rest);
    }
  }

  lemma {:induction false} ReconnectLoopIsRun(src: seq<byte>, d: Download, rs: seq<Recheck>, i: nat)
    returns (es: seq<Event>)
    ensures AfterReconnectLoop(src, d, rs, i) == Run(src, d, es)
    decreases |rs| - i
  {
    if |rs| <= i {
      es := [];
    } else {
      var first := RecheckEvents(src, d, i, rs[i]);
      var rest := ReconnectLoopIsRun(src, Run(src, d, first), rs, i + 1);
      es := first + rest;
      RunConcat(src, d, first, rest);
    }
  }

  lemma {:induction false} StartLoopIsRun(src: seq<byte>, d: Download, rs: seq<Recheck>, i: nat)
    returns (es: seq<Event>)
    ensures AfterStartLoop(src, d, rs, i) == Run(src, d, es)
    decreases |rs| - i
  {
    if |rs| <= i {
      es := [];
    } else {
      var first := StartEvents(src, d, i, rs[i]);
      var rest := StartLoopIsRun(src, Run(src, d, first), rs, i + 1);
      es := first + rest;
      RunConcat(src, d, first, rest);
    }
  }

  /** A call of flux_do is some run of atomic events, whatever the environment does meanwhile. */
  lemma TickIsRun(src: seq<byte>, d: Download, t: Tick) returns (es: seq<Event>)
    requires d.flux.ready == 0
    ensures AfterTick(src, d, t) == Run(src, d, es)
  {
    if t.fails {
      es := [Abort];
    } else {
      es := [];
      if t.waits {
        es := DataLoopIsRun(src, d, t.visits, 0);
      }
      var d1 := Run(src, d, es);
      if d1.flux.ready == 0 {
        var more := ReconnectLoopIsRun(src, d1, t.rechecks, 0);
        RunConcat(src, d, es, more);
        var d2 := Run(src, d1, more);
        es := es + more;
        if t.sleepFails {
          RunConcat(src, d, es, [Abort]);
          assert Run(src, d2, [Abort]) == Step(src, d2, Abort);
          es := es + [Abort];
        } else if d2.flux.bytesDone == d2.flux.size {
          RunConcat(src, d, es, [Finish]);
          assert Run(src, d2, [Finish]) == Step(src, d2, Finish);
          es := es + [Finish];
        }
      }
    }
  }

  lemma RunSnoc(src: seq<byte>, d: Download, es: seq<Event>, k: nat)
    requires k < |es|
    ensures Run(src, d, es[..k + 1]) == Step(src, Run(src, d, es[..k]), es[k])
  {
    assert es[..k + 1] == es[..k] + [es[k]];
    RunConcat(src, d, es[..k], [es[k]]);
  }

  /** The state after n bytes have been read on connection i and write() has returned `wrote`. */
  function AfterData(src: seq<byte>, d: Download, i: nat, n: nat, wrote: int): Download
    requires i < |d.flux.conns| && 0 <= d.flux.conns[i].currentbyte
    requires wrote > 0 ==> 0 <= d.flux.conns[i].next <= d.flux.conns[i].next + wrote <= |src|
  {
    var c := d.flux.conns[i];
    var cs := d.flux.conns[i := Touched(c, Data(n, wrote))];
    var fine := wrote == Wanted(c, n);
    Download(
      Flux(d.flux.size,
           if fine && wrote == c.Remaining() then Reactivate(cs, i) else cs,
           if fine then d.flux.bytesDone + wrote else d.flux.bytesDone,
           if fine then d.flux.ready else -1),
      if wrote > 0 then WriteAt(d.file, c.currentbyte, src[c.next..c.next + wrote]) else d.file)
  }

  /** A Data event spelled out. */
  lemma StepData(src: seq<byte>, d: Download, i: nat, n: nat, wrote: int)
    requires Enabled(src, d.flux, At(i, Data(n, wrote))) && 0 <= d.flux.conns[i].currentbyte
    requires 0 <= d.flux.conns[i].Remaining()
    ensures Step(src, d, At(i, Data(n, wrote))) == AfterData(src, d, i, n, wrote)
  {
  }

  lemma Overwrite<T>(s: seq<T>, i: nat, x: T, y: T)
    requires i < |s|
    ensures s[i := x][i := y] == s[i := y]
  {
  }

  /** What clamping leaves to do on the connection: advance, if all was written. */
  lemma TouchedByData(c: Conn, n: nat, wrote: int)
    ensures var clamped := c.(next := c.next + n, enabled := c.enabled && n <= c.Remaining());
            Touched(c, Data(n, wrote)) ==
              if wrote == Wanted(c, n) then clamped.(currentbyte := c.currentbyte + wrote) else clamped
  {
  }

  class Engine {
    const src: seq<byte>  // what the server holds
    var size: int
    var conn: array<Conn>
    var numConnections: nat
    var bytesDone: int
    var ready: int
    var file: seq<byte>
    var stateFile: Option<Saved>

    ghost predicate Shaped()
      reads this
    {
      1 <= numConnections <= conn.Length && size == |src|
    }

    ghost function State(): Download
      requires Shaped()
      reads this, conn
    {
      Download(Flux(size, conn[..numConnections], bytesDone, ready), file)
    }

    /** The running process and what outlives it. */
    ghost function InWorld(): World
      requires Shaped()
      reads this, conn
    {
      World(file, stateFile, Some(State().flux))
    }

    /** A process before flux_open: calloc'ed connections, as many as configured. */
    constructor (src: seq<byte>, wanted: nat, before: seq<byte>)
      requires 1 <= |src| && 1 <= wanted <= 0xFFFF
      ensures Shaped() && this.src == src && numConnections == wanted && file == before
      ensures fresh(conn) && conn.Length == wanted && bytesDone == 0 && ready == 0
      ensures forall i | 0 <= i < wanted :: conn[i] == FreshConn(0, 0)
    {
      this.src, size, numConnections, file := src, |src|, wanted, before;
      bytesDone, ready, stateFile := 0, 0, None;
      conn := new Conn[wanted](_ => FreshConn(0, 0));
    }

    /** flux_divide. */
    method Divide()
      requires Shaped() && 1 <= size && numConnections <= 0xFFFF
      requires forall i | 0 <= i < numConnections :: conn[i] == FreshConn(conn[i].currentbyte, conn[i].lastbyte)
      modifies this`numConnections, conn
      ensures Shaped()
      ensures numConnections == ConnectionCount(size, old(numConnections))
      ensures conn[..numConnections] == FluxModel.Divide(size, old(numConnections))
    {
      var maxconns := Max(1, size / MIN_CHUNK_WORTH);
      if maxconns < numConnections {
        numConnections := maxconns;
      }
      var segLen := size / numConnections;
      if numConnections > 1 {
        SegmentsAreWorthIt(size, numConnections);
      }
      CutEqual(segLen);
      var tail := size % segLen;
      var last := numConnections - 1;
      conn[last] := conn[last].(lastbyte := conn[last].lastbyte + tail);
      assert conn[..numConnections] == Cut(size, numConnections);
    }

    /** The loop of flux_divide: equal segments. */
    method CutEqual(segLen: int)
      requires Shaped()
      requires forall i | 0 <= i < numConnections :: conn[i] == FreshConn(conn[i].currentbyte, conn[i].lastbyte)
      modifies conn
      ensures forall k | 0 <= k < numConnections :: conn[k] == FreshConn(segLen * k, segLen * k + segLen)
    {
      var i := 0;
      while i < numConnections
        invariant 0 <= i <= numConnections
        invariant forall k | 0 <= k < i :: conn[k] == FreshConn(segLen * k, segLen * k + segLen)
        invariant forall k | i <= k < numConnections :: conn[k] == FreshConn(conn[k].currentbyte, conn[k].lastbyte)
      {
        conn[i] := conn[i].(currentbyte := segLen * i, lastbyte := segLen * i + segLen);
        i := i + 1;
      }
    }

    /** reactivate_connection. */
    method ReactivateConnection(thread: nat)
      requires Shaped() && thread < numConnections
      modifies conn
      ensures conn[..numConnections] == Reactivate(old(conn[..numConnections]), thread)
    {
      ghost var cs := conn[..numConnections];
      if conn[thread].enabled || conn[thread].currentbyte < conn[thread].lastbyte {
        return;
      }
      var idx, maxRemaining := FindVictim();
      if idx == -1 {
        return;
      }
      VictimIsFirstLargest(cs, |cs|);
      assert thread != idx;
      conn[thread] := conn[thread].(lastbyte := conn[idx].lastbyte);
      conn[idx] := conn[idx].(lastbyte := conn[idx].currentbyte + maxRemaining / 2);
      conn[thread] := conn[thread].(currentbyte := conn[idx].lastbyte);
      assert conn[..numConnections] == Steal(cs, thread, idx);
    }

    /** The scan of reactivate_connection for the largest remaining range. */
    method FindVictim() returns (idx: int, maxRemaining: int)
      requires Shaped()
      ensures Victim(conn[..numConnections], numConnections) == if idx < 0 then None else Some(idx)
      ensures -1 <= idx < numConnections && (idx >= 0 ==> maxRemaining == conn[idx].Remaining())
    {
      ghost var cs := conn[..numConnections];
      maxRemaining := MIN_CHUNK_WORTH - 1;
      idx := -1;
      var j := 0;
      while j < numConnections
        invariant 0 <= j <= numConnections
        invariant -1 <= idx < j
        invariant Victim(cs, j) == if idx == -1 then None else Some(idx)
        invariant maxRemaining == if idx == -1 then MIN_CHUNK_WORTH - 1 else cs[idx].Remaining()
      {
        var remaining := conn[j].lastbyte - conn[j].currentbyte;
        if remaining > maxRemaining {
          maxRemaining := remaining;
          idx := j;
        }
        j := j + 1;
      }
    }

    /** What setup threads do to the connection flags between two actions of the main thread. */
    method RunThreads(ts: seq<ThreadStep>)
      requires Shaped()
      modifies conn
      ensures State() == Run(src, old(State()), ThreadEvents(ts))
    {
      ghost var es := ThreadEvents(ts);
      ghost var d0 := State();
      for k := 0 to |ts|
        invariant State() == Run(src, d0, es[..k])
      {
        ghost var d := State();
        RunSnoc(src, d0, es, k);
        var i := ts[k].i;
        if i < numConnections {
          var c := conn[i];
          match ts[k].kind
          case TakesLock =>
            if c.setup.Launched? { conn[i] := c.(setup := Asking(c.currentbyte)); }
          case Succeeds =>
            if c.setup.Asking? {
              conn[i] := c.(next := c.setup.from, enabled := true, state := false, setup := Idle);
            }
          case GivesUp =>
            if c.setup.Asking? { conn[i] := c.(enabled := false, state := false, setup := Idle); }
        }
        assert conn[..numConnections] == Step(src, d, es[k]).flux.conns;
      }
      assert es[..|ts|] == es;
    }

    /** conn_disconnect, as far as the engine sees it. */
    method Disconnect(i: nat)
      requires Shaped() && i < numConnections
      modifies conn
      ensures conn[..numConnections] == old(conn[..numConnections])[i := old(conn[i]).(enabled := false)]
    {
      conn[i] := conn[i].(enabled := false);
    }

    /** tcp_read: the next bytes the server sends. */
    method Read(i: nat, n: nat) returns (buffer: seq<byte>)
      requires Shaped() && i < numConnections
      requires 0 <= conn[i].next <= conn[i].next + n <= |src|
      modifies conn
      ensures buffer == src[old(conn[i]).next..old(conn[i]).next + n]
      ensures conn[..numConnections] == old(conn[..numConnections])[i := old(conn[i]).(next := old(conn[i]).next + n)]
    {
      buffer := src[conn[i].next..conn[i].next + n];
      conn[i] := conn[i].(next := conn[i].next + n);
    }

    /** tcp_read and the clamp of what belongs to the next range. */
    method ReadAndClamp(i: nat, n: nat) returns (buffer: seq<byte>, size: int, remaining: int)
      requires Shaped() && i < numConnections
      requires 0 <= conn[i].next <= conn[i].next + n <= |src|
      modifies conn
      ensures var c := old(conn[i]);
              && buffer == src[c.next..c.next + n]
              && size == Wanted(c, n) && remaining == c.Remaining()
              && conn[..numConnections] ==
                   old(conn[..numConnections])[i := c.(next := c.next + n, enabled := c.enabled && n <= c.Remaining())]
    {
      buffer := Read(i, n);
      size := n;
      remaining := conn[i].lastbyte - conn[i].currentbyte;
      if remaining < size {
        Disconnect(i);
        size := remaining;
      }
    }

    /** The rest of the data loop's body: write, advance, maybe steal.  write() returns `nwrite`. */
    method Receive(i: nat, n: nat, nwrite: int)
      requires Shaped() && ready == 0 && i < numConnections
      requires 0 <= conn[i].currentbyte <= conn[i].lastbyte
      requires 0 <= conn[i].next <= conn[i].next + n <= |src| && -1 <= nwrite <= Wanted(conn[i], n)
      modifies this`bytesDone, this`ready, this`file, conn
      ensures var c := old(conn[i]);
              var cs := old(conn[..numConnections])[i := Touched(c, Data(n, nwrite))];
              if nwrite == Wanted(c, n) then
                && conn[..numConnections] == (if nwrite == c.Remaining() then Reactivate(cs, i) else cs)
                && bytesDone == old(bytesDone) + nwrite && ready == 0
              else
                conn[..numConnections] == cs && bytesDone == old(bytesDone) && ready == -1
      ensures var c := old(conn[i]);
              file == if nwrite > 0 then WriteAt(old(file), c.currentbyte, src[c.next..c.next + nwrite])
                      else old(file)
    {
      ghost var c, cs := conn[i], conn[..numConnections];
      TouchedByData(c, n, nwrite);
      var buffer, size, remaining := ReadAndClamp(i, n);
      assert nwrite > 0 ==> buffer[..nwrite] == src[c.next..c.next + nwrite];
      WriteOut(i, buffer, nwrite);
      assert conn[i] == conn[..numConnections][i];
      Settle(i, size, remaining, nwrite, cs, Touched(c, Data(n, nwrite)));
    }

    /** What follows the write: an error, or progress, which makes the connection c'. */
    method Settle(i: nat, size: int, remaining: int, nwrite: int, ghost cs: seq<Conn>, ghost c': Conn)
      requires Shaped() && ready == 0 && i < numConnections == |cs|
      requires conn[..numConnections] == cs[i := conn[i]]
      requires c' == if nwrite == size then conn[i].(currentbyte := conn[i].currentbyte + size) else conn[i]
      modifies this`bytesDone, this`ready, conn
      ensures if nwrite == size then
                && conn[..numConnections] == (if remaining == size then Reactivate(cs[i := c'], i) else cs[i := c'])
                && bytesDone == old(bytesDone) + size && ready == 0
              else
                conn[..numConnections] == cs[i := c'] && bytesDone == old(bytesDone) && ready == -1
    {
      if nwrite != size {
        ready := -1;
      } else {
        Overwrite(cs, i, conn[i], c');
        AdvanceAndSteal(i, size, remaining);
      }
    }

    /** What follows a complete write. */
    method AdvanceAndSteal(i: nat, size: int, remaining: int)
      requires Shaped() && i < numConnections
      modifies this`bytesDone, conn
      ensures bytesDone == old(bytesDone) + size
      ensures var c := old(conn[i]).(currentbyte := old(conn[i]).currentbyte + size);
              var cs := old(conn[..numConnections])[i := c];
              conn[..numConnections] == if remaining == size then Reactivate(cs, i) else cs
    {
      Advance(i, size);
      if remaining == size {
        ReactivateConnection(i);
      }
    }

    /** pwrite at the connection's offset; the bytes are those the server sent from its position. */
    method WriteOut(i: nat, buffer: seq<byte>, nwrite: int)
      requires Shaped() && i < numConnections && nwrite <= |buffer|
      requires 0 <= conn[i].currentbyte
      modifies this`file
      ensures file == if nwrite > 0 then WriteAt(old(file), conn[i].currentbyte, buffer[..nwrite]) else old(file)
    {
      if nwrite > 0 {
        file := WriteAt(file, conn[i].currentbyte, buffer[..nwrite]);
      }
    }

    method Advance(i: nat, size: int)
      requires Shaped() && i < numConnections
      modifies this`bytesDone, conn
      ensures conn[..numConnections] ==
                old(conn[..numConnections])[i := old(conn[i]).(currentbyte := old(conn[i]).currentbyte + size)]
      ensures bytesDone == old(bytesDone) + size
    {
      conn[i] := conn[i].(currentbyte := conn[i].currentbyte + size);
      bytesDone := bytesDone + size;
    }

    method HandleBytes(i: nat, n: nat, nwrite: int)
      requires Shaped() && ready == 0 && i < numConnections && conn[i].LockFree() && conn[i].enabled
      requires 0 <= conn[i].currentbyte <= conn[i].lastbyte
      requires 0 <= conn[i].next && 1 <= n && conn[i].next + n <= |src| && -1 <= nwrite <= Wanted(conn[i], n)
      modifies this`bytesDone, this`ready, this`file, conn
      ensures State() == Step(src, old(State()), At(i, Data(n, nwrite)))
    {
      ghost var d := State();
      StepData(src, d, i, n, nwrite);
      Receive(i, n, nwrite);
      if nwrite == Wanted(d.flux.conns[i], n) {
        assert State().flux == AfterData(src, d, i, n, nwrite).flux;
      } else {
        assert State().flux == AfterData(src, d, i, n, nwrite).flux;
      }
      assert State() == AfterData(src, d, i, n, nwrite);
    }

    /** End of file: disconnect, then look for work to steal. */
    method HandleEof(i: nat)
      requires Shaped() && ready == 0 && i < numConnections && conn[i].LockFree() && conn[i].enabled
      modifies conn
      ensures State() == Step(src, old(State()), At(i, Eof))
    {
      Disconnect(i);
      ReactivateConnection(i);
    }

    /** One iteration of the data loop of flux_do, lock held, for an enabled connection. */
    method HandleRead(i: nat, p: Poll)
      requires Shaped() && ready == 0 && i < numConnections && conn[i].LockFree() && conn[i].enabled
      requires 0 <= conn[i].currentbyte <= conn[i].lastbyte && 0 <= conn[i].next
      modifies this`bytesDone, this`ready, this`file, conn
      ensures var a := PollAction(src, old(conn[i]), p);
              State() == if a.None? then old(State()) else Step(src, old(State()), At(i, a.value))
    {
      match p
      case Quiet(expired) =>
        if expired {
          Disconnect(i);
        }
      case Failed =>
        Disconnect(i);
      case Bytes(asked, written) =>
        HandleAsked(i, asked, written);
    }

    /** tcp_read asked for some bytes: the end of the data, or bytes. */
    method HandleAsked(i: nat, asked: nat, written: int)
      requires Shaped() && ready == 0 && i < numConnections && conn[i].LockFree() && conn[i].enabled
      requires 0 <= conn[i].currentbyte <= conn[i].lastbyte && 0 <= conn[i].next
      modifies this`bytesDone, this`ready, this`file, conn
      ensures var a := PollAction(src, old(conn[i]), Bytes(asked, written));
              a.Some? && State() == Step(src, old(State()), At(i, a.value))
    {
      var size := Min(asked, |src| - conn[i].next);
      if size <= 0 {
        HandleEof(i);
      } else {
        HandleBytes(i, size, Max(-1, Min(written, Wanted(conn[i], size))));
      }
    }

    method VisitConnection(i: nat, v: Visit)
      requires Shaped() && Valid(src, State()) && ready == 0 && i < numConnections
      modifies this`bytesDone, this`ready, this`file, conn
      ensures Shaped() && Valid(src, State())
      ensures State() == Run(src, old(State()), VisitEvents(src, old(State()), i, v))
    {
      ghost var d := State();
      ghost var te := ThreadEvents(v.threads);
      ghost var es := VisitEvents(src, d, i, v);
      assert es == te + es[|te|..];
      RunConcat(src, d, te, es[|te|..]);
      RunKeepsValid(src, d, te);
      RunKeepsValid(src, d, es);
      ThreadsKeepReady(src, d, v.threads);
      RunThreads(v.threads);
      if conn[i].LockFree() && conn[i].enabled {
        assert conn[i] in State().flux.conns && SocketOk(conn[i]);
        ghost var d1 := State();
        ghost var a := PollAction(src, conn[i], v.poll);
        HandleRead(i, v.poll);
        assert es[|te|..] == if a.None? then [] else [At(i, a.value)];
      }
    }

    /** One iteration of the loop at conn_check: setup threads run, then the main thread looks. */
    method CheckConnection(i: nat, r: Recheck)
      requires Shaped() && i < numConnections
      modifies this`ready, conn
      ensures Shaped()
      ensures State() == Run(src, old(State()), RecheckEvents(src, old(State()), i, r))
      ensures ready == old(ready) || ready == -1
    {
      ghost var d := State();
      ghost var te := ThreadEvents(r.threads);
      ghost var es := RecheckEvents(src, d, i, r);
      assert es == te + es[|te|..];
      RunConcat(src, d, te, es[|te|..]);
      RunThreads(r.threads);
      ghost var cs := conn[..numConnections];
      if conn[i].LockFree() && !conn[i].enabled && conn[i].currentbyte < conn[i].lastbyte {
        if !conn[i].state {
          conn[i] := conn[i].(state := true);
          if r.created {
            conn[i] := conn[i].(setup := Launched);
          } else {
            conn[i] := conn[i].(setup := Idle);
            ready := -1;
          }
          assert es[|te|..] == [At(i, Launch(r.created, false))];
        } else if r.delayOver {
          conn[i] := conn[i].(state := false, setup := Idle);
          assert es[|te|..] == [At(i, Cancel)];
        }
      }
      assert conn[..numConnections] == cs[i := conn[i]];
    }

    /** One turn of that loop. */
    method VisitNext(i: nat, vs: seq<Visit>)
      requires Shaped() && Valid(src, State()) && ready == 0 && i < |vs| == numConnections
      modifies this`bytesDone, this`ready, this`file, conn
      ensures Shaped() && Valid(src, State())
      ensures AfterDataLoop(src, State(), vs, i + 1) == AfterDataLoop(src, old(State()), vs, i)
    {
      VisitConnection(i, vs[i]);
    }

    method DataLoop(vs: seq<Visit>)
      requires Shaped() && Valid(src, State()) && ready == 0
      requires |vs| == numConnections
      modifies this`bytesDone, this`ready, this`file, conn
      ensures Shaped() && Valid(src, State())
      ensures State() == AfterDataLoop(src, old(State()), vs, 0)
    {
      ghost var end := AfterDataLoop(src, State(), vs, 0);
      var i := 0;
      while i < numConnections
        invariant Shaped() && 0 <= i <= numConnections
        invariant Valid(src, State()) && ready == 0
        invariant AfterDataLoop(src, State(), vs, i) == end
      {
        VisitNext(i, vs);
        i := i + 1;
        if ready != 0 {
          return;
        }
      }
    }

    method ReconnectLoop(rs: seq<Recheck>)
      requires Shaped() && |rs| == numConnections
      modifies this`ready, conn
      ensures Shaped() && (ready == old(ready) || ready == -1)
      ensures State() == AfterReconnectLoop(src, old(State()), rs, 0)
    {
      ghost var d0 := State();
      var i := 0;
      while i < numConnections
        invariant Shaped() && 0 <= i <= numConnections && (ready == old(ready) || ready == -1)
        invariant AfterReconnectLoop(src, State(), rs, i) == AfterReconnectLoop(src, d0, rs, 0)
      {
        CheckConnection(i, rs[i]);
        i := i + 1;
      }
    }

    /** flux_do. */
    method Do(t: Tick)
      requires Shaped() && Valid(src, State()) && ready == 0
      requires |t.visits| == |t.rechecks| == numConnections
      modifies this`bytesDone, this`ready, this`file, this`stateFile, conn
      ensures Shaped() && Valid(src, State())
      ensures State() == AfterTick(src, old(State()), t)
      ensures stateFile == if t.saves then Some(Snapshot(old(State()).flux)) else old(stateFile)
    {
      if t.saves {
        var saved := SaveState();
        stateFile := Some(saved);
      }
      ghost var d := State();
      ghost var es := TickIsRun(src, d, t);
      RunKeepsValid(src, d, es);
      if t.fails {
        ready := -1;
        return;
      }
      if t.waits {
        DataLoop(t.visits);
        if ready != 0 {
          return;
        }
      }
      Checks(t);
    }

    /** The part of flux_do from conn_check on. */
    method Checks(t: Tick)
      requires Shaped() && ready == 0 && |t.rechecks| == numConnections
      modifies this`ready, conn
      ensures Shaped() && State() == AfterChecks(src, old(State()), t)
    {
      ReconnectLoop(t.rechecks);
      if t.sleepFails {
        ready := -1;
        return;
      }
      if bytesDone == size {
        ready := 1;
      }
    }

    /** The body of the second loop of flux_start. */
    method StartOrWake(i: nat, created: bool)
      requires Shaped() && i < numConnections && ready == 0
      requires forall k | i <= k < numConnections :: IsFresh(conn[k])
      modifies conn
      ensures State() == Step(src, old(State()),
                              At(i, if old(conn[i]).Unfinished() then Launch(created, true) else Wake))
      ensures forall k | i + 1 <= k < numConnections :: IsFresh(conn[k])
    {
      ghost var cs := conn[..numConnections];
      assert forall k | i <= k < numConnections :: conn[k] == cs[k];
      if conn[i].currentbyte >= conn[i].lastbyte {
        ReactivateConnection(i);
        ReactivateKeepsFresh(cs, i);
        assert cs[i := cs[i]] == cs;
        assert forall k | i + 1 <= k < numConnections :: conn[k] == conn[..numConnections][k];
      } else {
        conn[i] := conn[i].(state := true);
        conn[i] := conn[i].(setup := if created then Launched else Idle);
        assert conn[..numConnections] == cs[i := conn[i]];
      }
    }

    /** One iteration of that loop, setup threads running first. */
    method StartConnection(i: nat, r: Recheck)
      requires Shaped() && i < numConnections && ready == 0
      requires forall k | i <= k < numConnections :: IsFresh(conn[k])
      modifies conn
      ensures Shaped()
      ensures State() == Run(src, old(State()), StartEvents(src, old(State()), i, r))
      ensures forall k | i + 1 <= k < numConnections :: IsFresh(conn[k])
    {
      ghost var d := State();
      ghost var te := ThreadEvents(r.threads);
      ghost var es := StartEvents(src, d, i, r);
      assert es == te + es[|te|..];
      RunConcat(src, d, te, es[|te|..]);
      assert forall k | i <= k < numConnections :: d.flux.conns[k] == conn[k];
      RunKeepsFresh(src, d, r.threads, i);
      RunThreads(r.threads);
      assert forall k | i <= k < numConnections :: conn[k] == conn[..numConnections][k];
      StartOrWake(i, r.created);
    }

    /** flux_start, on connections none of which has a setup thread yet. */
    method Start(rs: seq<Recheck>)
      requires Shaped() && |rs| == numConnections && ready == 0
      requires forall i | 0 <= i < numConnections :: IsFresh(conn[i])
      modifies this`ready, conn
      ensures Shaped() && ready == 0
      ensures State() == AfterStartLoop(src, old(State()), rs, 0)
    {
      ghost var d0 := State();
      var i := 0;
      while i < numConnections
        invariant Shaped() && 0 <= i <= numConnections && ready == 0
        invariant forall k | i <= k < numConnections :: IsFresh(conn[k])
        invariant AfterStartLoop(src, State(), rs, i) == AfterStartLoop(src, d0, rs, 0)
      {
        StartConnection(i, rs[i]);
        i := i + 1;
      }
      ready := 0;
    }

    /** save_state. */
    method SaveState() returns (saved: Saved)
      requires Shaped()
      ensures saved == Snapshot(State().flux)
    {
      var ranges: seq<(int, int)> := [];
      var i := 0;
      while i < numConnections
        invariant 0 <= i <= numConnections && |ranges| == i
        invariant forall k | 0 <= k < i :: ranges[k] == (conn[k].currentbyte, conn[k].lastbyte)
      {
        ranges := ranges + [(conn[i].currentbyte, conn[i].lastbyte)];
        i := i + 1;
      }
      saved := Saved(bytesDone, ranges);
    }

    /** flux_close: the state file goes when the download is complete, else it is written if there is
        anything to resume. */
    method Close()
      requires Shaped() && 1 <= size
      modifies this`stateFile
      ensures World(file, stateFile, None) == Next(src, old(InWorld()), FluxRuns.Close)
    {
      if ready == 1 {
        stateFile := None;
      } else if bytesDone > 0 {
        var saved := SaveState();
        stateFile := Some(saved);
      }
    }

    /** The resume branch of flux_open: an array of the stored length, all flags cleared. */
    method Resume(saved: Saved)
      requires size == |src| && 1 <= |saved.ranges|
      modifies this`conn, this`numConnections, this`bytesDone, this`ready
      ensures Shaped() && fresh(conn)
      ensures State() == Download(Restore(size, saved), old(file))
      ensures forall i | 0 <= i < numConnections :: IsFresh(conn[i])
    {
      numConnections := |saved.ranges|;
      conn := new Conn[numConnections](_ => FreshConn(0, 0));
      bytesDone := saved.bytesDone;
      ready := 0;
      var i := 0;
      while i < numConnections
        invariant Shaped() && 0 <= i <= numConnections && conn.Length == numConnections
        invariant numConnections == |saved.ranges| && fresh(conn)
        invariant bytesDone == saved.bytesDone && ready == 0 && file == old(file)
        invariant forall k | 0 <= k < i :: conn[k] == FreshConn(saved.ranges[k].0, saved.ranges[k].1)
        invariant forall k | i <= k < numConnections :: conn[k] == FreshConn(0, 0)
      {
        conn[i] := conn[i].(currentbyte := saved.ranges[i].0, lastbyte := saved.ranges[i].1);
        i := i + 1;
      }
      assert conn[..numConnections] == Restore(size, saved).conns;
    }
  }

  /** A call of flux_do as a piece of history: perhaps a save, then a run. */
  lemma TickIsHistory(src: seq<byte>, w: World, t: Tick) returns (hs: seq<Happening>)
    requires 1 <= |src| && w.process.Some? && w.process.value.ready == 0
    ensures var d := AfterTick(src, Download(w.process.value, w.file), t);
            History(src, w, hs) ==
              World(d.file, if t.saves then Some(Snapshot(w.process.value)) else w.saved, Some(d.flux))
  {
    var es := TickIsRun(src, Download(w.process.value, w.file), t);
    if t.saves {
      InsidesRun(src, Next(src, w, Save), es);
      hs := [Save] + Insides(es);
      assert hs[1..] == Insides(es);
    } else {
      InsidesRun(src, w, es);
      hs := Insides(es);
    }
  }

  predicate IsFresh(c: Conn) { c == FreshConn(c.currentbyte, c.lastbyte) }

  /** Setup threads that were never created do nothing. */
  lemma {:induction false} RunKeepsFresh(src: seq<byte>, d: Download, ts: seq<ThreadStep>, i: nat)
    requires forall k | i <= k < |d.flux.conns| :: IsFresh(d.flux.conns[k])
    ensures var d' := Run(src, d, ThreadEvents(ts));
            && |d'.flux.conns| == |d.flux.conns|
            && d'.flux.ready == d.flux.ready
            && forall k | i <= k < |d'.flux.conns| :: IsFresh(d'.flux.conns[k])
    decreases |ts|
  {
    if ts == [] {
    } else {
      var es := ThreadEvents(ts);
      assert es[1..] == ThreadEvents(ts[1..]);
      RunKeepsFresh(src, Step(src, d, es[0]), ts[1..], i);
    }
  }

  lemma {:induction false} ThreadsKeepReady(src: seq<byte>, d: Download, ts: seq<ThreadStep>)
    ensures Run(src, d, ThreadEvents(ts)).flux.ready == d.flux.ready
    decreases |ts|
  {
    if ts == [] {
    } else {
      var es := ThreadEvents(ts);
      assert es[1..] == ThreadEvents(ts[1..]);
      ThreadsKeepReady(src, Step(src, d, es[0]), ts[1..]);
    }
  }

  lemma ReactivateKeepsFresh(cs: seq<Conn>, i: nat)
    requires i < |cs|
    requires forall k | i <= k < |cs| :: IsFresh(cs[k])
    ensures forall k | i <= k < |cs| :: IsFresh(Reactivate(cs, i)[k])
  {
  }

  /** The whole program on a fresh output file: open, start, and call flux_do until it is ready or
      the ticks run out.  Success means the source is on disk. */
  method DownloadFile(src: seq<byte>, wanted: nat, before: seq<byte>, starts: seq<Recheck>, ticks: seq<Tick>)
    returns (e: Engine)
    requires 1 <= |src| && 1 <= wanted <= 0xFFFF
    requires |starts| == ConnectionCount(|src|, wanted)
    requires forall t <- ticks :: |t.visits| == |t.rechecks| == ConnectionCount(|src|, wanted)
    ensures e.Shaped() && e.src == src && Valid(src, e.State())
    ensures e.State() ==
              AfterTicks(src, AfterStartLoop(src, FreshDownload(src, wanted, before), starts, 0), ticks, 0)
    ensures e.ready == 1 ==> e.file == src + before[Min(|src|, |before|)..]
  {
    ghost var d0 := FreshDownload(src, wanted, before);
    ghost var es;
    e, es := OpenAndStart(src, wanted, before, starts);
    ghost var end := AfterTicks(src, e.State(), ticks, 0);
    var k := 0;
    while k < |ticks| && e.ready == 0
      invariant e.Shaped() && e.src == src && fresh(e) && fresh(e.conn)
      invariant e.numConnections == ConnectionCount(|src|, wanted)
      invariant e.State() == Run(src, d0, es) && Valid(src, e.State())
      invariant AfterTicks(src, e.State(), ticks, k) == end
    {
      ghost var more := TickIsRun(src, e.State(), ticks[k]);
      RunConcat(src, d0, es, more);
      e.Do(ticks[k]);
      es := es + more;
      k := k + 1;
    }
    FreshRunSucceeds(src, before, wanted, es);
  }

  ghost function FreshDownload(src: seq<byte>, wanted: nat, before: seq<byte>): Download
    requires 1 <= |src| && 1 <= wanted
  {
    Download(Flux(|src|, FluxModel.Divide(|src|, wanted), 0, 0), before)
  }

  /** flux_open without a state file. */
  method OpenFresh(src: seq<byte>, wanted: nat, before: seq<byte>) returns (e: Engine)
    requires 1 <= |src| && 1 <= wanted <= 0xFFFF
    ensures fresh(e) && fresh(e.conn) && e.Shaped() && e.src == src && e.ready == 0
    ensures e.numConnections == ConnectionCount(|src|, wanted)
    ensures e.State() == FreshDownload(src, wanted, before)
    ensures forall i | 0 <= i < e.numConnections :: IsFresh(e.conn[i])
  {
    e := new Engine(src, wanted, before);
    e.Divide();
    CutIsFresh(|src|, e.numConnections);
    assert forall i | 0 <= i < e.numConnections :: e.conn[i] == e.conn[..e.numConnections][i];
  }

  /** Opening the file, dividing it and starting the setup threads. */
  method OpenAndStart(src: seq<byte>, wanted: nat, before: seq<byte>, starts: seq<Recheck>)
    returns (e: Engine, ghost es: seq<Event>)
    requires 1 <= |src| && 1 <= wanted <= 0xFFFF
    requires |starts| == ConnectionCount(|src|, wanted)
    ensures fresh(e) && fresh(e.conn) && e.Shaped() && e.src == src
    ensures e.numConnections == ConnectionCount(|src|, wanted)
    ensures e.State() == AfterStartLoop(src, FreshDownload(src, wanted, before), starts, 0)
    ensures e.State() == Run(src, FreshDownload(src, wanted, before), es) && Valid(src, e.State())
  {
    e := OpenFresh(src, wanted, before);
    ghost var d0 := e.State();
    FreshIsValid(src, wanted, before);
    e.Start(starts);
    es := StartLoopIsRun(src, d0, starts, 0);
    RunKeepsValid(src, d0, es);
  }

  lemma CutIsFresh(size: int, n: int)
    requires 1 <= n <= size
    ensures forall i | 0 <= i < n :: IsFresh(Cut(size, n)[i])
  {
  }
}
