/**
 What every event of the download engine keeps: the unfinished ranges are disjoint parts of the
 file, everything outside them is already on disk, and the byte count is the complement of what
 remains.
 */
module FluxInvariant {
  import opened Prelude
  import opened Sums
  import opened FluxModel

  ghost predicate RangesOk(size: int, cs: seq<Conn>) {
    forall c <- cs :: 0 <= c.currentbyte <= c.lastbyte <= size
  }

  ghost predicate Apart(c: Conn, d: Conn) {
    c.Unfinished() && d.Unfinished() ==> c.lastbyte <= d.currentbyte || d.lastbyte <= c.currentbyte
  }

  ghost predicate Disjoint(cs: seq<Conn>) {
    forall i, j | 0 <= i < j < |cs| :: Apart(cs[i], cs[j])
  }

  /** An enabled connection's server is positioned exactly at currentbyte.  (After a failed write it
      is not, but that ends the run.) */
  ghost predicate SocketOk(c: Conn) {
    && (c.enabled ==> c.next == c.currentbyte && c.setup.Idle? && !c.state)
    && (c.setup.Asking? ==> c.setup.from == c.currentbyte)
    && (!c.setup.Idle? ==> c.state && !c.enabled)
  }

  ghost predicate SocketsOk(cs: seq<Conn>) {
    forall c <- cs :: SocketOk(c)
  }

  ghost predicate Covered(cs: seq<Conn>, k: int) {
    exists i | 0 <= i < |cs| :: cs[i].Covers(k)
  }

  /** Offset k of the file on disk holds the source byte. */
  predicate OnDisk(src: seq<byte>, file: seq<byte>, k: int) {
    0 <= k < |src| && k < |file| && file[k] == src[k]
  }

  ghost predicate Fetched(src: seq<byte>, file: seq<byte>, cs: seq<Conn>) {
    forall k | 0 <= k < |src| :: Covered(cs, k) || OnDisk(src, file, k)
  }

  function Remainders(cs: seq<Conn>): (r: seq<int>)
    ensures |r| == |cs|
  {
    seq(|cs|, i requires 0 <= i < |cs| => cs[i].Remaining())
  }

  /** The potential that bounds work stealing: what each range holds beyond half a chunk. */
  function Surplus(c: Conn): int { Max(0, c.Remaining() - MIN_CHUNK_WORTH / 2) }

  function Surpluses(cs: seq<Conn>): (r: seq<int>)
    ensures |r| == |cs|
  {
    seq(|cs|, i requires 0 <= i < |cs| => Surplus(cs[i]))
  }

  ghost predicate Valid(src: seq<byte>, d: Download) {
    && d.flux.size == |src| && 1 <= |d.flux.conns|
    && RangesOk(|src|, d.flux.conns)
    && Disjoint(d.flux.conns)
    && (d.flux.ready == 0 ==> SocketsOk(d.flux.conns))
    && Fetched(src, d.file, d.flux.conns)
    && d.flux.bytesDone + Sum(Remainders(d.flux.conns)) == |src|
    && (d.flux.ready == 1 ==> d.flux.bytesDone == |src|)
  }

  // ----- the victim of a steal

  lemma {:induction false} VictimIsFirstLargest(cs: seq<Conn>, n: nat)
    requires n <= |cs|
    ensures Victim(cs, n).None? <==> forall k | 0 <= k < n :: cs[k].Remaining() < MIN_CHUNK_WORTH
    ensures Victim(cs, n).Some? ==>
              var j := Victim(cs, n).value;
              && cs[j].Remaining() >= MIN_CHUNK_WORTH
              && (forall k | 0 <= k < n :: cs[k].Remaining() <= cs[j].Remaining())
              && (forall k | 0 <= k < j :: cs[k].Remaining() < cs[j].Remaining())
  {
    if n == 0 {
    } else {
      VictimIsFirstLargest(cs, n - 1);
    }
  }

  lemma SumReplace(cs: seq<Conn>, i: nat, c: Conn)
    requires i < |cs|
    ensures Sum(Remainders(cs[i := c])) == Sum(Remainders(cs)) - cs[i].Remaining() + c.Remaining()
    ensures Sum(Surpluses(cs[i := c])) == Sum(Surpluses(cs)) - Surplus(cs[i]) + Surplus(c)
  {
    assert Remainders(cs[i := c]) == Remainders(cs)[i := c.Remaining()];
    SumUpdate(Remainders(cs), i, c.Remaining());
    assert Surpluses(cs[i := c]) == Surpluses(cs)[i := Surplus(c)];
    SumUpdate(Surpluses(cs), i, Surplus(c));
  }

  /** Stealing moves half of one range to a finished connection: nothing is lost or doubled, both
      pieces keep half a chunk, and the surplus falls by exactly half a chunk. */
  lemma StealSplits(size: int, cs: seq<Conn>, thief: nat)
    requires thief < |cs| && Steals(cs, thief)
    requires RangesOk(size, cs) && Disjoint(cs)
    ensures var victim := Victim(cs, |cs|).value;
            var cs' := Reactivate(cs, thief);
            && victim != thief
            && cs'[victim].Remaining() >= MIN_CHUNK_WORTH / 2
            && cs'[thief].Remaining() >= MIN_CHUNK_WORTH / 2
            && cs'[victim].Remaining() + cs'[thief].Remaining() == cs[victim].Remaining()
            && cs'[victim].currentbyte == cs[victim].currentbyte
            && cs'[victim].lastbyte == cs'[thief].currentbyte
            && cs'[thief].lastbyte == cs[victim].lastbyte
            && (forall k | 0 <= k < |cs| && k != thief && k != victim :: cs'[k] == cs[k])
            && Sum(Surpluses(cs')) == Sum(Surpluses(cs)) - MIN_CHUNK_WORTH / 2
  {
    VictimIsFirstLargest(cs, |cs|);
    var victim := Victim(cs, |cs|).value;
    StealHalves(cs, thief, victim);
    assert cs[thief] in cs && cs[victim] in cs;
    StealSurplus(cs, Reactivate(cs, thief), thief, victim);
  }

  lemma StealHalves(cs: seq<Conn>, thief: nat, victim: nat)
    requires thief < |cs| && victim < |cs| && victim != thief && cs[victim].Remaining() >= MIN_CHUNK_WORTH
    ensures var cs' := Steal(cs, thief, victim);
            && cs'[victim].Remaining() >= MIN_CHUNK_WORTH / 2
            && cs'[thief].Remaining() >= MIN_CHUNK_WORTH / 2
            && cs'[victim].Remaining() + cs'[thief].Remaining() == cs[victim].Remaining()
  {
  }

  /** The two pieces are equally long, up to an odd byte that goes to the thief. */
  lemma StealIsEven(cs: seq<Conn>, thief: nat)
    requires thief < |cs| && Steals(cs, thief)
    ensures var victim := Victim(cs, |cs|).value;
            var cs' := Reactivate(cs, thief);
            0 <= cs'[thief].Remaining() - cs'[victim].Remaining() <= 1
  {
    VictimIsFirstLargest(cs, |cs|);
  }

  lemma StealSurplus(cs: seq<Conn>, cs': seq<Conn>, thief: nat, victim: nat)
    requires |cs'| == |cs| && thief < |cs| && victim < |cs| && victim != thief
    requires cs[thief].Remaining() <= 0
    requires cs'[victim].Remaining() >= MIN_CHUNK_WORTH / 2 && cs'[thief].Remaining() >= MIN_CHUNK_WORTH / 2
    requires cs'[victim].Remaining() + cs'[thief].Remaining() == cs[victim].Remaining()
    requires forall k | 0 <= k < |cs| && k != thief && k != victim :: cs'[k] == cs[k]
    ensures Sum(Surpluses(cs')) == Sum(Surpluses(cs)) - MIN_CHUNK_WORTH / 2
  {
    var mid := cs[thief := cs'[thief]];
    assert cs' == mid[victim := cs'[victim]];
    SumReplace(cs, thief, cs'[thief]);
    SumReplace(mid, victim, cs'[victim]);
  }


  lemma ReactivateKeeps(size: int, cs: seq<Conn>, thief: nat)
    requires thief < |cs| && cs[thief].LockFree()
    requires RangesOk(size, cs) && Disjoint(cs)
    ensures var cs' := Reactivate(cs, thief);
            && |cs'| == |cs|
            && RangesOk(size, cs') && Disjoint(cs')
            && (SocketsOk(cs) ==> SocketsOk(cs'))
            && Sum(Remainders(cs')) == Sum(Remainders(cs))
            && (forall k :: Covered(cs', k) <==> Covered(cs, k))
  {
    if Steals(cs, thief) {
      StealSplits(size, cs, thief);
      var victim := Victim(cs, |cs|).value;
      var cs' := Reactivate(cs, thief);
      StealKeepsSums(cs, thief, victim, cs');
      StealKeepsRanges(size, cs, thief, victim, cs');
      forall k
        ensures Covered(cs', k) <==> Covered(cs, k)
      {
        StealCovers(cs, thief, victim, cs', k);
      }
    }
  }

  lemma StealKeepsSums(cs: seq<Conn>, thief: nat, victim: nat, cs': seq<Conn>)
    requires thief < |cs| == |cs'| && victim < |cs| && thief != victim
    requires cs[thief].Remaining() == 0
    requires cs'[victim].Remaining() + cs'[thief].Remaining() == cs[victim].Remaining()
    requires forall i | 0 <= i < |cs| && i != thief && i != victim :: cs'[i] == cs[i]
    ensures Sum(Remainders(cs')) == Sum(Remainders(cs))
  {
    var mid := cs[thief := cs'[thief]];
    assert cs' == mid[victim := cs'[victim]];
    SumReplace(cs, thief, cs'[thief]);
    SumReplace(mid, victim, cs'[victim]);
  }

  lemma StealKeepsRanges(size: int, cs: seq<Conn>, thief: nat, victim: nat, cs': seq<Conn>)
    requires thief < |cs| && cs[thief].LockFree() && Steals(cs, thief)
    requires RangesOk(size, cs) && Disjoint(cs)
    requires victim == Victim(cs, |cs|).value != thief
    requires cs' == Steal(cs, thief, victim) && cs[victim].Unfinished()
    ensures RangesOk(size, cs') && Disjoint(cs')
    ensures SocketsOk(cs) ==> SocketsOk(cs')
  {
    assert cs[victim] in cs && cs[thief] in cs;
    forall i | 0 <= i < |cs'|
      ensures 0 <= cs'[i].currentbyte <= cs'[i].lastbyte <= size
      ensures SocketOk(cs[i]) ==> SocketOk(cs'[i])
    {
      assert cs[i] in cs;
    }
    forall i, j | 0 <= i < j < |cs'|
      ensures Apart(cs'[i], cs'[j])
    {
      // A piece of the split range is apart from whatever the whole was apart from.
      var i0 := if i == thief then victim else i;
      var j0 := if j == thief then victim else j;
      if i0 < j0 {
        assert Apart(cs[i0], cs[j0]);
      } else if j0 < i0 {
        assert Apart(cs[j0], cs[i0]);
      }
    }
    forall c | c in cs' && SocketsOk(cs)
      ensures SocketOk(c)
    {
      var i :| 0 <= i < |cs'| && cs'[i] == c;
      assert cs[i] in cs;
    }
  }

  lemma StealCovers(cs: seq<Conn>, thief: nat, victim: nat, cs': seq<Conn>, k: int)
    requires thief < |cs| == |cs'| && victim < |cs| && thief != victim
    requires !cs[thief].Unfinished()
    requires cs'[victim].currentbyte == cs[victim].currentbyte <= cs'[victim].lastbyte
    requires cs'[victim].lastbyte == cs'[thief].currentbyte
    requires cs'[thief].lastbyte == cs[victim].lastbyte >= cs'[thief].currentbyte
    requires forall i | 0 <= i < |cs| && i != thief && i != victim :: cs'[i] == cs[i]
    ensures Covered(cs', k) <==> Covered(cs, k)
  {
    if Covered(cs, k) {
      var i :| 0 <= i < |cs| && cs[i].Covers(k);
      assert cs'[i].Covers(k) || cs'[thief].Covers(k);
    }
    if Covered(cs', k) {
      var i :| 0 <= i < |cs'| && cs'[i].Covers(k);
      assert cs[i].Covers(k) || cs[victim].Covers(k);
    }
  }

  // ----- an action on one connection

  lemma TouchKeeps(src: seq<byte>, s: Flux, i: nat, a: Action)
    requires i < |s.conns| && Allowed(src, s.ready, s.conns[i], a)
    requires RangesOk(|src|, s.conns) && Disjoint(s.conns) && (s.ready == 0 ==> SocketsOk(s.conns))
    ensures var c := s.conns[i];
            var cs := s.conns[i := Touched(c, a)];
            && RangesOk(|src|, cs) && Disjoint(cs)
            && (s.ready == 0 && !Breaks(c, a) ==> SocketsOk(cs))
            && 0 <= Gained(c, a) <= c.Remaining()
            && Sum(Remainders(cs)) == Sum(Remainders(s.conns)) - Gained(c, a)
            && (forall k :: Covered(cs, k) <==>
                 Covered(s.conns, k) && !(c.currentbyte <= k < c.currentbyte + Gained(c, a)))
            && (Retires(c, a) ==> Touched(c, a).LockFree())
  {
    var c := s.conns[i];
    var c' := Touched(c, a);
    var cs := s.conns[i := c'];
    assert c in s.conns;
    SumReplace(s.conns, i, c');
    assert c'.currentbyte == c.currentbyte + Gained(c, a) && c'.lastbyte == c.lastbyte;
    assert s.ready == 0 && !Breaks(c, a) ==> SocketOk(c');
    forall k
      ensures Covered(cs, k) <==>
                Covered(s.conns, k) && !(c.currentbyte <= k < c.currentbyte + Gained(c, a))
    {
      TouchCovers(s.conns, i, c', k);
    }
  }

  lemma TouchCovers(cs: seq<Conn>, i: nat, c': Conn, k: int)
    requires i < |cs| && Disjoint(cs)
    requires cs[i].currentbyte <= c'.currentbyte <= c'.lastbyte == cs[i].lastbyte
    ensures Covered(cs[i := c'], k) <==>
              Covered(cs, k) && !(cs[i].currentbyte <= k < c'.currentbyte)
  {
    var cs' := cs[i := c'];
    if Covered(cs', k) {
      var j :| 0 <= j < |cs'| && cs'[j].Covers(k);
      assert cs[j].Covers(k);
      if i < j {
        assert Apart(cs[i], cs[j]);
      } else if j < i {
        assert Apart(cs[j], cs[i]);
      }
    }
    if Covered(cs, k) && !(cs[i].currentbyte <= k < c'.currentbyte) {
      var j :| 0 <= j < |cs| && cs[j].Covers(k);
      assert cs'[j].Covers(k);
    }
  }

  // ----- writing to the file

  lemma WriteAtAt(file: seq<byte>, off: nat, data: seq<byte>)
    ensures var f := WriteAt(file, off, data);
            && |f| == (if data == [] then |file| else Max(|file|, off + |data|))
            && (forall k | 0 <= k < |data| :: off + k < |f| && f[off + k] == data[k])
            && (forall k | 0 <= k < |file| && !(off <= k < off + |data|) :: f[k] == file[k])
  {
  }

  /** Writing source bytes to their own offsets never spoils what is on disk. */
  lemma WriteKeeps(src: seq<byte>, file: seq<byte>, lo: nat, hi: nat, k: int)
    requires lo < hi <= |src|
    requires OnDisk(src, file, k) || lo <= k < hi
    ensures OnDisk(src, WriteAt(file, lo, src[lo..hi]), k)
  {
    WriteAtAt(file, lo, src[lo..hi]);
    if lo <= k < hi {
      var f := WriteAt(file, lo, src[lo..hi]);
      assert f[lo + (k - lo)] == src[lo..hi][k - lo];
    }
  }

  /** What an event writes lies in one unfinished range, and is exactly the source's bytes there. */
  lemma WritesSource(src: seq<byte>, d: Download, e: Event)
    requires Valid(src, d)
    ensures var (lo, hi) := Written(src, d.flux, e);
            && 0 <= lo <= hi <= |src|
            && FileAfter(src, d, e) == (if lo == hi then d.file else WriteAt(d.file, lo, src[lo..hi]))
            && (forall k | lo <= k < hi :: Covered(d.flux.conns, k))
  {
    var (lo, hi) := Written(src, d.flux, e);
    if lo < hi {
      var c := d.flux.conns[e.i];
      assert c in d.flux.conns && SocketOk(c);  // ready == 0, or nothing would be written
      forall k | lo <= k < hi
        ensures Covered(d.flux.conns, k)
      {
        assert c.Covers(k);
      }
    }
  }

  /** The main invariant: every event, in any order, keeps Valid. */
  lemma StepKeepsValid(src: seq<byte>, d: Download, e: Event)
    requires Valid(src, d)
    ensures Valid(src, Step(src, d, e))
  {
    if Enabled(src, d.flux, e) {
      WritesSource(src, d, e);
      var d' := Step(src, d, e);
      var (lo, hi) := Written(src, d.flux, e);
      match e
      case Abort =>
      case Finish =>
      case At(i, a) =>
        var c := d.flux.conns[i];
        TouchKeeps(src, d.flux, i, a);
        var cs := d.flux.conns[i := Touched(c, a)];
        if Retires(c, a) {
          ReactivateKeeps(|src|, cs, i);
        }
        forall k | 0 <= k < |src|
          ensures Covered(d'.flux.conns, k) || OnDisk(src, d'.file, k)
        {
          if !Covered(d'.flux.conns, k) {
            assert OnDisk(src, d.file, k) || lo <= k < hi;
            if lo < hi {
              WriteKeeps(src, d.file, lo, hi, k);
            }
          }
        }
    }
  }

  lemma {:induction false} RunKeepsValid(src: seq<byte>, d: Download, es: seq<Event>)
    requires Valid(src, d)
    ensures Valid(src, Run(src, d, es))
    decreases |es|
  {
    if es == [] {
    } else {
      StepKeepsValid(src, d, es[0]);
      RunKeepsValid(src, Step(src, d, es[0]), es[1..]);
    }
  }

  lemma RemaindersNonNegative(src: seq<byte>, d: Download)
    requires Valid(src, d)
    ensures forall x <- Remainders(d.flux.conns) :: 0 <= x
    ensures 0 <= d.flux.bytesDone <= |src|
    ensures forall i | 0 <= i < |d.flux.conns| :: d.flux.conns[i].Remaining() <= |src| - d.flux.bytesDone
  {
    var cs := d.flux.conns;
    forall i | 0 <= i < |cs|
      ensures Remainders(cs)[i] in Remainders(cs) && Remainders(cs)[i] == cs[i].Remaining() >= 0
    {
      assert cs[i] in cs;
    }
    SumNonNegative(Remainders(cs));
    BytesDoneNonNegative(src, cs);
  }

  /** Disjoint parts of the file cannot add up to more than the file. */
  lemma BytesDoneNonNegative(src: seq<byte>, cs: seq<Conn>)
    requires RangesOk(|src|, cs) && Disjoint(cs)
    ensures Sum(Remainders(cs)) <= |src|
  {
    RangesFit(|src|, cs, {});
  }

  ghost function Offsets(lo: int, hi: int): (r: set<int>)
    ensures forall k :: k in r <==> lo <= k < hi
    decreases hi - lo
  {
    if hi <= lo then {} else Offsets(lo, hi - 1) + {hi - 1}
  }

  lemma {:induction false} OffsetsCount(lo: int, hi: int)
    requires lo <= hi
    ensures |Offsets(lo, hi)| == hi - lo
    decreases hi - lo
  {
    if lo >= hi {
    } else {
      OffsetsCount(lo, hi - 1);
    }
  }

  lemma {:induction false} RangesFit(size: nat, cs: seq<Conn>, taken: set<int>)
    requires RangesOk(size, cs) && Disjoint(cs)
    requires taken <= Offsets(0, size)
    requires forall c <- cs, k <- taken :: !c.Covers(k)
    ensures Sum(Remainders(cs)) + |taken| <= size
    decreases |cs|
  {
    if cs == [] {
      OffsetsCount(0, size);
      SubsetCount(taken, Offsets(0, size));
    } else {
      var n := |cs| - 1;
      var own := TakeLast(size, cs, taken);
      OthersAvoid(cs, own, taken);
      RangesFit(size, cs[..n], own + taken);
      assert Remainders(cs)[..n] == Remainders(cs[..n]);
    }
  }

  /** The offsets the last connection still has to write. */
  lemma TakeLast(size: nat, cs: seq<Conn>, taken: set<int>) returns (own: set<int>)
    requires cs != [] && RangesOk(size, cs) && Disjoint(cs)
    requires taken <= Offsets(0, size) && forall k <- taken :: !cs[|cs| - 1].Covers(k)
    ensures own + taken <= Offsets(0, size) && |own + taken| == cs[|cs| - 1].Remaining() + |taken|
    ensures forall k <- own :: cs[|cs| - 1].Covers(k)
    ensures RangesOk(size, cs[..|cs| - 1]) && Disjoint(cs[..|cs| - 1])
  {
    var c := cs[|cs| - 1];
    assert c in cs;
    own := Offsets(c.currentbyte, c.lastbyte);
    OffsetsCount(c.currentbyte, c.lastbyte);
    assert own !! taken;
  }

  lemma OthersAvoid(cs: seq<Conn>, own: set<int>, taken: set<int>)
    requires cs != [] && Disjoint(cs)
    requires forall k <- own :: cs[|cs| - 1].Covers(k)
    requires forall c <- cs, k <- taken :: !c.Covers(k)
    ensures forall c <- cs[..|cs| - 1], k <- own + taken :: !c.Covers(k)
  {
    var n := |cs| - 1;
    forall c, k | c in cs[..n] && k in own + taken
      ensures !c.Covers(k)
    {
      var j :| 0 <= j < n && cs[j] == c;
      assert Apart(cs[j], cs[n]);
      assert c in cs;
    }
  }

  lemma {:induction false} SubsetCount<T>(a: set<T>, b: set<T>)
    requires a <= b
    ensures |a| <= |b|
  {
    if a == {} {
    } else {
      var x :| x in a;
      SubsetCount(a - {x}, b - {x});
    }
  }

  /** The engine declares success only when every byte of the file is on disk. */
  lemma CompleteMeansOnDisk(src: seq<byte>, d: Download)
    requires Valid(src, d)
    ensures d.flux.bytesDone == |src| <==> forall c <- d.flux.conns :: !c.Unfinished()
    ensures d.flux.bytesDone == |src| ==> forall k :: !Covered(d.flux.conns, k)
    ensures d.flux.bytesDone == |src| ==> |src| <= |d.file| && d.file[..|src|] == src
  {
    RemaindersNonNegative(src, d);
    var cs := d.flux.conns;
    if d.flux.bytesDone == |src| {
      forall c | c in cs
        ensures !c.Unfinished()
      {
        var i :| 0 <= i < |cs| && cs[i] == c;
      }
      assert forall i | 0 <= i < |cs| :: cs[i] in cs && !cs[i].Unfinished();
      assert |src| > 0 ==> OnDisk(src, d.file, |src| - 1);
      assert forall k | 0 <= k < |src| :: OnDisk(src, d.file, k) && d.file[k] == src[k];
    } else {
      if forall c <- cs :: !c.Unfinished() {
        forall i | 0 <= i < |cs|
          ensures Remainders(cs)[i] == 0
        {
          assert cs[i] in cs;
        }
        SumMonotone(Remainders(cs), seq(|cs|, _ => 0));
        SumZeros(|cs|);
      }
    }
  }

  lemma {:induction false} SumZeros(n: nat)
    ensures Sum(seq(n, _ => 0)) == 0
  {
    if n == 0 {
    } else {
      assert seq(n, _ => 0)[..n - 1] == seq(n - 1, _ => 0);
      SumZeros(n - 1);
    }
  }
}
