/** flux_divide cuts the file exactly. */
module FluxDivide {
  import opened Prelude
  import opened Arithmetic
  import opened Sums
  import opened FluxModel
  import opened FluxInvariant

  /** Consecutive ranges that together make up [lo, hi). */
  ghost predicate Tiles(cs: seq<Conn>, lo: int, hi: int) {
    && 1 <= |cs| && cs[0].currentbyte == lo && cs[|cs| - 1].lastbyte == hi
    && (forall i | 0 <= i < |cs| :: cs[i].currentbyte < cs[i].lastbyte)
    && (forall i | 0 <= i < |cs| - 1 :: cs[i].lastbyte == cs[i + 1].currentbyte)
  }

  lemma {:induction false} TilesInOrder(cs: seq<Conn>, lo: int, hi: int, i: nat, j: nat)
    requires Tiles(cs, lo, hi) && i < j < |cs|
    ensures cs[i].lastbyte <= cs[j].currentbyte
    decreases j - i
  {
    if i + 1 >= j {
    } else {
      TilesInOrder(cs, lo, hi, i + 1, j);
    }
  }

  lemma TilesAreDisjoint(cs: seq<Conn>, lo: int, hi: int)
    requires Tiles(cs, lo, hi)
    ensures Disjoint(cs)
    ensures forall c <- cs :: lo <= c.currentbyte < c.lastbyte <= hi
  {
    forall i, j | 0 <= i < j < |cs|
      ensures Apart(cs[i], cs[j])
    {
      TilesInOrder(cs, lo, hi, i, j);
    }
    forall i | 0 <= i < |cs|
      ensures lo <= cs[i].currentbyte < cs[i].lastbyte <= hi
    {
      if 0 < i { TilesInOrder(cs, lo, hi, 0, i); }
      if i < |cs| - 1 { TilesInOrder(cs, lo, hi, i, |cs| - 1); }
    }
  }

  lemma {:induction false} TilesCover(cs: seq<Conn>, lo: int, hi: int)
    requires Tiles(cs, lo, hi)
    ensures Sum(Remainders(cs)) == hi - lo
    ensures forall k | lo <= k < hi :: Covered(cs, k)
    decreases |cs|
  {
    var n := |cs| - 1;
    var mid := cs[n].currentbyte;
    assert Remainders(cs)[..n] == Remainders(cs[..n]);
    if n != 0 {
      assert cs[n - 1].lastbyte == mid;
      TilesCover(cs[..n], lo, mid);
    } else {
      assert Remainders(cs)[..0] == [];
    }
    forall k | lo <= k < hi
      ensures Covered(cs, k)
    {
      if k < mid {
        assert Covered(cs[..n], k);
        var i :| 0 <= i < n && cs[..n][i].Covers(k);
        assert cs[i].Covers(k);
      } else {
        assert cs[n].Covers(k);
      }
    }
  }

  /** The remainder is taken modulo the segment length instead of modulo the number of
      connections: right exactly when it is shorter than a segment. */
  lemma CutEndsAtSize(size: int, n: int)
    requires 1 <= n <= size
    ensures Cut(size, n)[n - 1].lastbyte == size <==> size % n < size / n
  {
    var segLen := size / n;
    assert size == segLen * n + size % n;
    assert 1 <= segLen;
    assert segLen * (n - 1) + segLen == segLen * n;
    if size % n < segLen {
      DivModIs(size, segLen, n, size % n);
    }
  }

  lemma CutAt(size: int, n: int, i: int)
    requires 1 <= n <= size && 0 <= i < n
    ensures var segLen, c := size / n, Cut(size, n)[i];
            && 0 <= size % segLen && segLen <= c.Remaining()
            && c.currentbyte == segLen * i && (i < n - 1 ==> c.lastbyte == segLen * (i + 1))
  {
    var segLen := size / n;
    assert 1 <= segLen;
    assert segLen * i + segLen == segLen * (i + 1);
  }

  lemma CutTiles(size: int, n: int)
    requires 1 <= n <= size && size % n < size / n
    ensures Tiles(Cut(size, n), 0, size)
    ensures forall c <- Cut(size, n) :: size / n <= c.Remaining()
  {
    CutEndsAtSize(size, n);
    var cs := Cut(size, n);
    forall i | 0 <= i < n
      ensures size / n <= cs[i].Remaining() && cs[i].currentbyte == size / n * i
      ensures i < n - 1 ==> cs[i].lastbyte == size / n * (i + 1)
    {
      CutAt(size, n, i);
    }
    assert forall i | 0 <= i < n - 1 :: cs[i].lastbyte == cs[i + 1].currentbyte;
  }

  lemma SegmentsAreWorthIt(size: int, n: int)
    requires 1 < n <= size / MIN_CHUNK_WORTH
    ensures n <= size && MIN_CHUNK_WORTH <= size / n
  {
    var q := size / n;
    assert size == n * q + size % n;
    assert n * MIN_CHUNK_WORTH <= size / MIN_CHUNK_WORTH * MIN_CHUNK_WORTH <= size;
    assert q < MIN_CHUNK_WORTH ==> n * q <= n * (MIN_CHUNK_WORTH - 1);
  }

  /** With at most 65535 connections the cut is always exact, no range is too small to be worth a
      connection, fewer connections than wanted are used only for lack of data, and dividing again
      with the chosen count changes nothing. */
  lemma DivideIsExact(size: int, wanted: int)
    requires 1 <= size && 1 <= wanted <= 0xFFFF
    ensures var cs := Divide(size, wanted);
            && Tiles(cs, 0, size)
            && |cs| <= wanted
            && (|cs| > 1 ==> forall c <- cs :: MIN_CHUNK_WORTH <= c.Remaining())
            && (|cs| < wanted ==> size < (|cs| + 1) * 102400)
            && Divide(size, |cs|) == cs
  {
    var n := ConnectionCount(size, wanted);
    if n > 1 {
      SegmentsAreWorthIt(size, n);
    }
    CutTiles(size, n);
  }

  lemma CutIsIdle(size: int, n: int)
    requires 1 <= n <= size
    ensures SocketsOk(Cut(size, n))
  {
    forall i | 0 <= i < n
      ensures SocketOk(Cut(size, n)[i])
    {
    }
  }

  /** A fresh download starts out valid, whatever the output file held before. */
  lemma FreshIsValid(src: seq<byte>, wanted: int, file: seq<byte>)
    requires 1 <= |src| && 1 <= wanted <= 0xFFFF
    ensures Valid(src, Download(Flux(|src|, Divide(|src|, wanted), 0, 0), file))
  {
    var cs := Divide(|src|, wanted);
    assert Tiles(cs, 0, |src|) by { DivideIsExact(|src|, wanted); }
    TilesAreDisjoint(cs, 0, |src|);
    TilesCover(cs, 0, |src|);
    CutIsIdle(|src|, ConnectionCount(|src|, wanted));
    assert RangesOk(|src|, cs);
  }
}
