/** Sums of integer sequences, with the update law the download engine's accounting rests on. */
module Sums {
  function Sum(xs: seq<int>): int {
    if xs == [] then 0 else Sum(xs[..|xs| - 1]) + xs[|xs| - 1]
  }

  lemma {:induction false} SumUpdate(xs: seq<int>, i: nat, x: int)
    requires i < |xs|
    ensures Sum(xs[i := x]) == Sum(xs) - xs[i] + x
  {
    var n := |xs| - 1;
    if i == n {
      assert xs[i := x][..n] == xs[..n];
    } else {
      assert xs[i := x][..n] == xs[..n][i := x];
      SumUpdate(xs[..n], i, x);
    }
  }

  lemma {:induction false} SumNonNegative(xs: seq<int>)
    requires forall x <- xs :: 0 <= x
    ensures 0 <= Sum(xs)
    ensures forall x <- xs :: x <= Sum(xs)
  {
    if xs == [] {
    } else {
      var n := |xs| - 1;
      assert forall x <- xs[..n] :: x in xs;
      SumNonNegative(xs[..n]);
      assert xs[n] in xs;
      forall x | x in xs
        ensures x <= Sum(xs)
      {
        assert x in xs[..n] || x == xs[n];
      }
    }
  }

  lemma {:induction false} SumMonotone(xs: seq<int>, ys: seq<int>)
    requires |xs| == |ys|
    requires forall i | 0 <= i < |xs| :: xs[i] <= ys[i]
    ensures Sum(xs) <= Sum(ys)
  {
    if xs == [] {
    } else {
      var n := |xs| - 1;
      SumMonotone(xs[..n], ys[..n]);
    }
  }
}
