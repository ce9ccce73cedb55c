/** The few laws of integer multiplication and division that several proofs rest on. */
module Arithmetic {
  lemma MulMonotone(a: int, b: int, c: int)
    requires 0 <= a && b <= c
    ensures a * b <= a * c
  {
  }

  /** Quotient and remainder are what the division law says they are. */
  lemma DivModIs(a: int, s: int, q: int, r: int)
    requires 0 <= r < s && a == s * q + r
    ensures a / s == q && a % s == r
  {
    var d := a / s - q;
    assert d >= 1 ==> s * d >= s;
    assert d <= -1 ==> s * d <= -s;
    assert a == s * (a / s) + a % s;
    assert s * d == r - a % s;
  }

  lemma QuotientBound(a: nat, b: int)
    requires 1 <= b
    ensures 0 <= a / b <= a
  {
    var q := a / b;
    assert q <= -1 ==> b * q <= -b by {
      if q <= -1 { MulMonotone(b, q, -1); }
    }
    assert a == b * q + a % b;
    MulMonotone(q, 1, b);
  }
}
