/** Decimal notation: printf's %ld and %0*ld on non-negative numbers, and reading them back. */
module Decimals {
  import opened Prelude

  function DigitChar(d: nat): (c: char)
    requires d <= 9
    ensures IsDigit(c) && DigitValue(c) == d
  {
    ('0' as int + d) as char
  }

  function Decimal(n: nat): (s: string)
    ensures s != "" && AllDigits(s)
    ensures |s| > 1 ==> s[0] != '0'
    ensures Value(s) == n
  {
    if n <= 9 then
      assert [DigitChar(n)][..0] == "";
      [DigitChar(n)]
    else
      var s := Decimal(n / 10) + [DigitChar(n % 10)];
      assert s[..|s| - 1] == Decimal(n / 10);
      s
  }

  function Zeros(n: nat): (z: string)
    ensures |z| == n && AllDigits(z)
  {
    seq(n, _ => '0')
  }

  /** printf("%0*ld", width, n). */
  function Padded(n: nat, width: nat): (s: string)
    ensures |s| == Max(width, |Decimal(n)|) && AllDigits(s)
  {
    var d := Decimal(n);
    if |d| < width then Zeros(width - |d|) + d else d
  }

  lemma {:induction false} ValueZeros(n: nat, s: string)
    requires AllDigits(s)
    ensures AllDigits(Zeros(n) + s) && Value(Zeros(n) + s) == Value(s)
    decreases |s|, n
  {
    var z := Zeros(n) + s;
    if s != "" {
      var t := s[..|s| - 1];
      assert forall c <- t :: c in s;
      ValueZeros(n, t);
      assert z[..|z| - 1] == Zeros(n) + t;
    } else if n != 0 {
      ValueZeros(n - 1, "");
      assert z[..|z| - 1] == Zeros(n - 1) + "";
    } else {
      assert z == s;
    }
  }

  lemma PaddedValue(n: nat, width: nat)
    ensures Value(Padded(n, width)) == n
  {
    var d := Decimal(n);
    if |d| < width {
      ValueZeros(width - |d|, d);
    }
  }

  /** A number is never longer than a string of digits that denotes at least as much. */
  lemma {:induction false} DecimalNoLonger(n: nat, s: string)
    requires AllDigits(s) && s != "" && n <= Value(s)
    ensures |Decimal(n)| <= |s|
    decreases |s|
  {
    var t := s[..|s| - 1];
    assert forall c <- t :: c in s;
    assert s[|s| - 1] in s;
    if t == "" {
      assert n <= 9;
    } else if n > 9 {
      assert n / 10 <= Value(t);
      DecimalNoLonger(n / 10, t);
    }
  }

  function Power10(k: nat): nat {
    if k == 0 then 1 else 10 * Power10(k - 1)
  }

  lemma {:induction false} ValueBound(s: string)
    requires AllDigits(s)
    ensures Value(s) < Power10(|s|)
  {
    if s == "" {
    } else {
      var t := s[..|s| - 1];
      assert forall c <- t :: c in s;
      ValueBound(t);
    }
  }

  lemma {:induction false} Power10Monotone(j: nat, k: nat)
    requires j <= k
    ensures Power10(j) <= Power10(k)
  {
    if j >= k {
    } else {
      Power10Monotone(j, k - 1);
    }
  }

  lemma {:induction false} ValuePrefix(s: string, k: nat)
    requires AllDigits(s) && k <= |s|
    ensures AllDigits(s[..k]) && Value(s[..k]) <= Value(s)
    decreases |s| - k
  {
    assert forall c <- s[..k] :: c in s;
    if k < |s| {
      ValuePrefix(s, k + 1);
      assert s[..k + 1][..k] == s[..k];
    } else {
      assert s[..k] == s;
    }
  }
}
