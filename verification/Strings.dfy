/** The C string functions the models share: strstr, strchr, strrchr, strcasecmp, and the runs of
    digits and white space that isdigit and isspace loops skip. */
module Strings {
  import opened Prelude

  predicate At(s: string, sep: string, j: nat) {
    j + |sep| <= |s| && s[j..j + |sep|] == sep
  }

  /** First position of a separator, or |s|. */
  function Find(s: string, sep: string): (k: nat)
    requires sep != ""
    ensures k <= |s|
    ensures k < |s| ==> At(s, sep, k)
    ensures forall j: nat | At(s, sep, j) :: k <= j
  {
    if s == "" || At(s, sep, 0) then 0
    else
      var k := Find(s[1..], sep);
      AtShift(s, sep, k);
      assert forall j: nat | At(s, sep, j) :: k + 1 <= j by {
        forall j: nat | At(s, sep, j)
          ensures k + 1 <= j
        {
          AtShift(s, sep, j - 1);
        }
      }
      1 + k
  }

  lemma AtShift(s: string, sep: string, j: nat)
    requires s != ""
    ensures At(s, sep, j + 1) <==> At(s[1..], sep, j)
  {
    if j + 1 + |sep| <= |s| {
      assert s[1..][j..j + |sep|] == s[j + 1..j + 1 + |sep|];
    }
  }

  /** First position of a character, or |s|. */
  function FindChar(s: string, c: char): (k: nat)
    ensures k <= |s| && (k < |s| ==> s[k] == c)
    ensures forall i | 0 <= i < k :: s[i] != c
  {
    if s == "" || s[0] == c then 0 else 1 + FindChar(s[1..], c)
  }

  /** Last position of a character, or None. */
  function LastChar(s: string, c: char): (k: Option<nat>)
    ensures k.Some? ==> k.value < |s| && s[k.value] == c
    ensures forall i | (if k.Some? then k.value else -1) < i < |s| :: s[i] != c
  {
    if s == "" then None
    else if s[|s| - 1] == c then Some(|s| - 1)
    else LastChar(s[..|s| - 1], c)
  }

  lemma FindCharIs(s: string, c: char, k: nat)
    requires k <= |s| && (k < |s| ==> s[k] == c)
    requires forall i | 0 <= i < k :: s[i] != c
    ensures FindChar(s, c) == k
  {
    var f := FindChar(s, c);
    assert f < |s| ==> s[f] == c;
  }

  lemma LastCharIs(s: string, c: char, k: nat)
    requires k < |s| && s[k] == c
    requires forall i | k < i < |s| :: s[i] != c
    ensures LastChar(s, c) == Some(k)
  {
    var l := LastChar(s, c);
    assert l.Some? ==> s[l.value] == c;
  }

  /** The first c of a + b when a holds none and b starts with it. */
  lemma FindCharAfter(a: string, b: string, c: char)
    requires c !in a && b != "" && b[0] == c
    ensures FindChar(a + b, c) == |a| && (a + b)[..|a|] == a && (a + b)[|a|..] == b
  {
    FindCharIs(a + b, c, |a|);
  }

  /** The last c of a + b when b starts with it and holds no other. */
  lemma LastCharBefore(a: string, b: string, c: char)
    requires b != "" && b[0] == c && c !in b[1..]
    ensures LastChar(a + b, c) == Some(|a|) && (a + b)[..|a|] == a && (a + b)[|a| + 1..] == b[1..]
  {
    forall i | |a| < i < |a + b|
      ensures (a + b)[i] != c
    {
      assert (a + b)[i] == b[1..][i - |a| - 1];
    }
    LastCharIs(a + b, c, |a|);
  }

  /** Length of the digit run a string starts with. */
  function DigitRun(s: string): (n: nat)
    ensures n <= |s| && AllDigits(s[..n]) && (n < |s| ==> !IsDigit(s[n]))
    ensures s != "" && IsDigit(s[0]) ==> 0 < n
  {
    if s == "" || !IsDigit(s[0]) then 0 else
    var n := DigitRun(s[1..]);
    assert s[..1 + n] == [s[0]] + s[1..][..n];
    1 + n
  }

  lemma {:induction false} DigitRunIs(s: string, n: nat)
    requires n <= |s| && AllDigits(s[..n]) && (n < |s| ==> !IsDigit(s[n]))
    ensures DigitRun(s) == n
    decreases n
  {
    if n == 0 {
    } else {
      assert s[0] in s[..n];
      assert forall c <- s[1..][..n - 1] :: c in s[..n];
      DigitRunIs(s[1..], n - 1);
    }
  }

  predicate IsSpace(c: char) { c == ' ' || '\t' <= c <= '\r' }

  function SkipSpace(s: string): string {
    if s != "" && IsSpace(s[0]) then SkipSpace(s[1..]) else s
  }

  function Lower(c: char): char {
    if 'A' <= c <= 'Z' then (c as int + 32) as char else c
  }

  predicate SameIgnoringCase(a: string, b: string) {
    |a| == |b| && forall i | 0 <= i < |a| :: Lower(a[i]) == Lower(b[i])
  }
}
