/**
 dn_match of src/dn-match.c: host names against certificate names with at most one wildcard, in the
 leftmost label (section 6.4.3 of RFC 6125).
 */
module DnMatch {
  import opened Prelude
  import opened Strings

  const TWO64: int := 0x1_0000_0000_0000_0000

  datatype Result = Matched | NotEqual | Malformed

  /** strcspn(s, ".*"). */
  function LeftLength(s: string): (n: nat)
    ensures n <= |s| && (n < |s| ==> s[n] == '.' || s[n] == '*')
    ensures forall i | 0 <= i < n :: s[i] != '.' && s[i] != '*'
  {
    if s == "" || s[0] == '.' || s[0] == '*' then 0 else 1 + LeftLength(s[1..])
  }

  /** strncasecmp(a, b, n) == 0: equal as far as n, or both end earlier at the same place. */
  predicate SameUpTo(a: string, b: string, n: nat) {
    SameIgnoringCase(a[..Min(n, |a|)], b[..Min(n, |b|)])
  }

  function Wraps(k: int): int { TWO64 * k }

  /** Equal as values of size_t. */
  ghost predicate SameSize(a: int, b: int) {
    exists k :: a == b + Wraps(k)
  }

  /** The machine test for an early end of the pattern: `patLen == right - strlen(pat + right)` on
      size_t, where patLen counts what is left of the pattern. */
  ghost predicate WrappedEndTest(patLen: int, right: int, rest: int) {
    SameSize(patLen, right - rest)
  }

  /** After the left part, for a pattern that goes on as `p` without a wildcard. */
  ghost function PlainPart(host: string, p: string, patLen: int): Result {
    if WrappedEndTest(patLen, 0, |p|) then Malformed
    else if SameIgnoringCase(host, p) then Matched else NotEqual
  }

  /** After the wildcard: skip as much of the label as leaves room for the rest of it. */
  ghost function WildPart(host: string, p: string, patLen: int): Result {
    var right := FindChar(p, '.');
    var rem := FindChar(host, '.');
    if right > rem then NotEqual
    else if WrappedEndTest(patLen, right, |p| - right) then Malformed
    else if SameIgnoringCase(host[rem - right..], p) then Matched else NotEqual
  }

  /** dn_match on strings that end at their first NUL. */
  ghost function DnMatch(hostname: string, pat: string, patLen: nat): Result {
    var left := LeftLength(pat);
    var wild := left < |pat| && pat[left] == '*';
    if wild && SameUpTo(hostname, "xn--", 4) then NotEqual
    else if !SameUpTo(hostname, pat, left) then NotEqual
    else AfterLeft(hostname[left..], pat[left..], patLen - left)
  }

  /** After the left part: at a wildcard, a dot or the end of the pattern. */
  ghost function AfterLeft(host: string, p: string, patLen: int): Result {
    if p != "" && p[0] == '*' then WildPart(host, p[1..], patLen - 1) else PlainPart(host, p, patLen)
  }

  // ----- the rule it implements

  predicate HasWildcard(pat: string) {
    LeftLength(pat) < |pat| && pat[LeftLength(pat)] == '*'
  }

  /** The host name is head, some text without a dot, and p. */
  ghost predicate Filled(hostname: string, head: string, p: string) {
    exists middle: string :: '.' !in middle && SameIgnoringCase(hostname, head + (middle + p))
  }

  /** The text is something without a dot, and p. */
  ghost predicate Fills(host: string, p: string) {
    exists middle: string :: '.' !in middle && SameIgnoringCase(host, middle + p)
  }

  /** The host name is the pattern with its wildcard replaced by some text without a dot. */
  ghost predicate WildcardMatches(hostname: string, pat: string)
    requires HasWildcard(pat)
  {
    Filled(hostname, pat[..LeftLength(pat)], pat[LeftLength(pat) + 1..])
  }

  /** What the name says, whatever length is passed with it. */
  ghost predicate TextMatches(hostname: string, pat: string) {
    if HasWildcard(pat) then !SameUpTo(hostname, "xn--", 4) && WildcardMatches(hostname, pat)
    else SameIgnoringCase(hostname, pat)
  }

  // ----- the wrapped comparison

  /** How much of the pattern is left at the first dot behind its wildcard, or behind its left part. */
  function RestLength(pat: string): (n: nat)
    ensures n <= |pat|
  {
    var left := LeftLength(pat);
    if HasWildcard(pat) then |pat| - left - 1 - FindChar(pat[left + 1..], '.') else |pat| - left
  }

  /** What the test for an early end comes down to, for the length the caller passes. */
  ghost predicate EndTest(pat: string, patLen: nat) {
    SameSize(patLen, |pat| - 2 * RestLength(pat))
  }

  /** Only the difference counts. */
  lemma SameDifference(a: int, b: int, c: int, d: int)
    requires a - b == c - d
    ensures SameSize(a, b) <==> SameSize(c, d)
  {
    if SameSize(a, b) {
      var k :| a == b + Wraps(k);
      assert c == d + Wraps(k);
    }
    if SameSize(c, d) {
      var k :| c == d + Wraps(k);
      assert a == b + Wraps(k);
    }
  }

  lemma PlainEndTest(pat: string, patLen: nat, left: nat)
    requires !HasWildcard(pat) && left == LeftLength(pat)
    ensures WrappedEndTest(patLen - left, 0, |pat| - left) <==> EndTest(pat, patLen)
  {
    SameDifference(patLen - left, 0 - (|pat| - left), patLen, |pat| - 2 * RestLength(pat));
  }

  lemma WildEndTest(pat: string, patLen: nat, left: nat, right: nat, rest: nat)
    requires HasWildcard(pat) && left == LeftLength(pat) && right == FindChar(pat[left + 1..], '.')
    requires rest == |pat| - left - 1 - right
    ensures WrappedEndTest(patLen - left - 1, right, rest) <==> EndTest(pat, patLen)
  {
    SameDifference(patLen - left - 1, right - rest, patLen, |pat| - 2 * RestLength(pat));
  }

  lemma RestMeansDot(pat: string)
    ensures RestLength(pat) == 0 <==> '.' !in pat
  {
    NoDotLeft(pat);
    if HasWildcard(pat) {
      DotFound(pat[LeftLength(pat) + 1..]);
    }
  }

  /** With a length not below the text's own, the test holds exactly when the length is the text's and
      there is no dot.  A length that is larger never passes it. */
  lemma EndTestMeansNoDot(pat: string, patLen: nat)
    requires |pat| <= patLen < TWO64 / 2
    ensures EndTest(pat, patLen) <==> patLen == |pat| && '.' !in pat
  {
    RestMeansDot(pat);
    var d := patLen - |pat| + 2 * RestLength(pat);
    assert 0 <= d < TWO64;
    if EndTest(pat, patLen) {
      var k :| patLen == |pat| - 2 * RestLength(pat) + Wraps(k);
      assert d == Wraps(k);
    }
    if d == 0 {
      assert patLen == |pat| - 2 * RestLength(pat) + Wraps(0);
    }
  }

  // ----- the greedy skip

  /** Equality ignoring case, piece by piece. */
  lemma SameParts(a: string, b: string, c: string)
    ensures SameIgnoringCase(a, b + c) <==>
              |b| <= |a| && SameIgnoringCase(a[..|b|], b) && SameIgnoringCase(a[|b|..], c)
  {
    if SameIgnoringCase(a, b + c) {
      assert forall i | 0 <= i < |b| :: (b + c)[i] == b[i];
      assert forall i | 0 <= i < |c| :: (b + c)[|b| + i] == c[i];
    }
    if |b| <= |a| && SameIgnoringCase(a[..|b|], b) && SameIgnoringCase(a[|b|..], c) {
      forall i | 0 <= i < |a|
        ensures Lower(a[i]) == Lower((b + c)[i])
      {
        if i < |b| {
          assert a[..|b|][i] == a[i];
        } else {
          assert a[|b|..][i - |b|] == a[i];
        }
      }
    }
  }

  lemma SameDot(a: string, b: string, i: nat)
    requires SameIgnoringCase(a, b) && i < |a|
    ensures a[i] == '.' <==> b[i] == '.'
  {
    assert Lower(a[i]) == Lower(b[i]);
  }

  /** The text a wildcard stands for is forced: it ends as far before the end of the host label as the
      pattern's next dot, or its end, stands behind the wildcard.  So skipping as much as possible
      loses no match. */
  lemma GreedySkipIsComplete(host: string, p: string, middle: string)
    requires '.' !in middle && SameIgnoringCase(host, middle + p)
    ensures var right, rem := FindChar(p, '.'), FindChar(host, '.');
            right <= rem && |middle| == rem - right && SameIgnoringCase(host[rem - right..], p)
  {
    var right := FindChar(p, '.');
    var whole := middle + p;
    var k := |middle| + right;
    forall j | 0 <= j < k
      ensures host[j] != '.'
    {
      SameDot(host, whole, j);
      if j < |middle| {
        assert whole[j] == middle[j];
        assert middle[j] in middle;
      } else {
        assert whole[j] == p[j - |middle|];
      }
    }
    if right < |p| {
      SameDot(host, whole, k);
    }
    FindCharIs(host, '.', k);
    SameParts(host, middle, p);
  }

  predicate SkipMatches(host: string, p: string) {
    var right, rem := FindChar(p, '.'), FindChar(host, '.');
    right <= rem && SameIgnoringCase(host[rem - right..], p)
  }

  lemma SkipsIfFills(host: string, p: string)
    requires Fills(host, p)
    ensures SkipMatches(host, p)
  {
    var middle: string :| '.' !in middle && SameIgnoringCase(host, middle + p);
    GreedySkipIsComplete(host, p, middle);
  }

  lemma FillsIfSkips(host: string, p: string)
    requires SkipMatches(host, p)
    ensures Fills(host, p)
  {
    var k := FindChar(host, '.') - FindChar(p, '.');
    var middle := host[..k];
    SameReflexive(middle);
    SameParts(host, middle, p);
    assert '.' !in middle by {
      assert forall i | 0 <= i < k :: middle[i] == host[i] != '.';
    }
  }

  /** The greedy skip finds a filling of the wildcard exactly when there is one. */
  lemma SkipIsFilling(host: string, p: string)
    ensures SkipMatches(host, p) <==> Fills(host, p)
  {
    if Fills(host, p) {
      SkipsIfFills(host, p);
    } else if SkipMatches(host, p) {
      FillsIfSkips(host, p);
    }
  }

  lemma FillingHasHead(hostname: string, head: string, p: string)
    ensures Filled(hostname, head, p) <==>
              |head| <= |hostname| && SameIgnoringCase(hostname[..|head|], head) && Fills(hostname[|head|..], p)
  {
    if Filled(hostname, head, p) {
      var middle: string :| '.' !in middle && SameIgnoringCase(hostname, head + (middle + p));
      SameParts(hostname, head, middle + p);
    } else if |head| <= |hostname| && SameIgnoringCase(hostname[..|head|], head) && Fills(hostname[|head|..], p) {
      var middle: string :| '.' !in middle && SameIgnoringCase(hostname[|head|..], middle + p);
      SameParts(hostname, head, middle + p);
    }
  }

  lemma SameReflexive(s: string)
    ensures SameIgnoringCase(s, s)
  {
  }

  lemma SameUpToPrefix(a: string, b: string, n: nat)
    requires n <= |b|
    ensures SameUpTo(a, b, n) <==> n <= |a| && SameIgnoringCase(a[..n], b[..n])
  {
  }

  lemma DotAfterWildcard(pat: string, left: nat)
    requires left < |pat| && pat[left] != '.' && forall i | 0 <= i < left :: pat[i] != '.'
    ensures '.' in pat <==> '.' in pat[left + 1..]
  {
    assert pat == pat[..left] + ([pat[left]] + pat[left + 1..]);
    assert '.' !in pat[..left];
  }

  lemma NoDotLeft(pat: string)
    ensures var left := LeftLength(pat);
            '.' in pat <==> if HasWildcard(pat) then '.' in pat[left + 1..] else left < |pat|
  {
    var left := LeftLength(pat);
    if HasWildcard(pat) {
      DotAfterWildcard(pat, left);
    } else if left < |pat| {
      assert pat[left] == '.';
    } else {
      assert forall i | 0 <= i < |pat| :: pat[i] != '.';
    }
  }

  lemma DotFound(p: string)
    ensures '.' in p <==> FindChar(p, '.') < |p|
  {
    var k := FindChar(p, '.');
    assert k < |p| ==> p[k] == '.';
  }

  // ----- the branches of the code

  lemma PlainBranch(hostname: string, pat: string, patLen: nat)
    requires !HasWildcard(pat)
    ensures DnMatch(hostname, pat, patLen) ==
              if !SameUpTo(hostname, pat, LeftLength(pat)) then NotEqual
              else if EndTest(pat, patLen) then Malformed
              else if SameIgnoringCase(hostname, pat) then Matched else NotEqual
  {
    var left := LeftLength(pat);
    PlainSplits(hostname, pat, left);
    PlainEndTest(pat, patLen, left);
  }

  lemma PlainSplits(hostname: string, pat: string, left: nat)
    requires left <= |pat|
    ensures SameUpTo(hostname, pat, left) ==> left <= |hostname|
    ensures SameIgnoringCase(hostname, pat) <==>
              SameUpTo(hostname, pat, left) && SameIgnoringCase(hostname[left..], pat[left..])
  {
    assert pat == pat[..left] + pat[left..];
    SameParts(hostname, pat[..left], pat[left..]);
    SameUpToPrefix(hostname, pat, left);
  }

  /** What DnMatch does with a wildcard. */
  lemma WildBranch(hostname: string, pat: string, patLen: nat, left: nat, p: string)
    requires HasWildcard(pat) && left == LeftLength(pat) <= |hostname| && p == pat[left + 1..]
    requires SameUpTo(hostname, pat, left) && !SameUpTo(hostname, "xn--", 4)
    ensures DnMatch(hostname, pat, patLen) == WildPart(hostname[left..], p, patLen - left - 1)
  {
    assert pat[left..][0] == '*' && pat[left..][1..] == p;
    assert DnMatch(hostname, pat, patLen) == AfterLeft(hostname[left..], pat[left..], patLen - left);
  }

  lemma WildRefused(hostname: string, pat: string, patLen: nat)
    requires HasWildcard(pat)
    requires SameUpTo(hostname, "xn--", 4) || !SameUpTo(hostname, pat, LeftLength(pat))
    ensures DnMatch(hostname, pat, patLen) == NotEqual
  {
  }

  lemma WildSplits(hostname: string, pat: string, left: nat, p: string)
    requires left <= |pat|
    ensures SameUpTo(hostname, pat, left) ==> left <= |hostname|
    ensures Filled(hostname, pat[..left], p) <==> SameUpTo(hostname, pat, left) && Fills(hostname[left..], p)
  {
    SameUpToPrefix(hostname, pat, left);
    FillingHasHead(hostname, pat[..left], p);
  }

  /** The wildcard branch, once the left part matches. */
  lemma WildOutcome(hostname: string, pat: string, patLen: nat, left: nat, host: string, p: string)
    requires HasWildcard(pat) && left == LeftLength(pat) <= |hostname| && p == pat[left + 1..]
    requires host == hostname[left..] && SameUpTo(hostname, pat, left) && !SameUpTo(hostname, "xn--", 4)
    ensures DnMatch(hostname, pat, patLen).Matched? <==> !EndTest(pat, patLen) && Fills(host, p)
    ensures DnMatch(hostname, pat, patLen).Malformed? <==>
              EndTest(pat, patLen) && FindChar(p, '.') <= FindChar(host, '.')
  {
    var right := FindChar(p, '.');
    WildEndTest(pat, patLen, left, right, |p| - right);
    WildBranch(hostname, pat, patLen, left, p);
    var r := DnMatch(hostname, pat, patLen);
    WildPartResult(host, p, patLen - left - 1, right, |p| - right, r);
  }

  lemma WildPartResult(host: string, p: string, n: int, right: nat, rest: nat, r: Result)
    requires right == FindChar(p, '.') && rest == |p| - right && r == WildPart(host, p, n)
    ensures r.Matched? <==> !WrappedEndTest(n, right, rest) && Fills(host, p)
    ensures r.Malformed? <==> WrappedEndTest(n, right, rest) && right <= FindChar(host, '.')
  {
    SkipIsFilling(host, p);
  }

  lemma WildMatchesIff(hostname: string, pat: string, patLen: nat)
    requires HasWildcard(pat)
    ensures DnMatch(hostname, pat, patLen).Matched? <==> !EndTest(pat, patLen) && TextMatches(hostname, pat)
  {
    var left := LeftLength(pat);
    var p := pat[left + 1..];
    WildSplits(hostname, pat, left, p);
    if SameUpTo(hostname, "xn--", 4) || !SameUpTo(hostname, pat, left) {
      WildRefused(hostname, pat, patLen);
    } else {
      WildOutcome(hostname, pat, patLen, left, hostname[left..], p);
    }
  }

  lemma WildMalformedIff(hostname: string, pat: string, patLen: nat)
    requires HasWildcard(pat)
    ensures DnMatch(hostname, pat, patLen).Malformed? <==> EndTest(pat, patLen) && ReachesTest(hostname, pat)
  {
    var left := LeftLength(pat);
    var p := pat[left + 1..];
    WildSplits(hostname, pat, left, p);
    if SameUpTo(hostname, "xn--", 4) || !SameUpTo(hostname, pat, left) {
      WildRefused(hostname, pat, patLen);
    } else {
      WildOutcome(hostname, pat, patLen, left, hostname[left..], p);
    }
  }

  // ----- what dn_match decides, for every length

  /** dn_match returns 0 exactly when its test for an early end fails and the name says so. */
  lemma MatchesIff(hostname: string, pat: string, patLen: nat)
    ensures DnMatch(hostname, pat, patLen).Matched? <==> !EndTest(pat, patLen) && TextMatches(hostname, pat)
  {
    if HasWildcard(pat) {
      WildMatchesIff(hostname, pat, patLen);
    } else {
      PlainBranch(hostname, pat, patLen);
      PlainSplits(hostname, pat, LeftLength(pat));
    }
  }

  /** Whether dn_match gets as far as its test for an early end of the pattern. */
  predicate ReachesTest(hostname: string, pat: string) {
    var left := LeftLength(pat);
    && SameUpTo(hostname, pat, left)
    && (HasWildcard(pat) ==>
          && !SameUpTo(hostname, "xn--", 4)
          && left <= |hostname|
          && FindChar(pat[left + 1..], '.') <= FindChar(hostname[left..], '.'))
  }

  /** It reports a malformed name exactly when it gets as far as the test and the test holds. */
  lemma MalformedIff(hostname: string, pat: string, patLen: nat)
    ensures DnMatch(hostname, pat, patLen).Malformed? <==> EndTest(pat, patLen) && ReachesTest(hostname, pat)
  {
    if HasWildcard(pat) {
      WildMalformedIff(hostname, pat, patLen);
    } else {
      PlainBranch(hostname, pat, patLen);
    }
  }

  // ----- certificate names

  const NUL: char := 0 as char

  /** The part of the data a C string function sees. */
  function Text(data: string): string { data[..FindChar(data, NUL)] }

  /** dn_match as its only caller uses it: the raw data of the name, and their length. */
  ghost function CertMatch(hostname: string, data: string): Result { DnMatch(hostname, Text(data), |data|) }

  lemma TextIsWhole(data: string)
    ensures |Text(data)| <= |data|
    ensures NUL !in data <==> |Text(data)| == |data|
    ensures NUL !in data ==> Text(data) == data
  {
    var k := FindChar(data, NUL);
    assert k < |data| ==> data[k] == NUL;
    assert k == |data| ==> forall c <- data :: c != NUL;
  }

  /** A certificate name matches exactly when its text does and it has a dot, unless it holds a NUL:
      then the text up to the NUL alone decides, dot or not. */
  lemma CertMatchesIff(hostname: string, data: string)
    requires |data| < TWO64 / 2
    ensures CertMatch(hostname, data).Matched? <==>
              TextMatches(hostname, Text(data)) && (NUL in data || '.' in data)
  {
    TextIsWhole(data);
    EndTestMeansNoDot(Text(data), |data|);
    MatchesIff(hostname, Text(data), |data|);
  }

  /** It is reported malformed exactly when it has neither NUL nor dot and the test is reached. */
  lemma CertMalformedIff(hostname: string, data: string)
    requires |data| < TWO64 / 2
    ensures CertMatch(hostname, data).Malformed? <==>
              NUL !in data && '.' !in data && ReachesTest(hostname, data)
  {
    TextIsWhole(data);
    EndTestMeansNoDot(Text(data), |data|);
    MalformedIff(hostname, Text(data), |data|);
  }

  /** The names the comment calls malformed and the code accepts: any name without wildcard, a NUL, and
      anything, for the host of that name. */
  lemma EmbeddedNulIsAccepted(name: string, more: string)
    requires NUL !in name && !HasWildcard(name) && |name| + 1 + |more| < TWO64 / 2
    ensures CertMatch(name, name + ([NUL] + more)).Matched?
  {
    var data := name + ([NUL] + more);
    FindCharAfter(name, [NUL] + more, NUL);
    assert data[|name|] == NUL;
    SameReflexive(name);
    CertMatchesIff(name, data);
  }
}
