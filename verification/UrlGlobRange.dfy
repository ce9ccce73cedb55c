/**
 The groups of src/url_glob.c: comma lists, and numeric or single-character ranges with optional
 step and zero padding.
 */
module UrlGlobRange {
  import opened Prelude
  import opened Arithmetic
  import opened Decimals
  import opened Strings

  const MAX_URLS := 10000

  /** What a builder returns: 0 (leave the text alone), -1, or the alternatives. */
  datatype Built = NotAGroup | TooMany | Group(alts: seq<string>)

  predicate IsAlpha(c: char) { 'a' <= c <= 'z' || 'A' <= c <= 'Z' }

  // ----- numbers

  /** What parse_uint accepts. */
  function Uint(s: string): Option<int> {
    if 1 <= |s| <= 19 && AllDigits(s) && Value(s) <= LONG_MAX then Some(Value(s)) else None
  }

  /** parse_uint.  The accumulator is an unsigned long long; that it never wraps is checked at
      every operation. */
  method ParseUint(s: string) returns (r: Option<long>)
    ensures r.None? <==> Uint(s).None?
    ensures r.Some? ==> r.value as int == Uint(s).value
  {
    var v: ulong := 0;
    if |s| == 0 || |s| > 19 {
      return None;
    }
    var i := 0;
    while i < |s|
      invariant 0 <= i <= |s| && AllDigits(s[..i])
      invariant v as int == Value(s[..i]) <= LONG_MAX
    {
      if !IsDigit(s[i]) {
        assert s[i] in s;
        return None;
      }
      assert s[..i + 1][..i] == s[..i];
      assert s[..i + 1] == s[..i] + [s[i]];
      ValueBound(s[..i]);
      Power10Monotone(i, 18);
      assert Power10(18) == 1_000_000_000_000_000_000 by { Power18(); }
      v := v * 10 + DigitValue(s[i]) as ulong;
      if v > LONG_MAX as ulong {
        if AllDigits(s) {
          ValuePrefix(s, i + 1);
        }
        return None;
      }
      i := i + 1;
    }
    assert s[..|s|] == s;
    r := Some(v as long);
  }

  lemma Power18()
    ensures Power10(18) == 1_000_000_000_000_000_000
  {
    assert Power10(3) == 1000;
    assert Power10(6) == 1_000_000;
    assert Power10(9) == 1_000_000_000;
    assert Power10(12) == 1_000_000_000_000;
    assert Power10(15) == 1_000_000_000_000_000;
  }

  // ----- splitting the content of a range

  datatype Bounds = Bounds(start: string, end: string, step: Option<string>)

  /** The text before and after the first separator. */
  function Cut(s: string, sep: string): Option<(string, string)>
    requires sep != ""
  {
    var k := Find(s, sep);
    if k == |s| then None else Some((s[..k], s[k + |sep|..]))
  }

  /** start SEP end, or start SEP end STEPSEP step: "..", ".." in braces, "-", ":" in brackets. */
  function Split(c: string, sep: string, stepSep: string): Option<Bounds>
    requires sep != "" && stepSep != ""
  {
    var cut := Cut(c, sep);
    if cut.None? then None else
    var (start, rest) := cut.value;
    var cut2 := Cut(rest, stepSep);
    if cut2.None? then Some(Bounds(start, rest, None))
    else Some(Bounds(start, cut2.value.0, Some(cut2.value.1)))
  }

  function SplitFor(open: char, c: string): Option<Bounds> {
    if open == '{' then Split(c, "..", "..") else Split(c, "-", ":")
  }

  /** A text is cut at its first separator, and not cut only for lack of one. */
  lemma CutIsExact(s: string, sep: string)
    requires sep != ""
    ensures match Cut(s, sep)
            case None => forall j: nat :: !At(s, sep, j)
            case Some((a, b)) => s == a + (sep + b) && forall j: nat | At(s, sep, j) :: |a| <= j
  {
    var k := Find(s, sep);
    if k < |s| {
      assert s[k..k + |sep|] == sep;
      assert s == s[..k] + (sep + s[k + |sep|..]);
    }
  }

  // ----- ranges

  datatype Range = Range(lo: int, hi: int, step: int, numeric: bool, width: nat)
  {
    predicate Ascending() { lo <= hi }

    function Span(): nat { if lo <= hi then hi - lo else lo - hi }

    function Count(): nat
      requires 1 <= step
    {
      Span() / step + 1
    }

    function Item(k: nat): int { if lo <= hi then lo + k * step else lo - k * step }
  }

  /** The range the bounds describe, or None when they do not describe one. */
  function RangeOf(open: char, b: Bounds): Option<Range> {
    var step := if b.step.None? then Some(1) else Uint(b.step.value);
    if step.None? || step.value < 1 then None
    else if Uint(b.start).Some? && Uint(b.end).Some? then
      var lead := (|b.start| > 1 && b.start[0] == '0') || (|b.end| > 1 && b.end[0] == '0');
      var r := Range(Uint(b.start).value, Uint(b.end).value, step.value, true,
                     if lead then Max(|b.start|, |b.end|) else 0);
      if open == '[' && !r.Ascending() then None else Some(r)
    else if |b.start| == 1 && |b.end| == 1 && IsAlpha(b.start[0]) && IsAlpha(b.end[0]) then
      var r := Range(b.start[0] as int, b.end[0] as int, step.value, false, 0);
      if open == '[' && !r.Ascending() then None else Some(r)
    else None
  }

  predicate InRange(r: Range) {
    && 0 <= r.lo <= LONG_MAX && 0 <= r.hi <= LONG_MAX && 1 <= r.step <= LONG_MAX
    && (!r.numeric ==> r.lo < 128 && r.hi < 128)
  }

  function Text(r: Range, v: int): string
    requires InRange(r) && Min(r.lo, r.hi) <= v <= Max(r.lo, r.hi)
  {
    if r.numeric then Padded(v, r.width) else [v as char]
  }

  lemma StepsFit(span: nat, step: int, k: nat)
    requires 1 <= step && k <= span / step
    ensures 0 <= k * step <= span
  {
    var q := span / step;
    assert span == step * q + span % step;
    MulMonotone(step, k, q);
    MulMonotone(step, 0, k);
  }

  lemma ItemStaysInside(r: Range, k: nat)
    requires InRange(r) && k < r.Count()
    ensures k * r.step <= r.Span()
    ensures Min(r.lo, r.hi) <= r.Item(k) <= Max(r.lo, r.hi)
  {
    StepsFit(r.Span(), r.step, k);
  }

  /** One more step would pass the end. */
  lemma NextItemPassesEnd(r: Range)
    requires InRange(r)
    ensures if r.Ascending() then r.Item(r.Count()) > r.hi else r.Item(r.Count()) < r.hi
  {
    var q := r.Span() / r.step;
    assert r.Span() == q * r.step + r.Span() % r.step;
    assert (q + 1) * r.step == q * r.step + r.step;
  }

  function RangeTexts(r: Range): (ts: seq<string>)
    requires InRange(r)
    ensures |ts| == r.Count()
  {
    seq(r.Count(), k requires 0 <= k < r.Count() => ItemStaysInside(r, k); Text(r, r.Item(k)))
  }

  lemma RangeOfInRange(open: char, b: Bounds)
    ensures var r := RangeOf(open, b); r.Some? ==> InRange(r.value)
  {
  }

  /** build_range. */
  function BuildRange(open: char, c: string): Built {
    var b := SplitFor(open, c);
    if b.None? then NotAGroup else
    var r := RangeOf(open, b.value);
    if r.None? then NotAGroup
    else
      RangeOfInRange(open, b.value);
      if r.value.Count() > MAX_URLS then TooMany else Group(RangeTexts(r.value))
  }

  /** What RangeOf knows about numeric bounds. */
  lemma NumericBounds(open: char, b: Bounds)
    requires RangeOf(open, b).Some? && RangeOf(open, b).value.numeric
    ensures var r := RangeOf(open, b).value;
            && 1 <= |b.start| <= 19 && AllDigits(b.start) && r.lo == Value(b.start)
            && 1 <= |b.end| <= 19 && AllDigits(b.end) && r.hi == Value(b.end)
            && (r.width == 0 || r.width == Max(|b.start|, |b.end|))
  {
  }

  lemma NumericItem(open: char, b: Bounds, v: int)
    requires RangeOf(open, b).Some? && RangeOf(open, b).value.numeric
    requires var r := RangeOf(open, b).value; Min(r.lo, r.hi) <= v <= Max(r.lo, r.hi)
    ensures var r := RangeOf(open, b).value;
            && 0 <= v && Uint(Padded(v, r.width)) == Some(v) && |Padded(v, r.width)| <= 19
            && (r.width > 0 ==> |Padded(v, r.width)| == r.width)
  {
    RangeOfInRange(open, b);
    NumericBounds(open, b);
    var r := RangeOf(open, b).value;
    if r.lo <= r.hi {
      DecimalNoLonger(v, b.end);
    } else {
      DecimalNoLonger(v, b.start);
    }
    PaddedValue(v, r.width);
  }

  /** Every item of an accepted range is what the notation promises: equally spaced from the first
      bound, none past the second; numeric items read back as their value, none needs more than 19
      of the 32 bytes they are printed to, and all have one length when either bound is
      zero-padded.  (NextItemPassesEnd says that none is missing.) */
  lemma RangeIsExact(open: char, b: Bounds, k: nat)
    requires RangeOf(open, b).Some? && InRange(RangeOf(open, b).value)
    requires k < RangeOf(open, b).value.Count()
    ensures var r := RangeOf(open, b).value;
            var text := RangeTexts(r)[k];
            && Min(r.lo, r.hi) <= r.Item(k) <= Max(r.lo, r.hi)
            && r.Item(0) == r.lo
            && r.Item(k + 1) == (if r.Ascending() then r.Item(k) + r.step else r.Item(k) - r.step)
            && (r.numeric ==> Uint(text) == Some(r.Item(k)))
            && (r.numeric && r.width > 0 ==> |text| == r.width)
            && (!r.numeric ==> text == [r.Item(k) as char])
            && |text| <= 19
  {
    var r := RangeOf(open, b).value;
    ItemStaysInside(r, k);
    assert RangeTexts(r)[k] == Text(r, r.Item(k));
    assert (k + 1) * r.step == k * r.step + r.step;
    if r.numeric {
      NumericItem(open, b, r.Item(k));
    }
  }

  // ----- the code of build_range

  method Fill(r: Range, count: nat) returns (alts: array<string>)
    requires InRange(r) && count == r.Count() <= MAX_URLS
    requires forall k | 0 <= k < count :: |RangeTexts(r)[k]| < 32  // sizeof(buf)
    ensures fresh(alts) && alts[..] == RangeTexts(r)
  {
    var lo, hi, stepv := r.lo as long, r.hi as long, r.step as long;
    var ascending := lo <= hi;
    alts := new string[count](_ => "");
    var k := 0;
    while k < count
      invariant 0 <= k <= count
      invariant alts[..k] == RangeTexts(r)[..k]
    {
      ItemStaysInside(r, k);
      // Neither the product nor the sum leaves the range of long.
      var v: long := if ascending then lo + k as long * stepv else lo - k as long * stepv;
      alts[k] := if r.numeric then Padded(v as int, r.width) else [v as int as char];
      k := k + 1;
    }
    assert alts[..] == alts[..count];
  }

  /** The middle part of build_range: bounds, step and padding. */
  method ReadRange(open: char, b: Bounds) returns (r: Option<Range>)
    ensures r == RangeOf(open, b)
  {
    var stepv: long := 1;
    if b.step.Some? {
      var s := ParseUint(b.step.value);
      if s.None? || s.value < 1 {
        return None;
      }
      stepv := s.value;
    }
    var first := ParseUint(b.start);
    var last := ParseUint(b.end);
    var numeric := first.Some? && last.Some?;
    var alpha := |b.start| == 1 && |b.end| == 1 && IsAlpha(b.start[0]) && IsAlpha(b.end[0]);
    var lo, hi: long := 0, 0;
    if !numeric && alpha {
      lo, hi := b.start[0] as int as long, b.end[0] as int as long;
    } else if !numeric {
      return None;
    } else {
      lo, hi := first.value, last.value;
    }
    var ascending := lo <= hi;
    if open == '[' && !ascending {
      return None;
    }
    var width := 0;
    if numeric {
      var lead := (|b.start| > 1 && b.start[0] == '0') || (|b.end| > 1 && b.end[0] == '0');
      if lead {
        width := if |b.start| > |b.end| then |b.start| else |b.end|;
      }
    }
    r := Some(Range(lo as int, hi as int, stepv as int, numeric, width));
  }

  method BuildRangeImpl(open: char, c: string) returns (built: Built)
    ensures built == BuildRange(open, c)
  {
    var b := SplitFor(open, c);
    if b.None? {
      return NotAGroup;
    }
    var r := ReadRange(open, b.value);
    if r.None? {
      return NotAGroup;
    }
    RangeOfInRange(open, b.value);
    var count := CountItems(r.value);
    if count > MAX_URLS {
      return TooMany;
    }
    forall k | 0 <= k < r.value.Count()
      ensures |RangeTexts(r.value)[k]| < 32
    {
      RangeIsExact(open, b.value, k);
    }
    var alts := Fill(r.value, count);
    built := Group(alts[..]);
  }

  /** span / step + 1 in machine arithmetic. */
  method CountItems(r: Range) returns (count: nat)
    requires InRange(r)
    ensures count == r.Count()
  {
    var lo, hi, stepv := r.lo as long, r.hi as long, r.step as long;
    var span: ulong := if lo <= hi then (hi - lo) as ulong else (lo - hi) as ulong;
    assert span as int == r.Span();
    QuotientBound(r.Span(), r.step);
    var q: ulong := span / stepv as ulong;
    assert q as int == r.Span() / r.step;
    count := (q + 1) as nat;
  }

  // ----- lists

  /** The items between commas. */
  function SplitCommas(c: string): (items: seq<string>)
    ensures 1 <= |items|
  {
    var k := FindChar(c, ',');
    if k == |c| then [c] else [c[..k]] + SplitCommas(c[k + 1..])
  }

  function Join(items: seq<string>): string
    requires 1 <= |items|
  {
    if |items| == 1 then items[0] else items[0] + "," + Join(items[1..])
  }

  lemma JoinCons(item: string, items: seq<string>)
    requires 1 <= |items|
    ensures Join([item] + items) == item + "," + Join(items)
  {
    assert ([item] + items)[1..] == items;
  }

  /** The items of a list are exactly its text cut at every comma. */
  lemma {:induction false} SplitCommasExact(c: string)
    ensures Join(SplitCommas(c)) == c
    ensures forall item <- SplitCommas(c) :: ',' !in item
    decreases |c|
  {
    var k := FindChar(c, ',');
    if k == |c| {
      assert c[..k] == c;
    } else {
      var rest := SplitCommas(c[k + 1..]);
      SplitCommasExact(c[k + 1..]);
      JoinCons(c[..k], rest);
      assert c == c[..k] + "," + c[k + 1..];
      assert ',' !in c[..k];
    }
  }

  /** build_list. */
  function BuildList(c: string): Built {
    if |SplitCommas(c)| > MAX_URLS then TooMany else Group(SplitCommas(c))
  }

  /** The items from position `start` on; none after the end of the text. */
  function ItemsFrom(c: string, start: nat): seq<string> {
    if start <= |c| then SplitCommas(c[start..]) else []
  }

  lemma NextItem(c: string, start: nat, i: nat)
    requires start <= i <= |c| && (i < |c| ==> c[i] == ',')
    requires forall k | start <= k < i :: c[k] != ','
    ensures ItemsFrom(c, start) == [c[start..i]] + ItemsFrom(c, i + 1)
  {
    var s := c[start..];
    assert s[..i - start] == c[start..i];
    FindCharIs(s, ',', i - start);
    if i < |c| {
      assert s[i - start + 1..] == c[i + 1..];
    } else {
      assert s == c[start..i];
    }
  }

  method BuildListImpl(c: string) returns (built: Built)
    ensures built == BuildList(c)
  {
    var alts := CutAtCommas(c);
    built := if |alts| > MAX_URLS then TooMany else Group(alts);
  }

  /** Scans once, cutting at commas, as the second loop of build_list does. */
  method CutAtCommas(c: string) returns (alts: seq<string>)
    ensures alts == SplitCommas(c)
  {
    alts := [];
    var i, start := 0, 0;
    ghost var all, left := SplitCommas(c), ItemsFrom(c, 0);
    assert c[0..] == c;
    while i <= |c|
      invariant 0 <= start <= i <= |c| + 1 && (i == |c| + 1 ==> start == i)
      invariant left == ItemsFrom(c, start) && all == alts + left
      invariant forall k | start <= k < i :: c[k] != ','
    {
      if i == |c| || c[i] == ',' {
        alts, left := CutItem(c, start, i, alts, left);
        start := i + 1;
      }
      i := i + 1;
    }
    assert left == [];
  }

  /** Moves one item from what is left to what has been cut. */
  method CutItem(c: string, start: nat, i: nat, alts: seq<string>, ghost left: seq<string>)
    returns (alts': seq<string>, ghost left': seq<string>)
    requires start <= i <= |c| && (i < |c| ==> c[i] == ',')
    requires forall k | start <= k < i :: c[k] != ','
    requires left == ItemsFrom(c, start)
    ensures left' == ItemsFrom(c, i + 1) && alts' + left' == alts + left
  {
    NextItem(c, start, i);
    left' := ItemsFrom(c, i + 1);
    alts' := alts + [c[start..i]];
    assert alts + ([c[start..i]] + left') == alts' + left';
  }

  // ----- dispatch

  /** build_pattern. */
  function BuildPattern(open: char, c: string): Built {
    if open == '{' then
      if Find(c, "..") < |c| then BuildRange(open, c)
      else if ',' in c then BuildList(c)
      else NotAGroup
    else BuildRange(open, c)
  }

  method BuildPatternImpl(open: char, c: string) returns (built: Built)
    requires open == '{' || open == '['
    ensures built == BuildPattern(open, c)
  {
    if open == '{' {
      if Find(c, "..") < |c| {
        built := BuildRangeImpl(open, c);
      } else if ',' in c {
        built := BuildListImpl(c);
      } else {
        built := NotAGroup;
      }
    } else {
      built := BuildRangeImpl(open, c);
    }
  }

  /** A group has at least one and at most MAX_URLS alternatives. */
  lemma GroupSize(open: char, c: string)
    ensures var b := BuildPattern(open, c); b.Group? ==> 1 <= |b.alts| <= MAX_URLS
  {
    RangeGroupSize(open, c);
  }

  lemma RangeGroupSize(open: char, c: string)
    ensures var b := BuildRange(open, c); b.Group? ==> 1 <= |b.alts| <= MAX_URLS
  {
    var b := SplitFor(open, c);
    if b.Some? && RangeOf(open, b.value).Some? {
      RangeOfInRange(open, b.value);
      QuotientBound(RangeOf(open, b.value).value.Span(), RangeOf(open, b.value).value.step);
    }
  }
}
