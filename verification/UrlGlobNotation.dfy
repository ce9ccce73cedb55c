/**
 The notation that the groups of src/url_glob.c stand for: which texts are ranges and lists, what
 they denote, and that a URL written from literals and groups is cut into exactly these.
 */
module UrlGlobNotation {
  import opened Prelude
  import opened Decimals
  import opened Strings
  import opened Arithmetic
  import opened UrlGlobRange
  import UrlGlob

  // ----- written ranges

  /** start..end and start..end..step in braces, start-end and start-end:step in brackets. */
  function Written(open: char, b: Bounds): string {
    var braces := open == '{';
    b.start + ((if braces then ".." else "-")
               + (b.end + if b.step.None? then "" else (if braces then ".." else ":") + b.step.value))
  }

  /** One to nineteen decimal digits that denote a number a long can hold. */
  predicate IsNumber(s: string) { 1 <= |s| <= 19 && AllDigits(s) && Value(s) <= LONG_MAX }

  predicate IsLetter(s: string) { |s| == 1 && ('a' <= s[0] <= 'z' || 'A' <= s[0] <= 'Z') }

  predicate IsStep(step: Option<string>) {
    step.Some? ==> IsNumber(step.value) && 1 <= Value(step.value)
  }

  function StepOf(b: Bounds): (step: nat)
    requires IsStep(b.step)
    ensures 1 <= step
  {
    if b.step.None? then 1 else Value(b.step.value)
  }

  /** Two numbers, in brackets only upwards. */
  predicate IsNumbers(open: char, b: Bounds) {
    && IsNumber(b.start) && IsNumber(b.end) && IsStep(b.step)
    && (open == '{' || Value(b.start) <= Value(b.end))
  }

  /** Two letters, in brackets only upwards. */
  predicate IsLetters(open: char, b: Bounds) {
    && IsLetter(b.start) && IsLetter(b.end) && IsStep(b.step)
    && (open == '{' || b.start[0] <= b.end[0])
  }

  /** How many steps of that size lie between two numbers, both ends included. */
  function Steps(lo: nat, hi: nat, step: nat): (n: nat)
    requires 1 <= step
  {
    (if lo <= hi then hi - lo else lo - hi) / step + 1
  }

  /** The k-th number on the way from lo to hi. */
  function Nth(lo: nat, hi: nat, step: nat, k: nat): int { if lo <= hi then lo + k * step else lo - k * step }

  predicate IsZeroLed(s: string) { |s| > 1 && s[0] == '0' }

  /** The width numbers are padded to: the longer bound's when a bound has a leading zero. */
  function PadWidth(b: Bounds): nat {
    if IsZeroLed(b.start) || IsZeroLed(b.end) then Max(|b.start|, |b.end|) else 0
  }

  // ----- finding the separators

  lemma FindSeparator(a: string, sep: string, rest: string)
    requires sep != "" && sep[0] !in a
    ensures Find(a + (sep + rest), sep) == |a|
    ensures Cut(a + (sep + rest), sep) == Some((a, rest))
  {
    var s := a + (sep + rest);
    assert s[|a|..|a| + |sep|] == sep;
    assert At(s, sep, |a|);
    FoundOutside(s, sep, a);
    assert s[..|a|] == a && s[|a| + |sep|..] == rest;
  }

  /** A separator is not found where its first character does not occur. */
  lemma FoundOutside(s: string, sep: string, a: string)
    requires sep != "" && sep[0] !in a && a <= s
    ensures Find(s, sep) >= |a|
  {
    forall j | 0 <= j < |a|
      ensures !At(s, sep, j)
    {
      assert s[j] == a[j] != sep[0];
      assert j + |sep| <= |s| ==> s[j..j + |sep|][0] == s[j];
    }
    assert Find(s, sep) < |s| ==> At(s, sep, Find(s, sep));
  }

  lemma NoSeparator(a: string, sep: string)
    requires sep != "" && sep[0] !in a
    ensures Find(a, sep) == |a| && Cut(a, sep).None?
  {
    FoundOutside(a, sep, a);
  }

  lemma SplitGivesBounds(b: Bounds, sep: string, stepSep: string)
    requires sep != "" && stepSep != "" && sep[0] !in b.start && stepSep[0] !in b.end
    ensures Split(b.start + (sep + (b.end + if b.step.None? then "" else stepSep + b.step.value)), sep, stepSep)
            == Some(b)
  {
    var rest := b.end + if b.step.None? then "" else stepSep + b.step.value;
    FindSeparator(b.start, sep, rest);
    if b.step.None? {
      assert rest == b.end;
      NoSeparator(b.end, stepSep);
    } else {
      FindSeparator(b.end, stepSep, b.step.value);
    }
  }

  predicate IsPlain(s: string) { forall c <- s :: IsDigit(c) || IsAlpha(c) }

  /** A written range is split into its parts. */
  lemma WrittenIsSplit(open: char, b: Bounds)
    requires IsPlain(b.start) && IsPlain(b.end)
    ensures SplitFor(open, Written(open, b)) == Some(b)
    ensures open == '{' ==> Find(Written(open, b), "..") < |Written(open, b)|
  {
    if open == '{' {
      SplitGivesBounds(b, "..", "..");
      FindSeparator(b.start, "..", b.end + if b.step.None? then "" else ".." + b.step.value);
    } else {
      SplitGivesBounds(b, "-", ":");
    }
  }

  /** What splits into some bounds is their written form. */
  lemma SplitIsWritten(open: char, c: string)
    requires SplitFor(open, c).Some?
    ensures c == Written(open, SplitFor(open, c).value)
  {
    var sep, stepSep := if open == '{' then ".." else "-", if open == '{' then ".." else ":";
    assert SplitFor(open, c) == Split(c, sep, stepSep);
    CutIsExact(c, sep);
    var rest := Cut(c, sep).value.1;
    CutIsExact(rest, stepSep);
    if Cut(rest, stepSep).None? {
      assert rest + "" == rest;
    }
  }

  // ----- what a range denotes

  lemma BoundsArePlain(open: char, b: Bounds)
    requires IsNumbers(open, b) || IsLetters(open, b)
    ensures IsPlain(b.start) && IsPlain(b.end)
  {
  }

  lemma RangeIsBuilt(open: char, b: Bounds)
    requires IsPlain(b.start) && IsPlain(b.end) && RangeOf(open, b).Some?
    ensures var r := RangeOf(open, b).value;
            && InRange(r)
            && BuildPattern(open, Written(open, b))
               == if r.Count() > MAX_URLS then TooMany else Group(RangeTexts(r))
  {
    WrittenIsSplit(open, b);
    RangeOfInRange(open, b);
  }

  lemma NumbersAreARange(open: char, b: Bounds)
    requires IsNumbers(open, b)
    ensures RangeOf(open, b) == Some(Range(Value(b.start), Value(b.end), StepOf(b), true, PadWidth(b)))
  {
  }

  lemma LettersAreARange(open: char, b: Bounds)
    requires IsLetters(open, b)
    ensures RangeOf(open, b) == Some(Range(b.start[0] as int, b.end[0] as int, StepOf(b), false, 0))
  {
    assert b.start[0] in b.start && !IsDigit(b.start[0]);
  }

  /** Two numbers and a step denote the numbers from the first on, a step apart, as long as they do
      not pass the second, in decimal and padded with zeros when a bound has a leading zero. */
  lemma NumbersDenote(open: char, b: Bounds)
    requires IsNumbers(open, b)
    ensures var lo, hi, step := Value(b.start), Value(b.end), StepOf(b);
            var built := BuildPattern(open, Written(open, b));
            && (built.TooMany? <==> Steps(lo, hi, step) > MAX_URLS)
            && (Steps(lo, hi, step) <= MAX_URLS ==>
                 && built.Group? && |built.alts| == Steps(lo, hi, step)
                 && forall k | 0 <= k < |built.alts| ::
                      0 <= Nth(lo, hi, step, k) && built.alts[k] == Padded(Nth(lo, hi, step, k), PadWidth(b)))
  {
    BoundsArePlain(open, b);
    NumbersAreARange(open, b);
    RangeIsBuilt(open, b);
    NumericTexts(RangeOf(open, b).value);
  }

  lemma NumericTexts(r: Range)
    requires InRange(r) && r.numeric
    ensures |RangeTexts(r)| == Steps(r.lo, r.hi, r.step)
    ensures forall k | 0 <= k < |RangeTexts(r)| ::
              0 <= Nth(r.lo, r.hi, r.step, k) && RangeTexts(r)[k] == Padded(Nth(r.lo, r.hi, r.step, k), r.width)
  {
    forall k | 0 <= k < |RangeTexts(r)|
      ensures 0 <= Nth(r.lo, r.hi, r.step, k) && RangeTexts(r)[k] == Padded(Nth(r.lo, r.hi, r.step, k), r.width)
    {
      ItemStaysInside(r, k);
      assert Nth(r.lo, r.hi, r.step, k) == r.Item(k);
    }
  }

  lemma CharTexts(r: Range)
    requires InRange(r) && !r.numeric
    ensures |RangeTexts(r)| == Steps(r.lo, r.hi, r.step) <= MAX_URLS
    ensures forall k | 0 <= k < |RangeTexts(r)| ::
              0 <= Nth(r.lo, r.hi, r.step, k) < 128 && RangeTexts(r)[k] == [Nth(r.lo, r.hi, r.step, k) as char]
  {
    SmallQuotient(r.Span(), r.step);
    forall k | 0 <= k < |RangeTexts(r)|
      ensures 0 <= Nth(r.lo, r.hi, r.step, k) < 128 && RangeTexts(r)[k] == [Nth(r.lo, r.hi, r.step, k) as char]
    {
      ItemStaysInside(r, k);
      assert Nth(r.lo, r.hi, r.step, k) == r.Item(k);
    }
  }

  /** Two letters and a step denote the characters from the first on in the same way. */
  lemma LettersDenote(open: char, b: Bounds)
    requires IsLetters(open, b)
    ensures var lo, hi, step := b.start[0] as int, b.end[0] as int, StepOf(b);
            var built := BuildPattern(open, Written(open, b));
            && Steps(lo, hi, step) <= MAX_URLS && built.Group? && |built.alts| == Steps(lo, hi, step)
            && forall k | 0 <= k < |built.alts| ::
                 0 <= Nth(lo, hi, step, k) < 128 && built.alts[k] == [Nth(lo, hi, step, k) as char]
  {
    BoundsArePlain(open, b);
    LettersAreARange(open, b);
    RangeIsBuilt(open, b);
    CharTexts(RangeOf(open, b).value);
  }

  lemma SmallQuotient(n: nat, d: nat)
    requires 1 <= d
    ensures n / d <= n
  {
    QuotientBound(n, d);
  }

  // ----- lists

  lemma {:induction false} JoinIsSplit(items: seq<string>)
    requires 1 <= |items| && forall item <- items :: ',' !in item
    ensures SplitCommas(Join(items)) == items
    ensures |items| >= 2 ==> ',' in Join(items)
    decreases |items|
  {
    assert items[0] in items && forall item <- items[1..] :: item in items;
    if |items| == 1 {
      NoSeparatorChar(items[0]);
    } else {
      var rest := Join(items[1..]);
      JoinIsSplit(items[1..]);
      FirstItemIsCut(items[0], rest);
      assert [items[0]] + items[1..] == items;
    }
  }

  lemma FirstItemIsCut(item: string, rest: string)
    requires ',' !in item
    ensures SplitCommas(item + "," + rest) == [item] + SplitCommas(rest)
    ensures ',' in item + "," + rest
  {
    var s := item + "," + rest;
    assert s == item + ("," + rest);
    FindCharAfter(item, "," + rest, ',');
    assert s[|item| + 1..] == rest && s[|item|] == ',';
  }

  lemma NoSeparatorChar(s: string)
    requires ',' !in s
    ensures SplitCommas(s) == [s]
  {
    FindCharIs(s, ',', |s|);
  }

  /** A list in braces denotes its items, empty ones included, unless there are too many. */
  lemma ListDenotes(items: seq<string>)
    requires 2 <= |items| && forall item <- items :: ',' !in item
    requires forall j: nat :: !TwoDots(Join(items), j)
    ensures BuildPattern('{', Join(items)) == if |items| > MAX_URLS then TooMany else Group(items)
  {
    JoinIsSplit(items);
    DotsFoundIff(Join(items));
  }

  // ----- nothing else is a group

  ghost predicate IsRangeText(open: char, c: string) {
    exists b: Bounds :: (IsNumbers(open, b) || IsLetters(open, b)) && c == Written(open, b)
  }

  predicate TwoDots(c: string, j: nat) { j + 1 < |c| && c[j] == '.' && c[j + 1] == '.' }

  ghost predicate IsListText(open: char, c: string) {
    open == '{' && ',' in c && forall j: nat :: !TwoDots(c, j)
  }

  lemma RangeOfMeans(open: char, b: Bounds)
    requires open == '{' || open == '['
    ensures RangeOf(open, b).Some? <==> IsNumbers(open, b) || IsLetters(open, b)
  {
    if IsNumbers(open, b) {
      NumbersAreARange(open, b);
    }
    if IsLetters(open, b) {
      LettersAreARange(open, b);
    }
  }

  lemma RangeBuiltIff(open: char, c: string)
    requires open == '{' || open == '['
    ensures !BuildRange(open, c).NotAGroup? <==> IsRangeText(open, c)
  {
    if !BuildRange(open, c).NotAGroup? {
      var b := SplitFor(open, c).value;
      SplitIsWritten(open, c);
      RangeOfMeans(open, b);
    }
    if IsRangeText(open, c) {
      var b: Bounds :| (IsNumbers(open, b) || IsLetters(open, b)) && c == Written(open, b);
      BoundsArePlain(open, b);
      WrittenIsSplit(open, b);
      RangeOfMeans(open, b);
    }
  }

  lemma DotsFoundIff(c: string)
    ensures Find(c, "..") < |c| <==> exists j: nat :: TwoDots(c, j)
  {
    forall j: nat
      ensures At(c, "..", j) <==> TwoDots(c, j)
    {
      DotsAt(c, j);
    }
    var k := Find(c, "..");
    assert k < |c| ==> TwoDots(c, k);
  }

  lemma DotsAt(c: string, j: nat)
    ensures At(c, "..", j) <==> TwoDots(c, j)
  {
    if j + 2 <= |c| {
      assert c[j..j + 2] == [c[j], c[j + 1]];
    }
  }

  /** A text between braces or brackets is a group exactly when it is a written range of numbers or
      letters or, between braces and without two dots in a row, holds a comma. */
  lemma GroupIff(open: char, c: string)
    requires open == '{' || open == '['
    ensures !BuildPattern(open, c).NotAGroup? <==> IsRangeText(open, c) || IsListText(open, c)
  {
    RangeBuiltIff(open, c);
    DotsFoundIff(c);
    if open == '{' && IsRangeText(open, c) {
      var b: Bounds :| (IsNumbers(open, b) || IsLetters(open, b)) && c == Written(open, b);
      BoundsArePlain(open, b);
      WrittenIsSplit(open, b);
    }
  }

  // ----- written URLs

  function CloserOf(open: char): char { if open == '{' then '}' else ']' }

  /** A written URL: literals, and groups with their opener and content. */
  datatype Url =
    | End
    | Plain(text: string, rest: Url)
    | Choice(open: char, content: string, rest: Url)

  function ChoiceText(open: char, content: string): string { [open] + (content + [CloserOf(open)]) }

  function Text(u: Url): string {
    match u
    case End => ""
    case Plain(text, rest) => text + Text(rest)
    case Choice(open, content, rest) => ChoiceText(open, content) + Text(rest)
  }

  predicate IsLiteral(text: string) { text != "" && '{' !in text && '[' !in text }

  predicate IsChoice(build: UrlGlob.Builder, open: char, content: string) {
    (open == '{' || open == '[') && CloserOf(open) !in content && build(open, content).Group?
  }

  /** Literals are not empty, hold no opener and do not meet; groups are groups and end at their
      first closer. */
  predicate IsUrl(build: UrlGlob.Builder, u: Url) {
    match u
    case End => true
    case Plain(text, rest) => IsLiteral(text) && !rest.Plain? && IsUrl(build, rest)
    case Choice(open, content, rest) => IsChoice(build, open, content) && IsUrl(build, rest)
  }

  function LiteralSegs(literal: string): seq<UrlGlob.Seg> {
    if literal == "" then [] else [UrlGlob.Literal(literal)]
  }

  function ChoiceSeg(build: UrlGlob.Builder, open: char, content: string): UrlGlob.Seg
    requires IsChoice(build, open, content)
  {
    UrlGlob.Pattern(ChoiceText(open, content), build(open, content).alts)
  }

  /** The pieces it was written from. */
  function SegsOf(build: UrlGlob.Builder, u: Url): seq<UrlGlob.Seg>
    requires IsUrl(build, u)
  {
    match u
    case End => []
    case Plain(text, rest) => [UrlGlob.Literal(text)] + SegsOf(build, rest)
    case Choice(open, content, rest) => [ChoiceSeg(build, open, content)] + SegsOf(build, rest)
  }

  /** The text p stands at position i of a longer one. */
  predicate StandsAt(text: string, i: nat, p: string) { i + |p| <= |text| && text[i..i + |p|] == p }

  lemma FirstCloser(text: string, close: char, i: nat, content: string)
    requires StandsAt(text, i, content) && close !in content
    requires i + |content| < |text| && text[i + |content|] == close
    ensures UrlGlob.FindFrom(text, close, i) == i + |content|
  {
    var j := i + |content|;
    assert forall k | i <= k < j :: text[k] == text[i..j][k - i] && text[k] in content;
  }

  /** A written group is found where it stands, up to its closer. */
  lemma GroupIsFound(build: UrlGlob.Builder, text: string, i: nat, open: char, content: string)
    requires IsChoice(build, open, content) && StandsAt(text, i, ChoiceText(open, content))
    ensures UrlGlob.GroupAt(build, text, i) == (build(open, content), i + |content| + 2)
  {
    ChoiceParts(text, i, open, content);
    FirstCloser(text, CloserOf(open), i + 1, content);
  }

  lemma ChoiceParts(text: string, i: nat, open: char, content: string)
    requires StandsAt(text, i, ChoiceText(open, content))
    ensures i + |content| + 1 < |text| && text[i] == open && text[i + 1 + |content|] == CloserOf(open)
    ensures StandsAt(text, i + 1, content)
  {
    var here := ChoiceText(open, content);
    assert here[1..|content| + 1] == content;
    assert forall k | 0 <= k < |here| :: text[i + k] == text[i..i + |here|][k] == here[k];
    assert text[i + 1..i + 1 + |content|] == here[1..|content| + 1];
  }

  /** Nothing before the next group is one, when no opener stands there. */
  lemma NextGroupIs(build: UrlGlob.Builder, text: string, i: nat, k: nat)
    requires i <= k <= |text| && '{' !in text[i..k] && '[' !in text[i..k]
    requires k < |text| ==> UrlGlob.GroupAt(build, text, k).0.Group?
    ensures UrlGlob.NextGroup(build, text, i) == k
  {
    forall p | i <= p < k
      ensures UrlGlob.GroupAt(build, text, p).0.NotAGroup?
    {
      assert text[p] == text[i..k][p - i];
      assert text[p] in text[i..k];
    }
    NextGroupFrom(build, text, i, k);
  }

  lemma {:induction false} NextGroupFrom(build: UrlGlob.Builder, text: string, i: nat, k: nat)
    requires i <= k <= |text| && forall p | i <= p < k :: UrlGlob.GroupAt(build, text, p).0.NotAGroup?
    requires k < |text| ==> UrlGlob.GroupAt(build, text, k).0.Group?
    ensures UrlGlob.NextGroup(build, text, i) == k
    decreases k - i
  {
    if i >= k {
    } else {
      NextGroupFrom(build, text, i + 1, k);
    }
  }

  /** The scanner's cut of a text from position i on. */
  ghost predicate IsCut(build: UrlGlob.Builder, text: string, i: nat, segs: seq<UrlGlob.Seg>) {
    i <= |text| && UrlGlob.SegmentsFrom(build, text, i) == Some(segs)
  }

  lemma CutStep(build: UrlGlob.Builder, text: string, i: nat, k: nat, end: nat, alts: seq<string>,
                segs: seq<UrlGlob.Seg>)
    requires i <= k < |text| && UrlGlob.NextGroup(build, text, i) == k
    requires UrlGlob.GroupAt(build, text, k) == (Group(alts), end) && IsCut(build, text, end, segs)
    ensures k <= end <= |text|
    ensures IsCut(build, text, i, UrlGlob.LiteralPart(text, i, k) + [UrlGlob.Pattern(text[k..end], alts)] + segs)
  {
  }

  /** A group, perhaps after a literal, joins what the scanner makes of the rest. */
  lemma GroupIsCut(build: UrlGlob.Builder, text: string, i: nat, literal: string, open: char, content: string,
                   segs: seq<UrlGlob.Seg>)
    requires (literal == "" || IsLiteral(literal)) && StandsAt(text, i, literal)
    requires IsChoice(build, open, content) && StandsAt(text, i + |literal|, ChoiceText(open, content))
    requires IsCut(build, text, i + |literal| + |content| + 2, segs)
    ensures IsCut(build, text, i, LiteralSegs(literal) + [ChoiceSeg(build, open, content)] + segs)
  {
    var k := i + |literal|;
    GroupIsFound(build, text, k, open, content);
    NextGroupIs(build, text, i, k);
    CutStep(build, text, i, k, k + |content| + 2, build(open, content).alts, segs);
  }

  lemma LiteralIsCut(build: UrlGlob.Builder, text: string, i: nat, literal: string)
    requires (literal == "" || IsLiteral(literal)) && StandsAt(text, i, literal) && i + |literal| == |text|
    ensures IsCut(build, text, i, LiteralSegs(literal))
  {
    NextGroupIs(build, text, i, |text|);
  }

  lemma FirstStands(text: string, i: nat, a: string, b: string)
    requires i <= |text| && text[i..] == a + b
    ensures StandsAt(text, i, a) && text[i + |a|..] == b
  {
    assert text[i..i + |a|] == text[i..][..|a|];
    assert text[i + |a|..] == text[i..][|a|..];
  }

  lemma ChoiceStands(text: string, i: nat, literal: string, open: char, content: string, rest: string)
    requires i <= |text| && text[i..] == literal + (ChoiceText(open, content) + rest)
    ensures StandsAt(text, i, literal) && StandsAt(text, i + |literal|, ChoiceText(open, content))
    ensures i + |literal| + |content| + 2 <= |text| && text[i + |literal| + |content| + 2..] == rest
  {
    FirstStands(text, i, literal, ChoiceText(open, content) + rest);
    FirstStands(text, i + |literal|, ChoiceText(open, content), rest);
  }

  lemma RegroupSegs(a: seq<UrlGlob.Seg>, b: seq<UrlGlob.Seg>, c: seq<UrlGlob.Seg>)
    ensures (a + b) + c == a + (b + c)
    ensures [] + c == c
  {
  }

  lemma RegroupTexts(a: string, b: string)
    ensures "" + (a + b) == a + b && a + "" == a && "" + b == b
  {
  }

  lemma EndIsCut(build: UrlGlob.Builder, text: string, i: nat, literal: string)
    requires literal == "" || IsLiteral(literal)
    requires i <= |text| && text[i..] == literal + ""
    ensures IsCut(build, text, i, LiteralSegs(literal) + [])
  {
    FirstStands(text, i, literal, "");
    LiteralIsCut(build, text, i, literal);
    assert LiteralSegs(literal) + [] == LiteralSegs(literal);
  }

  lemma LiteralJoins(literal: string, segs: seq<UrlGlob.Seg>)
    requires literal != ""
    ensures LiteralSegs("") + ([UrlGlob.Literal(literal)] + segs) == LiteralSegs(literal) + segs
  {
  }

  lemma ChoiceIsCut(build: UrlGlob.Builder, text: string, i: nat, literal: string, open: char, content: string,
                    next: nat, cut: Option<seq<UrlGlob.Seg>>, segs: seq<UrlGlob.Seg>)
    requires next == i + |literal| + |content| + 2 <= |text|
    requires (literal == "" || IsLiteral(literal)) && StandsAt(text, i, literal)
    requires IsChoice(build, open, content) && StandsAt(text, i + |literal|, ChoiceText(open, content))
    requires UrlGlob.SegmentsFrom(build, text, next) == cut == Some(LiteralSegs("") + segs)
    ensures IsCut(build, text, i, LiteralSegs(literal) + ([ChoiceSeg(build, open, content)] + segs))
  {
    RegroupSegs(LiteralSegs(literal), [ChoiceSeg(build, open, content)], segs);
    GroupIsCut(build, text, i, literal, open, content, segs);
  }

  /** The scanner cuts what was written from position i on, after a literal that has been passed. */
  lemma {:induction false} WrittenIsCut(build: UrlGlob.Builder, text: string, i: nat, literal: string, u: Url)
    requires IsUrl(build, u) && (literal == "" || (IsLiteral(literal) && !u.Plain?))
    requires i <= |text| && text[i..] == literal + Text(u)
    ensures IsCut(build, text, i, LiteralSegs(literal) + SegsOf(build, u))
    decreases u
  {
    match u
    case End => EndIsCut(build, text, i, literal);
    case Plain(t, rest) =>
      RegroupTexts(t, Text(rest));
      WrittenIsCut(build, text, i, t, rest);
      LiteralJoins(t, SegsOf(build, rest));
    case Choice(open, content, rest) =>
      ChoiceStands(text, i, literal, open, content, Text(rest));
      RegroupTexts("", Text(rest));
      var next := i + |literal| + |content| + 2;
      var cut := UrlGlob.SegmentsFrom(build, text, next);
      WrittenIsCut(build, text, next, "", rest);
      ChoiceIsCut(build, text, i, literal, open, content, next, cut, SegsOf(build, rest));
  }

  /** The scanner finds in a written URL exactly the literals and groups it was written from. */
  lemma WrittenIsSegmented(u: Url)
    requires IsUrl(BuildPattern, u)
    ensures UrlGlob.Segments(Text(u)) == Some(SegsOf(BuildPattern, u))
  {
    RegroupTexts("", Text(u));
    RegroupSegs([], [], SegsOf(BuildPattern, u));
    WrittenIsCut(BuildPattern, Text(u), 0, "", u);
  }

  // ----- a URL with one group

  lemma GroupsOfOne(prefix: string, group: UrlGlob.Seg, suffix: string)
    requires group.Pattern?
    ensures var segs := [UrlGlob.Literal(prefix), group, UrlGlob.Literal(suffix)];
            && UrlGlob.Groups(segs) == [group.alts]
            && forall cap: string :: UrlGlob.Assemble(segs, [cap]) == prefix + (cap + suffix)
  {
    var last := [UrlGlob.Literal(suffix)];
    var rest := [group, UrlGlob.Literal(suffix)];
    var segs := [UrlGlob.Literal(prefix), group, UrlGlob.Literal(suffix)];
    assert segs[1..] == rest && rest[1..] == last && last[1..] == [];
    assert UrlGlob.Groups(last) == [];
    assert UrlGlob.Groups(rest) == [group.alts];
    assert UrlGlob.Groups(segs) == [group.alts];
    forall cap: string
      ensures UrlGlob.Assemble(segs, [cap]) == prefix + (cap + suffix)
    {
      assert [cap][1..] == [];
      assert UrlGlob.Assemble(last, []) == suffix + "" == suffix;
      assert UrlGlob.Assemble(rest, [cap]) == cap + suffix;
    }
  }

  function OneGroup(prefix: string, open: char, content: string, suffix: string): Url {
    Plain(prefix, Choice(open, content, Plain(suffix, End)))
  }

  lemma OneGroupIsUrl(build: UrlGlob.Builder, prefix: string, open: char, content: string, suffix: string)
    requires IsLiteral(prefix) && IsLiteral(suffix) && IsChoice(build, open, content)
    ensures var url := OneGroup(prefix, open, content, suffix);
            && IsUrl(build, url) && Text(url) == prefix + (ChoiceText(open, content) + suffix)
            && SegsOf(build, url)
               == [UrlGlob.Literal(prefix), ChoiceSeg(build, open, content), UrlGlob.Literal(suffix)]
  {
    var last := Plain(suffix, End);
    var rest := Choice(open, content, last);
    RegroupTexts(suffix, "");
    assert IsUrl(build, End);
    assert IsUrl(build, last);
    assert IsUrl(build, rest);
    assert Text(last) == suffix + Text(End) == suffix;
    assert Text(rest) == ChoiceText(open, content) + Text(last);
    assert SegsOf(build, last) == [UrlGlob.Literal(suffix)] + SegsOf(build, End) == [UrlGlob.Literal(suffix)];
    assert SegsOf(build, rest) == [ChoiceSeg(build, open, content)] + SegsOf(build, last);
  }

  lemma OneDigit(alts: seq<string>, n: nat)
    requires n < |alts|
    ensures UrlGlob.NonEmpty([alts]) && UrlGlob.Product([alts]) == |alts|
    ensures UrlGlob.Pick([alts], UrlGlob.Digits(n, [alts])) == [alts[n]]
  {
    assert [alts][..0] == [];
    DivModIs(n, |alts|, 0, n);
    assert UrlGlob.Digits(n, [alts]) == [n];
  }

  /** A literal, a group and a literal expand to one URL for each alternative, in order. */
  lemma OneGroupExpands(prefix: string, open: char, content: string, suffix: string, maxLen: nat)
    requires IsLiteral(prefix) && IsLiteral(suffix) && IsChoice(BuildPattern, open, content)
    requires UrlGlob.Expand(prefix + (ChoiceText(open, content) + suffix), maxLen).Some?
    ensures var items := UrlGlob.Expand(prefix + (ChoiceText(open, content) + suffix), maxLen).value;
            var alts := BuildPattern(open, content).alts;
            && |items| == |alts|
            && forall k | 0 <= k < |alts| ::
                 items[k].caps == [alts[k]] && items[k].url == prefix + (alts[k] + suffix)
  {
    var group := ChoiceSeg(BuildPattern, open, content);
    OneGroupIsUrl(BuildPattern, prefix, open, content, suffix);
    WrittenIsSegmented(OneGroup(prefix, open, content, suffix));
    GroupsOfOne(prefix, group, suffix);
    GroupSize(open, content);
    ExpandedItems(prefix + (ChoiceText(open, content) + suffix), maxLen,
                  [UrlGlob.Literal(prefix), group, UrlGlob.Literal(suffix)], BuildPattern(open, content).alts);
  }

  lemma ExpandedItems(src: string, maxLen: nat, segs: seq<UrlGlob.Seg>, alts: seq<string>)
    requires UrlGlob.Expand(src, maxLen).Some? && UrlGlob.Segments(src) == Some(segs)
    requires UrlGlob.Groups(segs) == [alts] && 1 <= |alts|
    ensures var items := UrlGlob.Expand(src, maxLen).value;
            && |items| == |alts|
            && forall k | 0 <= k < |alts| ::
                 items[k].caps == [alts[k]] && items[k].url == UrlGlob.Assemble(segs, [alts[k]])
  {
    UrlGlob.ExpandIsProduct(src, maxLen);
    OneDigit(alts, 0);
    forall k | 0 <= k < |alts|
      ensures var item := UrlGlob.Expand(src, maxLen).value[k];
              item.caps == [alts[k]] && item.url == UrlGlob.Assemble(segs, [alts[k]])
    {
      OneDigit(alts, k);
    }
  }
}
