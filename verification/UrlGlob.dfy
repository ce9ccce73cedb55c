/**
 url_glob of src/url_glob.c: the scanner that cuts a URL into literals and groups, and the odometer
 that expands it to the cartesian product of the groups, the rightmost varying fastest.
 */
module UrlGlob {
  import opened Prelude
  import opened Arithmetic
  import opened UrlGlobRange

  /** A piece of the URL.  `source` is the text it was read from; of a pattern the code itself keeps
      only the alternatives. */
  datatype Seg =
    | Literal(source: string)
    | Pattern(source: string, alts: seq<string>)

  datatype Item = Item(url: string, caps: seq<string>)

  // ----- segmentation

  /** How the content of a group is read; BuildPattern in the code. */
  type Builder = (char, string) -> Built

  function Closer(open: char): char { if open == '{' then '}' else ']' }

  predicate IsOpener(c: char) { c == '{' || c == '[' }

  /** First position from i on that holds c, or |s|. */
  function FindFrom(s: string, c: char, i: nat): (j: nat)
    requires i <= |s|
    ensures i <= j <= |s| && (j < |s| ==> s[j] == c)
    ensures forall k | i <= k < j :: s[k] != c
    decreases |s| - i
  {
    if i == |s| || s[i] == c then i else FindFrom(s, c, i + 1)
  }

  /** The group that starts at position i: its alternatives and the position after its closer. */
  function GroupAt(build: Builder, src: string, i: nat): (r: (Built, nat))
    requires i < |src|
    ensures i < r.1 <= |src|
  {
    if !IsOpener(src[i]) then (NotAGroup, i + 1) else
    var j := FindFrom(src, Closer(src[i]), i + 1);
    if j == |src| then (NotAGroup, i + 1) else (build(src[i], src[i + 1..j]), j + 1)
  }

  /** First position from i on where a group starts or is refused, or |src|. */
  function NextGroup(build: Builder, src: string, i: nat): (k: nat)
    requires i <= |src|
    ensures i <= k <= |src|
    ensures forall p | i <= p < k :: GroupAt(build, src, p).0.NotAGroup?
    ensures k < |src| ==> !GroupAt(build, src, k).0.NotAGroup?
    decreases |src| - i
  {
    if i == |src| || !GroupAt(build, src, i).0.NotAGroup? then i else NextGroup(build, src, i + 1)
  }

  function LiteralPart(src: string, i: nat, k: nat): seq<Seg>
    requires i <= k <= |src|
  {
    if i < k then [Literal(src[i..k])] else []
  }

  /** The pieces from position i on, or None when a group is too large. */
  function SegmentsFrom(build: Builder, src: string, i: nat): Option<seq<Seg>>
    requires i <= |src|
    decreases |src| - i
  {
    var k := NextGroup(build, src, i);
    if k == |src| then Some(LiteralPart(src, i, k)) else
    var (built, end) := GroupAt(build, src, k);
    if built.TooMany? then None else
    var rest := SegmentsFrom(build, src, end);
    if rest.None? then None
    else Some(LiteralPart(src, i, k) + [Pattern(src[k..end], built.alts)] + rest.value)
  }

  function Sources(segs: seq<Seg>): string {
    if segs == [] then "" else segs[0].source + Sources(segs[1..])
  }

  /** A pattern is an opener, a content some builder accepted, and the first closer after it. */
  ghost predicate WellBuilt(build: Builder, s: Seg) {
    s.Pattern? ==>
      && |s.source| >= 2 && IsOpener(s.source[0])
      && s.source[|s.source| - 1] == Closer(s.source[0])
      && Closer(s.source[0]) !in s.source[1..|s.source| - 1]
      && build(s.source[0], s.source[1..|s.source| - 1]) == Group(s.alts)
  }

  lemma {:induction false} SourcesAppend(a: seq<Seg>, b: seq<Seg>)
    ensures Sources(a + b) == Sources(a) + Sources(b)
    decreases |a|
  {
    if a == [] {
      assert a + b == b;
    } else {
      assert (a + b)[1..] == a[1..] + b;
      SourcesAppend(a[1..], b);
    }
  }

  lemma PatternWellBuilt(build: Builder, src: string, k: nat)
    requires k < |src| && GroupAt(build, src, k).0.Group?
    ensures var (built, end) := GroupAt(build, src, k);
            k + 2 <= end <= |src| && WellBuilt(build, Pattern(src[k..end], built.alts))
  {
    var (built, end) := GroupAt(build, src, k);
    var source := src[k..end];
    assert source[1..|source| - 1] == src[k + 1..end - 1];
  }

  /** Segmentation loses nothing: the pieces put together are the URL. */
  lemma {:induction false} SegmentsTileSource(build: Builder, src: string, i: nat)
    requires i <= |src| && SegmentsFrom(build, src, i).Some?
    ensures Sources(SegmentsFrom(build, src, i).value) == src[i..]
    decreases |src| - i
  {
    var k := NextGroup(build, src, i);
    LiteralSource(src, i, k);
    if k >= |src| {
    } else {
      var (built, end) := GroupAt(build, src, k);
      SegmentsTileSource(build, src, end);
      var lit, p, rest := LiteralPart(src, i, k), Pattern(src[k..end], built.alts), SegmentsFrom(build, src, end).value;
      assert SegmentsFrom(build, src, i).value == lit + [p] + rest;
      SourcesOfPieces(lit, p, rest);
      ThreeSlices(src, i, k, end);
    }
  }

  lemma ThreeSlices(src: string, i: nat, k: nat, end: nat)
    requires i <= k <= end <= |src|
    ensures src[i..k] + src[k..end] + src[end..] == src[i..]
  {
  }

  lemma LiteralSource(src: string, i: nat, k: nat)
    requires i <= k <= |src|
    ensures Sources(LiteralPart(src, i, k)) == src[i..k]
  {
    var lit := LiteralPart(src, i, k);
    if lit != [] {
      assert lit[1..] == [] && src[i..k] + "" == src[i..k];
    }
  }

  lemma SourcesOfPieces(lit: seq<Seg>, p: Seg, rest: seq<Seg>)
    ensures Sources(lit + [p] + rest) == Sources(lit) + p.source + Sources(rest)
  {
    SourcesAppend(lit + [p], rest);
    SourcesAppend(lit, [p]);
    assert [p][1..] == [] && p.source + "" == p.source;
  }

  /** No literal is empty, no two literals meet, and every pattern is a group of the grammar. */
  lemma {:induction false} SegmentsAreWellBuilt(build: Builder, src: string, i: nat)
    requires i <= |src| && SegmentsFrom(build, src, i).Some?
    ensures var segs := SegmentsFrom(build, src, i).value;
            && (forall s <- segs :: WellBuilt(build, s) && s.source != "")
            && (forall j | 0 <= j < |segs| - 1 :: segs[j].Pattern? || segs[j + 1].Pattern?)
    decreases |src| - i
  {
    var k := NextGroup(build, src, i);
    if k >= |src| {
    } else {
      var (built, end) := GroupAt(build, src, k);
      PatternWellBuilt(build, src, k);
      SegmentsAreWellBuilt(build, src, end);
    }
  }

  /** There are never more pieces than characters. */
  lemma {:induction false} SegmentsFit(build: Builder, src: string, i: nat)
    requires i <= |src| && SegmentsFrom(build, src, i).Some?
    ensures |SegmentsFrom(build, src, i).value| <= |src| - i
    decreases |src| - i
  {
    var k := NextGroup(build, src, i);
    if k == |src| {
    } else {
      SegmentsFit(build, src, GroupAt(build, src, k).1);
    }
  }

  // ----- the reference meaning of an expansion

  function Groups(segs: seq<Seg>): seq<seq<string>> {
    if segs == [] then []
    else (if segs[0].Pattern? then [segs[0].alts] else []) + Groups(segs[1..])
  }

  function Product(groups: seq<seq<string>>): nat {
    if groups == [] then 1 else Product(groups[..|groups| - 1]) * |groups[|groups| - 1]|
  }

  /** Every choice of `prefixes` followed by every alternative, prefixes outermost. */
  function Cross(prefixes: seq<seq<string>>, alts: seq<string>): seq<seq<string>> {
    if prefixes == [] then []
    else seq(|alts|, a requires 0 <= a < |alts| => prefixes[0] + [alts[a]]) + Cross(prefixes[1..], alts)
  }

  /** The cartesian product of the groups in order. */
  function Choices(groups: seq<seq<string>>): seq<seq<string>> {
    if groups == [] then [[]]
    else Cross(Choices(groups[..|groups| - 1]), groups[|groups| - 1])
  }

  /** The URL for one choice of captures. */
  function Assemble(segs: seq<Seg>, caps: seq<string>): string
    requires |caps| == |Groups(segs)|
  {
    if segs == [] then ""
    else if segs[0].Pattern? then caps[0] + Assemble(segs[1..], caps[1..])
    else segs[0].source + Assemble(segs[1..], caps)
  }

  lemma {:induction false} CrossAt(prefixes: seq<seq<string>>, alts: seq<string>, p: nat, a: nat)
    requires p < |prefixes| && a < |alts|
    ensures |Cross(prefixes, alts)| == |prefixes| * |alts|
    ensures p * |alts| + a < |prefixes| * |alts|
    ensures Cross(prefixes, alts)[p * |alts| + a] == prefixes[p] + [alts[a]]
    decreases |prefixes|
  {
    CrossSize(prefixes, alts);
    var rest := prefixes[1..];
    assert |prefixes| * |alts| == |alts| + |rest| * |alts|;
    if p != 0 {
      CrossAt(rest, alts, p - 1, a);
      assert p * |alts| + a == |alts| + ((p - 1) * |alts| + a);
    } else {
      assert 0 <= |rest| * |alts|;
    }
  }

  lemma {:induction false} CrossSize(prefixes: seq<seq<string>>, alts: seq<string>)
    ensures |Cross(prefixes, alts)| == |prefixes| * |alts|
    decreases |prefixes|
  {
    if prefixes == [] {
    } else {
      CrossSize(prefixes[1..], alts);
      assert |prefixes| * |alts| == |alts| + |prefixes[1..]| * |alts|;
    }
  }

  lemma {:induction false} ChoicesCount(groups: seq<seq<string>>)
    ensures |Choices(groups)| == Product(groups)
    ensures forall c <- Choices(groups) :: |c| == |groups|
    decreases |groups|
  {
    if groups == [] {
    } else {
      var m := |groups| - 1;
      ChoicesCount(groups[..m]);
      CrossSize(Choices(groups[..m]), groups[m]);
      CrossLengths(Choices(groups[..m]), groups[m], m);
    }
  }

  lemma {:induction false} CrossLengths(prefixes: seq<seq<string>>, alts: seq<string>, m: nat)
    requires forall c <- prefixes :: |c| == m
    ensures forall c <- Cross(prefixes, alts) :: |c| == m + 1
    decreases |prefixes|
  {
    if prefixes == [] {
    } else {
      assert prefixes[0] in prefixes;
      assert forall c <- prefixes[1..] :: c in prefixes;
      CrossLengths(prefixes[1..], alts, m);
    }
  }

  // ----- mixed-radix counting

  ghost predicate NonEmpty(groups: seq<seq<string>>) {
    forall g <- groups :: 1 <= |g|
  }

  /** The mixed-radix digits of n, the rightmost the least significant. */
  function Digits(n: nat, groups: seq<seq<string>>): (d: seq<nat>)
    requires NonEmpty(groups)
    ensures |d| == |groups|
    ensures forall k | 0 <= k < |d| :: d[k] < |groups[k]|
  {
    if groups == [] then [] else
    var m := |groups| - 1;
    var g := groups[m];
    assert g in groups && forall h <- groups[..m] :: h in groups;
    assert n / |g| >= 0 by { QuotientBound(n, |g|); }
    Digits(n / |g|, groups[..m]) + [n % |g|]
  }

  function Pick(groups: seq<seq<string>>, d: seq<nat>): (caps: seq<string>)
    requires |d| == |groups| && forall k | 0 <= k < |d| :: d[k] < |groups[k]|
    ensures |caps| == |groups|
  {
    seq(|d|, k requires 0 <= k < |d| => groups[k][d[k]])
  }

  lemma QuotientBelow(n: nat, p: nat, s: nat)
    requires 1 <= s && n < p * s
    ensures 0 <= n / s < p && n == n / s * s + n % s
  {
    var q := n / s;
    QuotientBound(n, s);
    assert n == s * q + n % s;
    assert q >= p ==> s * q >= s * p by {
      if q >= p { MulMonotone(s, p, q); }
    }
  }

  /** Choice number n of the cartesian product is read off the mixed-radix digits of n. */
  lemma {:induction false} ChoiceIsDigits(groups: seq<seq<string>>, n: nat)
    requires NonEmpty(groups) && n < Product(groups)
    ensures n < |Choices(groups)| && Choices(groups)[n] == Pick(groups, Digits(n, groups))
    decreases |groups|
  {
    if groups == [] {
    } else {
      var g, front := groups[|groups| - 1], groups[..|groups| - 1];
      LastGroup(groups);
      QuotientBelow(n, Product(front), |g|);
      var q: nat := n / |g|;
      ChoiceIsDigits(front, q);
      assert Digits(n, groups) == Digits(q, front) + [n % |g|];
      ChoiceStep(front, g, q, n % |g|, Digits(q, front));
    }
  }

  lemma LastGroup(groups: seq<seq<string>>)
    requires NonEmpty(groups) && groups != []
    ensures NonEmpty(groups[..|groups| - 1]) && 1 <= |groups[|groups| - 1]|
    ensures groups == groups[..|groups| - 1] + [groups[|groups| - 1]]
  {
    assert groups[|groups| - 1] in groups && forall h <- groups[..|groups| - 1] :: h in groups;
  }

  lemma ChoiceStep(front: seq<seq<string>>, g: seq<string>, q: nat, r: nat, d: seq<nat>)
    requires |d| == |front| && (forall k | 0 <= k < |d| :: d[k] < |front[k]|) && r < |g|
    requires q < |Choices(front)| && Choices(front)[q] == Pick(front, d)
    ensures var groups := front + [g];
            q * |g| + r < |Choices(groups)| && Choices(groups)[q * |g| + r] == Pick(groups, d + [r])
  {
    CrossAt(Choices(front), g, q, r);
    PickSnoc(front, d, g, r);
    assert (front + [g])[..|front|] == front;
  }

  lemma PickSnoc(front: seq<seq<string>>, d: seq<nat>, g: seq<string>, a: nat)
    requires |d| == |front| && (forall k | 0 <= k < |d| :: d[k] < |front[k]|) && a < |g|
    ensures Pick(front + [g], d + [a]) == Pick(front, d) + [g[a]]
  {
  }

  /** The carry loop over idx, from position k - 1 down. */
  function Carry(groups: seq<seq<string>>, d: seq<nat>, k: nat): seq<nat>
    requires k <= |d| == |groups|
    decreases k
  {
    if k == 0 then d
    else if d[k - 1] + 1 < |groups[k - 1]| then d[k - 1 := d[k - 1] + 1]
    else Carry(groups, d[k - 1 := 0], k - 1)
  }

  lemma {:induction false} CarryFront(groups: seq<seq<string>>, d: seq<nat>, k: nat, m: nat)
    requires k <= m < |d| == |groups|
    ensures Carry(groups, d, k) == Carry(groups[..m], d[..m], k) + d[m..]
    decreases k
  {
    if k == 0 {
      assert d == d[..m] + d[m..];
    } else if d[k - 1] + 1 < |groups[k - 1]| {
      assert d[k - 1 := d[k - 1] + 1] == d[..m][k - 1 := d[k - 1] + 1] + d[m..];
    } else {
      CarryFront(groups, d[k - 1 := 0], k - 1, m);
      assert d[k - 1 := 0][..m] == d[..m][k - 1 := 0];
      assert d[k - 1 := 0][m..] == d[m..];
    }
  }

  lemma SuccessorDivMod(n: nat, s: nat)
    requires 1 <= s
    ensures if n % s + 1 < s then (n + 1) / s == n / s && (n + 1) % s == n % s + 1
            else (n + 1) / s == n / s + 1 && (n + 1) % s == 0
  {
    var q, r := n / s, n % s;
    assert n == s * q + r;
    if r + 1 < s {
      DivModIs(n + 1, s, q, r + 1);
    } else {
      assert s * (q + 1) == s * q + s;
      DivModIs(n + 1, s, q + 1, 0);
    }
  }

  lemma CarryStays(front: seq<seq<string>>, g: seq<string>, d: seq<nat>, r: nat)
    requires |d| == |front| && r + 1 < |g|
    ensures Carry(front + [g], d + [r], |d| + 1) == d + [r + 1]
  {
    assert (front + [g])[|d|] == g && (d + [r])[|d|] == r;
    assert (d + [r])[|d| := r + 1] == d + [r + 1];
  }

  lemma CarryMoves(front: seq<seq<string>>, g: seq<string>, d: seq<nat>, r: nat)
    requires |d| == |front| && r + 1 >= |g|
    ensures Carry(front + [g], d + [r], |d| + 1) == Carry(front, d, |d|) + [0]
  {
    assert (front + [g])[|d|] == g && (d + [r])[|d|] == r;
    assert (d + [r])[|d| := 0] == d + [0];
    CarryThrough(front, g, d);
  }

  lemma CarryThrough(front: seq<seq<string>>, g: seq<string>, d: seq<nat>)
    requires |d| == |front|
    ensures Carry(front + [g], d + [0], |d|) == Carry(front, d, |d|) + [0]
  {
    var m := |d|;
    CarryFront(front + [g], d + [0], m, m);
    assert (front + [g])[..m] == front && (d + [0])[..m] == d && (d + [0])[m..] == [0];
  }

  lemma DigitsSnoc(front: seq<seq<string>>, g: seq<string>, n: nat)
    requires NonEmpty(front) && 1 <= |g|
    ensures NonEmpty(front + [g]) && 0 <= n / |g|
    ensures Digits(n, front + [g]) == Digits(n / |g|, front) + [n % |g|]
  {
    QuotientBound(n, |g|);
    assert (front + [g])[..|front|] == front;
  }

  lemma CarryStep(groups: seq<seq<string>>, front: seq<seq<string>>, g: seq<string>, n: nat, q: nat)
    requires NonEmpty(groups) && groups == front + [g]
    requires NonEmpty(front) && 1 <= |g| && q == n / |g|
    requires Carry(front, Digits(q, front), |front|) == Digits(q + 1, front)
    ensures Carry(groups, Digits(n, groups), |groups|) == Digits(n + 1, groups)
  {
    var r := n % |g|;
    SuccessorDivMod(n, |g|);
    DigitsSnoc(front, g, n);
    DigitsSnoc(front, g, n + 1);
    if r + 1 < |g| {
      CarryStays(front, g, Digits(q, front), r);
    } else {
      CarryMoves(front, g, Digits(q, front), r);
    }
  }

  /** One turn of the odometer adds one. */
  lemma {:induction false} CarryIsSuccessor(groups: seq<seq<string>>, n: nat)
    requires NonEmpty(groups)
    ensures Carry(groups, Digits(n, groups), |groups|) == Digits(n + 1, groups)
    decreases |groups|
  {
    if groups == [] {
    } else {
      var g, front := groups[|groups| - 1], groups[..|groups| - 1];
      LastGroup(groups);
      QuotientBound(n, |g|);
      var q: nat := n / |g|;
      CarryIsSuccessor(front, q);
      CarryStep(groups, front, g, n, q);
    }
  }

  function ZeroDigits(n: nat): seq<nat> { seq(n, _ => 0) }

  lemma ZeroSnoc(n: nat)
    ensures ZeroDigits(n) + [0] == ZeroDigits(n + 1)
  {
  }

  lemma ZeroStep(front: seq<seq<string>>, g: seq<string>)
    requires NonEmpty(front) && 1 <= |g| && Digits(0, front) == ZeroDigits(|front|)
    ensures NonEmpty(front + [g]) && Digits(0, front + [g]) == ZeroDigits(|front| + 1)
  {
    DivModIs(0, |g|, 0, 0);
    DigitsSnoc(front, g, 0);
    ZeroSnoc(|front|);
  }

  lemma {:induction false} DigitsOfZero(groups: seq<seq<string>>)
    requires NonEmpty(groups)
    ensures Digits(0, groups) == ZeroDigits(|groups|)
    decreases |groups|
  {
    if groups == [] {
    } else {
      var m := |groups| - 1;
      var g, front := groups[m], groups[..m];
      assert g in groups && forall h <- front :: h in groups;
      DigitsOfZero(front);
      ZeroStep(front, g);
      assert front + [g] == groups;
    }
  }

  lemma ProductSnoc(front: seq<seq<string>>, g: seq<string>)
    ensures Product(front + [g]) == Product(front) * |g|
  {
    assert (front + [g])[..|front|] == front;
  }

  lemma MultipleEndsInZero(front: seq<seq<string>>, g: seq<string>, q: nat, n: nat)
    requires NonEmpty(front) && 1 <= |g| && n == q * |g|
    ensures NonEmpty(front + [g]) && Digits(n, front + [g]) == Digits(q, front) + [0]
  {
    DivModIs(n, |g|, q, 0);
    DigitsSnoc(front, g, n);
  }

  lemma ReturnStep(front: seq<seq<string>>, g: seq<string>)
    requires NonEmpty(front) && 1 <= |g| && Digits(Product(front), front) == ZeroDigits(|front|)
    ensures NonEmpty(front + [g])
    ensures Digits(Product(front + [g]), front + [g]) == ZeroDigits(|front| + 1)
  {
    ProductSnoc(front, g);
    MultipleEndsInZero(front, g, Product(front), Product(front + [g]));
    ZeroSnoc(|front|);
  }

  /** After as many turns as there are choices the odometer is back at zero. */
  lemma {:induction false} OdometerReturns(groups: seq<seq<string>>)
    requires NonEmpty(groups)
    ensures Digits(Product(groups), groups) == ZeroDigits(|groups|)
    decreases |groups|
  {
    if groups == [] {
    } else {
      var m := |groups| - 1;
      var g, front := groups[m], groups[..m];
      assert g in groups && forall h <- front :: h in groups;
      OdometerReturns(front);
      ReturnStep(front, g);
      assert front + [g] == groups;
    }
  }

  // ----- the whole expansion

  function ItemFor(segs: seq<Seg>, caps: seq<string>): Item
    requires |caps| == |Groups(segs)|
  {
    Item(Assemble(segs, caps), caps)
  }

  function Items(segs: seq<Seg>): (items: seq<Item>)
    ensures |items| == Product(Groups(segs))
  {
    ChoicesCount(Groups(segs));
    seq(|Choices(Groups(segs))|, n requires 0 <= n < |Choices(Groups(segs))| => ItemFor(segs, Choices(Groups(segs))[n]))
  }

  function Segments(src: string): Option<seq<Seg>> { SegmentsFrom(BuildPattern, src, 0) }

  /** What url_glob returns: nothing when a group or the product is too large or some URL does not
      fit, else one item for every choice. */
  function Expand(src: string, maxLen: nat): Option<seq<Item>> {
    var segs := Segments(src);
    if maxLen == 0 || segs.None? || Product(Groups(segs.value)) > MAX_URLS then None
    else if exists item <- Items(segs.value) :: |item.url| >= maxLen then None
    else Some(Items(segs.value))
  }

  lemma {:induction false} GroupsAppend(a: seq<Seg>, b: seq<Seg>)
    ensures Groups(a + b) == Groups(a) + Groups(b)
    decreases |a|
  {
    if a == [] {
      assert a + b == b;
    } else {
      assert (a + b)[1..] == a[1..] + b;
      GroupsAppend(a[1..], b);
    }
  }

  lemma {:induction false} GroupsNonEmpty(build: Builder, src: string, i: nat)
    requires BuildsNonEmpty(build)
    requires i <= |src| && SegmentsFrom(build, src, i).Some?
    ensures NonEmpty(Groups(SegmentsFrom(build, src, i).value))
    decreases |src| - i
  {
    var k := NextGroup(build, src, i);
    var lit := LiteralPart(src, i, k);
    assert Groups(lit) == [] by {
      if lit != [] { assert lit[1..] == []; }
    }
    if k >= |src| {
    } else {
      var (built, end) := GroupAt(build, src, k);
      GroupsNonEmpty(build, src, end);
      var rest := SegmentsFrom(build, src, end).value;
      var p := Pattern(src[k..end], built.alts);
      GroupsAppend(lit + [p], rest);
      GroupsAppend(lit, [p]);
      assert Groups([p]) == [built.alts] by { assert [p][1..] == []; }
    }
  }

  lemma SegmentsNonEmpty(src: string)
    requires Segments(src).Some?
    ensures NonEmpty(Groups(Segments(src).value))
  {
    BuildPatternNonEmpty();
    GroupsNonEmpty(BuildPattern, src, 0);
  }

  lemma ItemIsChoice(segs: seq<Seg>, n: nat)
    requires NonEmpty(Groups(segs)) && n < Product(Groups(segs))
    ensures Items(segs)[n].caps == Pick(Groups(segs), Digits(n, Groups(segs)))
    ensures Items(segs)[n].url == Assemble(segs, Items(segs)[n].caps)
  {
    ChoiceIsDigits(Groups(segs), n);
    ChoicesCount(Groups(segs));
  }

  /** What a caller gets: item n is the n-th choice of the cartesian product, read off the
      mixed-radix digits of n; there is one item for each choice and at most MAX_URLS; every URL is
      shorter than max_len and is the literals and captures in order. */
  lemma ExpandIsProduct(src: string, maxLen: nat)
    requires Expand(src, maxLen).Some?
    ensures var items := Expand(src, maxLen).value;
            var segs := Segments(src).value;
            var groups := Groups(segs);
            && 1 <= |items| == Product(groups) <= MAX_URLS && NonEmpty(groups)
            && (forall n | 0 <= n < |items| ::
                 && |items[n].url| < maxLen
                 && items[n].caps == Pick(groups, Digits(n, groups))
                 && items[n].url == Assemble(segs, items[n].caps))
  {
    var segs := Segments(src).value;
    SegmentsNonEmpty(src);
    ProductPositive(Groups(segs));
    forall n | 0 <= n < Product(Groups(segs))
      ensures |Items(segs)[n].url| < maxLen
      ensures Items(segs)[n].caps == Pick(Groups(segs), Digits(n, Groups(segs)))
      ensures Items(segs)[n].url == Assemble(segs, Items(segs)[n].caps)
    {
      ItemIsChoice(segs, n);
      assert Items(segs)[n] in Items(segs);
    }
  }

  lemma {:induction false} ProductPositive(groups: seq<seq<string>>)
    requires NonEmpty(groups)
    ensures 1 <= Product(groups)
    decreases |groups|
  {
    if groups == [] {
    } else {
      var m := |groups| - 1;
      assert groups[m] in groups && forall h <- groups[..m] :: h in groups;
      ProductPositive(groups[..m]);
      MulMonotone(Product(groups[..m]), 1, |groups[m]|);
    }
  }

  /** A URL without groups expands to itself. */
  lemma NoGroupsMeansPassthrough(src: string, maxLen: nat)
    requires forall i | 0 <= i < |src| :: GroupAt(BuildPattern, src, i).0.NotAGroup?
    ensures Expand(src, maxLen) == if |src| < maxLen then Some([Item(src, [])]) else None
  {
    assert NextGroup(BuildPattern, src, 0) == |src|;
    var segs := LiteralPart(src, 0, |src|);
    assert src[0..|src|] == src;
    assert segs != [] ==> segs[1..] == [];
    assert Groups(segs) == [];
    assert Assemble(segs, []) == src by {
      assert src + "" == src;
    }
    assert Choices([]) == [[]];
    assert Items(segs) == [Item(src, [])];
    assert Items(segs)[0] in Items(segs);
  }

  // ----- the code

  method FindClose(src: string, close: char, i: nat) returns (j: nat)
    requires i <= |src|
    ensures j == FindFrom(src, close, i)
  {
    j := i;
    while j < |src| && src[j] != close
      invariant i <= j <= |src|
      invariant FindFrom(src, close, j) == FindFrom(src, close, i)
    {
      j := j + 1;
    }
  }

  lemma GroupAtIs(build: Builder, src: string, i: nat, j: nat, built: Built)
    requires i < |src| && IsOpener(src[i]) && j == FindFrom(src, Closer(src[i]), i + 1)
    requires built == if j < |src| then build(src[i], src[i + 1..j]) else NotAGroup
    ensures GroupAt(build, src, i) == (built, if j < |src| then j + 1 else i + 1)
  {
  }

  /** One group of the scanner's loop. */
  method TryGroup(src: string, i: nat) returns (built: Built, end: nat)
    requires i < |src| && IsOpener(src[i])
    ensures (built, end) == GroupAt(BuildPattern, src, i)
  {
    var close := if src[i] == '{' then '}' else ']';
    var j := FindClose(src, close, i + 1);
    if j < |src| {
      built := BuildPatternImpl(src[i], src[i + 1..j]);
      end := j + 1;
    } else {
      built, end := NotAGroup, i + 1;
    }
    GroupAtIs(BuildPattern, src, i, j, built);
  }

  /** What is left to scan when a literal is pending from litStart on. */
  function Pending(build: Builder, src: string, litStart: nat, i: nat): Option<seq<Seg>>
    requires litStart <= i <= |src|
  {
    var k := NextGroup(build, src, i);
    if k == |src| then Some(LiteralPart(src, litStart, k)) else
    var (built, end) := GroupAt(build, src, k);
    if built.TooMany? then None else
    var rest := SegmentsFrom(build, src, end);
    if rest.None? then None
    else Some(LiteralPart(src, litStart, k) + [Pattern(src[k..end], built.alts)] + rest.value)
  }

  lemma {:induction false} ProductAppend(a: seq<seq<string>>, b: seq<seq<string>>)
    requires NonEmpty(a) && NonEmpty(b)
    ensures Product(a) <= Product(a + b)
    decreases |b|
  {
    if b == [] {
      assert a + b == a;
    } else {
      var m := |b| - 1;
      assert b[m] in b && forall h <- b[..m] :: h in b;
      ProductAppend(a, b[..m]);
      assert (a + b)[..|a + b| - 1] == a + b[..m] && (a + b)[|a + b| - 1] == b[m];
      MulMonotone(Product(a + b[..m]), 1, |b[m]|);
    }
  }

  lemma PendingSkip(build: Builder, src: string, litStart: nat, i: nat)
    requires litStart <= i < |src| && GroupAt(build, src, i).0.NotAGroup?
    ensures Pending(build, src, litStart, i) == Pending(build, src, litStart, i + 1)
  {
  }

  /** Extends the segments scanned so far by what is still to come. */
  function Then(segs: seq<Seg>, more: Option<seq<Seg>>): Option<seq<Seg>> {
    if more.None? then None else Some(segs + more.value)
  }

  lemma PendingGroup(build: Builder, src: string, segs: seq<Seg>, litStart: nat, i: nat)
    requires litStart <= i < |src| && GroupAt(build, src, i).0.Group?
    ensures var (built, end) := GroupAt(build, src, i);
            && i < end <= |src|
            && Then(segs, Pending(build, src, litStart, i)) ==
                 Then(segs + LiteralPart(src, litStart, i) + [Pattern(src[i..end], built.alts)],
                      Pending(build, src, end, end))
  {
    var (built, end) := GroupAt(build, src, i);
    assert NextGroup(build, src, i) == i;
    assert Pending(build, src, end, end) == SegmentsFrom(build, src, end);
    var rest := SegmentsFrom(build, src, end);
    if rest.Some? {
      Regroup(segs, LiteralPart(src, litStart, i), [Pattern(src[i..end], built.alts)], rest.value);
    }
  }

  lemma Regroup<T>(a: seq<T>, b: seq<T>, c: seq<T>, d: seq<T>)
    ensures a + (b + c + d) == (a + b + c) + d
  {
  }

  lemma GroupsOfLonger(segs: seq<Seg>, lit: seq<Seg>, p: Seg)
    requires p.Pattern? && (forall s <- lit :: s.Literal?) && |lit| <= 1
    requires NonEmpty(Groups(segs)) && 1 <= |p.alts|
    ensures NonEmpty(Groups(segs + lit + [p]))
    ensures Product(Groups(segs + lit + [p])) == Product(Groups(segs)) * |p.alts|
  {
    GroupsAppend(segs + lit, [p]);
    GroupsAppend(segs, lit);
    assert Groups(lit) == [] by {
      if lit != [] { assert lit[1..] == [] && lit[0] in lit; }
    }
    assert Groups([p]) == [p.alts] by { assert [p][1..] == []; }
    var g := Groups(segs);
    assert Groups(segs + lit + [p]) == g + [p.alts];
    assert (g + [p.alts])[..|g|] == g;
  }

  lemma ProductOnlyGrows(segs: seq<Seg>, more: seq<Seg>)
    requires NonEmpty(Groups(segs)) && NonEmpty(Groups(more))
    ensures Product(Groups(segs)) <= Product(Groups(segs + more))
  {
    GroupsAppend(segs, more);
    ProductAppend(Groups(segs), Groups(more));
  }

  ghost predicate BuildsNonEmpty(build: Builder) {
    forall open, c :: build(open, c).Group? ==> 1 <= |build(open, c).alts|
  }

  lemma RestNonEmpty(build: Builder, src: string, i: nat)
    requires i <= |src| && BuildsNonEmpty(build)
    ensures var r := Pending(build, src, i, i); r.Some? ==> NonEmpty(Groups(r.value))
  {
    if SegmentsFrom(build, src, i).Some? {
      GroupsNonEmpty(build, src, i);
    }
    assert Pending(build, src, i, i) == SegmentsFrom(build, src, i);
  }

  /** The scanner's invariant: what has been cut plus what is still to come is the whole. */
  ghost predicate Scanned(build: Builder, src: string, segs: seq<Seg>, product: nat, litStart: nat, i: nat) {
    && |segs| <= litStart <= i <= |src|
    && SegmentsFrom(build, src, 0) == Then(segs, Pending(build, src, litStart, i))
    && NonEmpty(Groups(segs)) && product == Product(Groups(segs))
  }

  lemma ScanStarts(build: Builder, src: string)
    ensures Scanned(build, src, [], 1, 0, 0)
  {
    var all := SegmentsFrom(build, src, 0);
    assert Pending(build, src, 0, 0) == all;
    assert all.Some? ==> [] + all.value == all.value;
  }

  lemma ScanSkips(build: Builder, src: string, segs: seq<Seg>, product: nat, litStart: nat, i: nat)
    requires Scanned(build, src, segs, product, litStart, i) && i < |src|
    requires GroupAt(build, src, i).0.NotAGroup?
    ensures Scanned(build, src, segs, product, litStart, i + 1)
  {
    PendingSkip(build, src, litStart, i);
  }

  lemma ScanTakesGroup(build: Builder, src: string, segs: seq<Seg>, product: nat, litStart: nat, i: nat,
                       alts: seq<string>, end: nat, np: nat)
    requires BuildsNonEmpty(build)
    requires Scanned(build, src, segs, product, litStart, i) && i < end <= |src|
    requires GroupAt(build, src, i) == (Group(alts), end) && np == product * |alts|
    ensures Scanned(build, src, segs + LiteralPart(src, litStart, i) + [Pattern(src[i..end], alts)], np, end, end)
  {
    PendingGroup(build, src, segs, litStart, i);
    GroupsOfLonger(segs, LiteralPart(src, litStart, i), Pattern(src[i..end], alts));
  }

  lemma ScanBounds(build: Builder, src: string, segs: seq<Seg>, product: nat, i: nat)
    requires Scanned(build, src, segs, product, i, i) && BuildsNonEmpty(build)
    ensures var all := SegmentsFrom(build, src, 0); all.Some? ==> product <= Product(Groups(all.value))
  {
    RestNonEmpty(build, src, i);
    if Pending(build, src, i, i).Some? {
      ProductOnlyGrows(segs, Pending(build, src, i, i).value);
    }
  }

  lemma ScanEnds(build: Builder, src: string, segs: seq<Seg>, product: nat, litStart: nat)
    requires Scanned(build, src, segs, product, litStart, |src|)
    ensures var all := SegmentsFrom(build, src, 0);
            && all == Some(segs + LiteralPart(src, litStart, |src|)) && |all.value| <= |src|
            && Product(Groups(all.value)) == product
  {
    var lit := LiteralPart(src, litStart, |src|);
    GroupsAppend(segs, lit);
    assert lit != [] ==> lit[1..] == [];
    assert Groups(segs) + [] == Groups(segs);
  }

  lemma BuildPatternNonEmpty()
    ensures BuildsNonEmpty(BuildPattern)
  {
    forall open, c
      ensures BuildPattern(open, c).Group? ==> 1 <= |BuildPattern(open, c).alts|
    {
      GroupSize(open, c);
    }
  }

  /** A literal, if one is pending, and the group.  The array has |src| + 1 entries, so both fit, also
      when the URL is refused just afterwards. */
  method TakeGroup(ghost build: Builder, src: string, segs: seq<Seg>, ghost product: nat, litStart: nat, i: nat,
                   alts: seq<string>, end: nat, ghost np: nat) returns (segs': seq<Seg>)
    requires BuildsNonEmpty(build) && Scanned(build, src, segs, product, litStart, i) && i < end <= |src|
    requires GroupAt(build, src, i) == (Group(alts), end) && np == product * |alts|
    ensures Scanned(build, src, segs', np, end, end) && |segs'| <= |src|
  {
    ScanTakesGroup(build, src, segs, product, litStart, i, alts, end, np);
    segs' := segs;
    if litStart < i {
      segs' := segs' + [Literal(src[litStart..i])];
    }
    assert segs' == segs + LiteralPart(src, litStart, i);
    segs' := segs' + [Pattern(src[i..end], alts)];
  }

  /** The scanner loop of url_glob.  It stops as soon as the product is too large; the product never
      shrinks, so that is the same as refusing the whole. */
  method Scan(src: string) returns (r: Option<seq<Seg>>, product: nat)
    ensures r.Some? <==> Segments(src).Some? && Product(Groups(Segments(src).value)) <= MAX_URLS
    ensures r.Some? ==> r == Segments(src) && product == Product(Groups(r.value)) && |r.value| <= |src|
  {
    var segs: seq<Seg> := [];
    var litStart: nat, i: nat := 0, 0;
    product := 1;
    BuildPatternNonEmpty();
    ScanStarts(BuildPattern, src);
    while i < |src|
      invariant Scanned(BuildPattern, src, segs, product, litStart, i) && product <= MAX_URLS
      decreases |src| - i
    {
      if !IsOpener(src[i]) {
        ScanSkips(BuildPattern, src, segs, product, litStart, i);
        i := i + 1;
        continue;
      }
      var built, end := TryGroup(src, i);
      if built.TooMany? {
        return None, 0;
      }
      if built.NotAGroup? {
        ScanSkips(BuildPattern, src, segs, product, litStart, i);
        i := i + 1;
        continue;
      }
      MulMonotone(product, 0, |built.alts|);
      var np: nat := product * |built.alts|;
      segs := TakeGroup(BuildPattern, src, segs, product, litStart, i, built.alts, end, np);
      if np > MAX_URLS {
        ScanBounds(BuildPattern, src, segs, np, end);
        return None, 0;
      }
      product := np;
      i := end;
      litStart := i;
    }
    ScanEnds(BuildPattern, src, segs, product, litStart);
    r := Some(segs + LiteralPart(src, litStart, |src|));
  }

  // ----- generating the items

  lemma AssembleDrop(segs: seq<Seg>, caps: seq<string>, s: nat, pk: nat)
    requires s < |segs| && pk <= |caps| && |caps| - pk == |Groups(segs[s..])|
    ensures if segs[s].Pattern? then
              && pk < |caps| && |caps| - pk - 1 == |Groups(segs[s + 1..])|
              && Groups(segs[s..]) == [segs[s].alts] + Groups(segs[s + 1..])
              && Assemble(segs[s..], caps[pk..]) == caps[pk] + Assemble(segs[s + 1..], caps[pk + 1..])
            else
              && Groups(segs[s..]) == Groups(segs[s + 1..])
              && Assemble(segs[s..], caps[pk..]) == segs[s].source + Assemble(segs[s + 1..], caps[pk..])
  {
    var rest := segs[s..];
    assert rest[0] == segs[s] && rest[1..] == segs[s + 1..];
    assert segs[s].Pattern? ==> caps[pk..][0] == caps[pk] && caps[pk..][1..] == caps[pk + 1..];
    assert [] + Groups(segs[s + 1..]) == Groups(segs[s + 1..]);
  }

  /** The text of one piece: the alternative the odometer shows, or the literal. */
  method NextPiece(segs: seq<Seg>, groups: seq<seq<string>>, idx: array<nat>, ghost caps: seq<string>, s: nat, pk: nat)
    returns (txt: string, pk': nat)
    requires s < |segs| && pk <= |groups| == idx.Length && Groups(segs[s..]) == groups[pk..]
    requires (forall k | 0 <= k < idx.Length :: idx[k] < |groups[k]|) && caps == Pick(groups, idx[..])
    ensures pk' <= |groups| && Groups(segs[s + 1..]) == groups[pk'..]
    ensures Assemble(segs[s..], caps[pk..]) == txt + Assemble(segs[s + 1..], caps[pk'..])
  {
    AssembleDrop(segs, caps, s, pk);
    if segs[s].Pattern? {
      assert groups[pk] == groups[pk..][0] && groups[pk..][1..] == groups[pk + 1..];
      return segs[s].alts[idx[pk]], pk + 1;
    }
    return segs[s].source, pk;
  }

  /** The URL of one turn of the odometer, or None when it would not leave room for the NUL. */
  method Generate(segs: seq<Seg>, groups: seq<seq<string>>, idx: array<nat>, maxLen: nat)
    returns (url: Option<string>)
    requires groups == Groups(segs) && idx.Length == |groups| && 1 <= maxLen
    requires forall k | 0 <= k < idx.Length :: idx[k] < |groups[k]|
    ensures var full := Assemble(segs, Pick(groups, idx[..]));
            url == if |full| < maxLen then Some(full) else None
  {
    ghost var caps := Pick(groups, idx[..]);
    ghost var full := Assemble(segs, caps);
    var buf := "";
    var s: nat, pk: nat := 0, 0;
    WholeSlices(segs, groups, caps, full);
    while s < |segs|
      invariant 0 <= s <= |segs| && 0 <= pk <= |groups| && |buf| < maxLen
      invariant Groups(segs[s..]) == groups[pk..]
      invariant full == buf + Assemble(segs[s..], caps[pk..])
    {
      var txt;
      txt, pk := AppendPiece(segs, groups, idx, caps, s, pk, buf, full);
      if |buf| + |txt| >= maxLen {
        return None;
      }
      buf := buf + txt;
      s := s + 1;
    }
    RegroupText(buf, "", "");
    url := Some(buf);
  }

  lemma WholeSlices(segs: seq<Seg>, groups: seq<seq<string>>, caps: seq<string>, full: string)
    ensures segs[0..] == segs && caps[0..] == caps && groups[0..] == groups && "" + full == full
  {
  }

  /** The next piece, seen from the whole URL. */
  method AppendPiece(segs: seq<Seg>, groups: seq<seq<string>>, idx: array<nat>, ghost caps: seq<string>, s: nat,
                     pk: nat, ghost buf: string, ghost full: string) returns (txt: string, pk': nat)
    requires s < |segs| && pk <= |groups| == idx.Length && Groups(segs[s..]) == groups[pk..]
    requires (forall k | 0 <= k < idx.Length :: idx[k] < |groups[k]|) && caps == Pick(groups, idx[..])
    requires full == buf + Assemble(segs[s..], caps[pk..])
    ensures pk' <= |groups| && Groups(segs[s + 1..]) == groups[pk'..]
    ensures full == (buf + txt) + Assemble(segs[s + 1..], caps[pk'..])
  {
    txt, pk' := NextPiece(segs, groups, idx, caps, s, pk);
    RegroupText(buf, txt, Assemble(segs[s + 1..], caps[pk'..]));
  }

  lemma RegroupText(a: string, b: string, c: string)
    ensures a + (b + c) == (a + b) + c
    ensures a + "" == a
  {
  }

  /** The carry loop. */
  method Advance(groups: seq<seq<string>>, idx: array<nat>)
    requires idx.Length == |groups| && forall k | 0 <= k < idx.Length :: idx[k] < |groups[k]|
    modifies idx
    ensures idx[..] == Carry(groups, old(idx[..]), |groups|)
  {
    var k := |groups|;
    while k > 0
      invariant 0 <= k <= |groups|
      invariant Carry(groups, idx[..], k) == Carry(groups, old(idx[..]), |groups|)
    {
      k := k - 1;
      ghost var d := idx[..];
      idx[k] := idx[k] + 1;
      if idx[k] < |groups[k]| {
        assert idx[..] == d[k := d[k] + 1];
        return;
      }
      idx[k] := 0;
      assert idx[..] == d[k := 0];
    }
  }

  /** Item number n, and the odometer turned on by one. */
  method NextItem(segs: seq<Seg>, groups: seq<seq<string>>, idx: array<nat>, n: nat, maxLen: nat,
                  ghost all: seq<Item>) returns (item: Option<Item>)
    requires groups == Groups(segs) && NonEmpty(groups) && n < Product(groups) == |all| && 1 <= maxLen
    requires all == Items(segs)
    requires idx[..] == Digits(n, groups)
    modifies idx
    ensures item == if |all[n].url| < maxLen then Some(all[n]) else None
    ensures item.Some? ==> idx[..] == Digits(n + 1, groups)
  {
    ItemIsChoice(segs, n);
    assert forall k | 0 <= k < idx.Length :: idx[k] == Digits(n, groups)[k];
    var url := Generate(segs, groups, idx, maxLen);
    if url.None? {
      return None;
    }
    item := Some(Item(url.value, Pick(groups, idx[..])));
    CarryIsSuccessor(groups, n);
    Advance(groups, idx);
  }

  /** The body of the generation loop. */
  method StoreNext(segs: seq<Seg>, groups: seq<seq<string>>, items: array<Item>, idx: array<nat>, n: nat,
                   maxLen: nat, ghost all: seq<Item>) returns (stored: bool)
    requires groups == Groups(segs) && NonEmpty(groups) && n < items.Length == Product(groups) == |all|
    requires 1 <= maxLen && all == Items(segs) && Turn(groups, idx[..], n)
    modifies items, idx
    ensures stored <==> |all[n].url| < maxLen
    ensures stored ==> items[n] == all[n] && Turn(groups, idx[..], n + 1)
    ensures forall k | 0 <= k < items.Length && k != n :: items[k] == old(items[k])
  {
    var item := NextItem(segs, groups, idx, n, maxLen, all);
    if item.None? {
      return false;
    }
    items[n] := item.value;
    stored := true;
  }

  /** Where the odometer stands in turn n. */
  ghost predicate Turn(groups: seq<seq<string>>, d: seq<nat>, n: nat) {
    NonEmpty(groups) && d == Digits(n, groups)
  }

  /** The generation loop of url_glob, into an array of the right size. */
  method GenerateInto(segs: seq<Seg>, groups: seq<seq<string>>, items: array<Item>, idx: array<nat>, maxLen: nat,
                      ghost all: seq<Item>) returns (ok: bool)
    requires groups == Groups(segs) && NonEmpty(groups) && items.Length == Product(groups) == |all| && 1 <= maxLen
    requires all == Items(segs) && Turn(groups, idx[..], 0)
    modifies items, idx
    ensures ok <==> forall item <- all :: |item.url| < maxLen
    ensures ok ==> items[..] == all && Turn(groups, idx[..], |all|)
  {
    var n := 0;
    ok := true;
    while ok && n < items.Length
      invariant 0 <= n <= items.Length
      invariant ok ==> Turn(groups, idx[..], n)
      invariant forall k | 0 <= k < n :: items[k] == all[k] && |all[k].url| < maxLen
      invariant !ok ==> n < items.Length && |all[n].url| >= maxLen
      decreases items.Length - n, ok
    {
      ok := StoreNext(segs, groups, items, idx, n, maxLen, all);
      if ok {
        n := n + 1;
      }
    }
    assert !ok ==> all[n] in all;
  }

  /** The arrays, the loop, and the odometer back at zero. */
  method GenerateAll(segs: seq<Seg>, product: nat, maxLen: nat) returns (r: Option<seq<Item>>)
    requires NonEmpty(Groups(segs)) && product == Product(Groups(segs)) && 1 <= maxLen
    ensures r == if exists item <- Items(segs) :: |item.url| >= maxLen then None else Some(Items(segs))
  {
    var groups := Groups(segs);
    DigitsOfZero(groups);
    OdometerReturns(groups);
    var items := new Item[product](_ => Item("", []));
    var idx := new nat[|groups|](_ => 0);
    assert idx[..] == Digits(0, groups);
    var ok := GenerateInto(segs, groups, items, idx, maxLen, Items(segs));
    if !ok {
      return None;
    }
    assert idx[..] == ZeroDigits(|groups|);
    r := Some(items[..]);
  }

  /** url_glob. */
  method Glob(src: string, maxLen: nat) returns (r: Option<seq<Item>>)
    ensures r == Expand(src, maxLen)
  {
    if maxLen == 0 {
      return None;
    }
    var segs, product := Scan(src);
    if segs.None? {
      return None;
    }
    SegmentsNonEmpty(src);
    r := GenerateAll(segs.value, product, maxLen);
  }
}
