/**
 Episode specifications such as "1,3-5,8": the grammar, the cursor-style reading that
 extractor_parse_episodes (src/extractor.c) and tui_apply_spec (src/tui.c) both perform, and the
 exact relation between the two.
 */
module EpisodeSpec {
  import opened Prelude
  import opened Decimals
  import opened Strings

  const MAX_EPISODES := 2000

  type Range = (int, int)

  predicate IsBlank(c: char) { c == ' ' || c == '\t' }

  predicate IsTrail(crlf: bool, c: char) { IsBlank(c) || (crlf && (c == '\r' || c == '\n')) }

  predicate Blanks(s: string) { forall c <- s :: IsBlank(c) }

  predicate Trail(crlf: bool, s: string) { forall c <- s :: IsTrail(crlf, c) }

  // ----- the grammar

  /** blanks number trail */
  ghost predicate IsLast(crlf: bool, s: string, v: int) {
    exists b, d, t ::
      Blanks(b) && d != "" && AllDigits(d) && Trail(crlf, t) && s == b + (d + t) && v == Value(d)
  }

  /** What may follow the first number: the trail, or blanks "-" blanks number trail. */
  ghost predicate IsTail(crlf: bool, s: string, r: Range) {
    || (Trail(crlf, s) && r.1 == r.0)
    || exists b, last :: Blanks(b) && s == b + ("-" + last) && IsLast(crlf, last, r.1)
  }

  /** blanks number tail */
  ghost predicate IsItem(crlf: bool, item: string, r: Range) {
    exists b, d, tail ::
      && Blanks(b) && d != "" && AllDigits(d) && item == b + (d + tail)
      && r.0 == Value(d) && IsTail(crlf, tail, r)
  }

  /** Items separated by commas; one comma may follow the last. */
  ghost predicate IsList(crlf: bool, s: string, rs: seq<Range>)
    decreases |rs|
  {
    if rs == [] then s == "" else
    || (|rs| == 1 && IsItem(crlf, s, rs[0]))
    || exists item, rest ::
         s == item + ("," + rest) && IsItem(crlf, item, rs[0]) && IsList(crlf, rest, rs[1..])
  }

  predicate Allowed(r: Range, count: nat) { 1 <= r.0 <= r.1 <= count }

  // ----- reading with a cursor

  function SkipBlanks(s: string): (r: string)
    ensures |r| <= |s|
  {
    if s != "" && IsBlank(s[0]) then SkipBlanks(s[1..]) else s
  }

  function SkipTrail(crlf: bool, s: string): (r: string)
    ensures |r| <= |s|
  {
    if s != "" && IsTrail(crlf, s[0]) then SkipTrail(crlf, s[1..]) else s
  }

  function Clamp(v: nat, cap: Option<nat>): nat {
    if cap.Some? then Min(v, cap.value) else v
  }

  /** Blanks, a number, and what follows it; the value never exceeds the clamp. */
  function ReadNumber(s: string, cap: Option<nat>): (r: Option<(int, string)>)
    ensures r.Some? ==> |r.value.1| < |s|
  {
    var s1 := SkipBlanks(s);
    var n := DigitRun(s1);
    if n == 0 then None else Some((Clamp(Value(s1[..n]), cap), s1[n..]))
  }

  /** What follows the first number of an item. */
  function ReadTail(crlf: bool, a: int, s: string, cap: Option<nat>): (r: Option<(Range, string)>)
    ensures r.Some? ==> |r.value.1| <= |s|
  {
    var s2 := SkipBlanks(s);
    if s2 != "" && s2[0] == '-' then
      var second := ReadNumber(s2[1..], cap);
      if second.None? then None
      else Some(((a, second.value.0), SkipTrail(crlf, second.value.1)))
    else Some(((a, a), SkipTrail(crlf, s2)))
  }

  /** One item and what follows it. */
  function ReadItem(crlf: bool, s: string, cap: Option<nat>): (r: Option<(Range, string)>)
    ensures r.Some? ==> |r.value.1| < |s|
  {
    var first := ReadNumber(s, cap);
    if first.None? then None else ReadTail(crlf, first.value.0, first.value.1, cap)
  }

  /** All items, each within bounds; None when the specification is refused. */
  function ReadList(crlf: bool, s: string, cap: Option<nat>, count: nat): Option<seq<Range>>
    decreases |s|
  {
    if s == "" then Some([]) else
    var item := ReadItem(crlf, s, cap);
    if item.None? || !Allowed(item.value.0, count) then None else
    var (r, rest) := item.value;
    if rest == "" then Some([r])
    else if rest[0] != ',' then None
    else
      var more := ReadList(crlf, rest[1..], cap, count);
      if more.None? then None else Some([r] + more.value)
  }

  // ----- the cursor reads the grammar

  lemma {:induction false} SkipBlanksOf(b: string, x: string)
    requires Blanks(b) && (x == "" || !IsBlank(x[0]))
    ensures SkipBlanks(b + x) == x
    decreases |b|
  {
    if b == "" {
      assert b + x == x;
    } else {
      assert b[0] in b && forall c <- b[1..] :: c in b;
      assert (b + x)[1..] == b[1..] + x;
      SkipBlanksOf(b[1..], x);
    }
  }

  lemma {:induction false} SkipTrailOf(crlf: bool, t: string, x: string)
    requires Trail(crlf, t) && (x == "" || !IsTrail(crlf, x[0]))
    ensures SkipTrail(crlf, t + x) == x
    decreases |t|
  {
    if t == "" {
      assert t + x == x;
    } else {
      assert t[0] in t && forall c <- t[1..] :: c in t;
      assert (t + x)[1..] == t[1..] + x;
      SkipTrailOf(crlf, t[1..], x);
    }
  }

  lemma {:induction false} DigitRunOf(d: string, x: string)
    requires AllDigits(d) && (x == "" || !IsDigit(x[0]))
    ensures DigitRun(d + x) == |d| && (d + x)[..|d|] == d && (d + x)[|d|..] == x
    decreases |d|
  {
    if d == "" {
      assert d + x == x;
    } else {
      assert d[0] in d && forall c <- d[1..] :: c in d;
      assert (d + x)[1..] == d[1..] + x;
      DigitRunOf(d[1..], x);
    }
  }

  /** What SkipBlanks leaves out. */
  lemma {:induction false} BlanksSkipped(s: string) returns (b: string)
    ensures Blanks(b) && s == b + SkipBlanks(s)
    ensures SkipBlanks(s) == "" || !IsBlank(SkipBlanks(s)[0])
    decreases |s|
  {
    if s != "" && IsBlank(s[0]) {
      var b' := BlanksSkipped(s[1..]);
      b := [s[0]] + b';
    } else {
      b := "";
    }
  }

  lemma {:induction false} TrailSkipped(crlf: bool, s: string) returns (t: string)
    ensures Trail(crlf, t) && s == t + SkipTrail(crlf, s)
    decreases |s|
  {
    if s != "" && IsTrail(crlf, s[0]) {
      var t' := TrailSkipped(crlf, s[1..]);
      t := [s[0]] + t';
    } else {
      t := "";
    }
  }

  lemma NumberIsRead(b: string, d: string, x: string)
    requires Blanks(b) && d != "" && AllDigits(d) && (x == "" || !IsDigit(x[0]))
    ensures ReadNumber(b + (d + x), None) == Some((Value(d), x))
  {
    assert d[0] in d;
    SkipBlanksOf(b, d + x);
    DigitRunOf(d, x);
  }

  lemma NumberWasThere(s: string) returns (b: string, d: string)
    requires ReadNumber(s, None).Some?
    ensures var (v, rest) := ReadNumber(s, None).value;
            Blanks(b) && d != "" && AllDigits(d) && s == b + (d + rest) && v == Value(d)
  {
    b := BlanksSkipped(s);
    var s1 := SkipBlanks(s);
    d := s1[..DigitRun(s1)];
    assert s1 == d + s1[DigitRun(s1)..];
  }

  /** Where an item may end. */
  predicate AtEnd(x: string) { x == "" || x[0] == ',' }

  lemma NoDigitAhead(crlf: bool, t: string, x: string)
    requires Trail(crlf, t) && AtEnd(x)
    ensures t + x == "" || !IsDigit((t + x)[0])
  {
    if t != "" {
      assert t[0] in t;
    }
  }

  /** Skipping blanks and then the trail is skipping the trail, and no dash comes to light. */
  lemma {:induction false} AfterNumber(crlf: bool, t: string, x: string)
    requires Trail(crlf, t) && AtEnd(x)
    ensures var s2 := SkipBlanks(t + x);
            (s2 == "" || s2[0] != '-') && SkipTrail(crlf, s2) == x == SkipTrail(crlf, t + x)
    decreases |t|
  {
    SkipTrailOf(crlf, t, x);
    if t == "" {
      assert t + x == x;
    } else {
      assert t[0] in t && forall c <- t[1..] :: c in t;
      assert (t + x)[1..] == t[1..] + x;
      AfterNumber(crlf, t[1..], x);
    }
  }

  lemma LastIsRead(crlf: bool, s: string, v: int, x: string)
    requires IsLast(crlf, s, v) && AtEnd(x)
    ensures var n := ReadNumber(s + x, None);
            n.Some? && n.value.0 == v && SkipTrail(crlf, n.value.1) == x
  {
    var b, d, t :| Blanks(b) && d != "" && AllDigits(d) && Trail(crlf, t) && s == b + (d + t) && v == Value(d);
    assert s + x == b + (d + (t + x));
    NoDigitAhead(crlf, t, x);
    NumberIsRead(b, d, t + x);
    SkipTrailOf(crlf, t, x);
  }

  lemma DashIsRead(crlf: bool, b: string, last: string, r: Range, x: string)
    requires Blanks(b) && IsLast(crlf, last, r.1) && AtEnd(x)
    ensures ReadTail(crlf, r.0, b + ("-" + (last + x)), None) == Some((r, x))
  {
    var s2 := "-" + (last + x);
    SkipBlanksOf(b, s2);
    assert s2[1..] == last + x;
    LastIsRead(crlf, last, r.1, x);
  }

  lemma TailIsRead(crlf: bool, s: string, r: Range, x: string)
    requires IsTail(crlf, s, r) && AtEnd(x)
    ensures ReadTail(crlf, r.0, s + x, None) == Some((r, x))
    ensures s + x == "" || !IsDigit((s + x)[0])
  {
    if Trail(crlf, s) && r.1 == r.0 {
      AfterNumber(crlf, s, x);
      NoDigitAhead(crlf, s, x);
    } else {
      var b, last :| Blanks(b) && s == b + ("-" + last) && IsLast(crlf, last, r.1);
      DashRegroups(b, last, x);
      DashIsRead(crlf, b, last, r, x);
      if b != "" {
        assert b[0] in b;
      }
    }
  }

  /** An item of the grammar, before a comma or the end, is read as what it denotes. */
  lemma ItemIsRead(crlf: bool, item: string, r: Range, x: string)
    requires IsItem(crlf, item, r) && AtEnd(x)
    ensures ReadItem(crlf, item + x, None) == Some((r, x))
    ensures item != ""
  {
    var b, d, tail :|
      && Blanks(b) && d != "" && AllDigits(d) && item == b + (d + tail)
      && r.0 == Value(d) && IsTail(crlf, tail, r);
    assert item + x == b + (d + (tail + x));
    TailIsRead(crlf, tail, r, x);
    NumberIsRead(b, d, tail + x);
  }

  lemma DashWasThere(crlf: bool, a: int, b: string, after: string) returns (tail: string)
    requires Blanks(b) && ReadNumber(after, None).Some?
    ensures var (v, left) := ReadNumber(after, None).value;
            b + ("-" + after) == tail + SkipTrail(crlf, left) && IsTail(crlf, tail, (a, v))
  {
    var b2, d := NumberWasThere(after);
    var (v, left) := ReadNumber(after, None).value;
    var t := TrailSkipped(crlf, left);
    var last := b2 + (d + t);
    assert IsLast(crlf, last, v);
    LastRegroups(b2, d, t, SkipTrail(crlf, left));
    DashRegroups(b, last, SkipTrail(crlf, left));
    tail := b + ("-" + last);
  }

  lemma NoDashWasThere(crlf: bool, a: int, b: string, s2: string) returns (tail: string)
    requires Blanks(b)
    ensures b + s2 == tail + SkipTrail(crlf, s2) && IsTail(crlf, tail, (a, a))
  {
    var t := TrailSkipped(crlf, s2);
    tail := b + t;
  }

  lemma TailWasThere(crlf: bool, a: int, s: string) returns (tail: string)
    requires ReadTail(crlf, a, s, None).Some?
    ensures var (r, rest) := ReadTail(crlf, a, s, None).value;
            r.0 == a && s == tail + rest && IsTail(crlf, tail, r)
  {
    var b := BlanksSkipped(s);
    var s2 := SkipBlanks(s);
    if s2 != "" && s2[0] == '-' {
      assert s2 == "-" + s2[1..];
      tail := DashWasThere(crlf, a, b, s2[1..]);
    } else {
      tail := NoDashWasThere(crlf, a, b, s2);
    }
  }

  lemma LastRegroups(b: string, d: string, t: string, rest: string)
    ensures b + (d + (t + rest)) == (b + (d + t)) + rest
  {
  }

  lemma DashRegroups(b: string, last: string, rest: string)
    ensures b + ("-" + (last + rest)) == (b + ("-" + last)) + rest
  {
  }

  /** And whatever is read was an item of the grammar. */
  lemma ItemWasThere(crlf: bool, s: string) returns (item: string)
    requires ReadItem(crlf, s, None).Some?
    ensures var (r, rest) := ReadItem(crlf, s, None).value;
            s == item + rest && IsItem(crlf, item, r)
  {
    var b, d := NumberWasThere(s);
    var (a, after) := ReadNumber(s, None).value;
    var tail := TailWasThere(crlf, a, after);
    item := b + (d + tail);
    LastRegroups(b, d, tail, ReadItem(crlf, s, None).value.1);
  }

  lemma ListCons(crlf: bool, item: string, r: Range, rest: string, rs: seq<Range>)
    requires IsItem(crlf, item, r) && IsList(crlf, rest, rs)
    ensures IsList(crlf, item + ("," + rest), [r] + rs)
  {
    var all := [r] + rs;
    assert all[0] == r && all[1..] == rs;
    assert IsItem(crlf, item, all[0]) && IsList(crlf, rest, all[1..]);
  }

  lemma ListOfOne(crlf: bool, item: string, r: Range)
    requires IsItem(crlf, item, r)
    ensures IsList(crlf, item, [r])
  {
    var rs := [r];
    assert |rs| == 1 && rs[0] == r;
  }

  /** The cursor accepts exactly the lists of the grammar whose ranges are within bounds. */
  lemma {:induction false} ListWasThere(crlf: bool, s: string, count: nat)
    requires ReadList(crlf, s, None, count).Some?
    ensures IsList(crlf, s, ReadList(crlf, s, None, count).value)
    ensures forall q <- ReadList(crlf, s, None, count).value :: Allowed(q, count)
    decreases |s|
  {
    if s == "" {
    } else {
      var item := ItemWasThere(crlf, s);
      var (r, rest) := ReadItem(crlf, s, None).value;
      if rest == "" {
        assert item + rest == item;
        ListOfOne(crlf, item, r);
      } else {
        ListWasThere(crlf, rest[1..], count);
        assert rest == "," + rest[1..];
        ListCons(crlf, item, r, rest[1..], ReadList(crlf, rest[1..], None, count).value);
      }
    }
  }

  lemma {:induction false} ListIsRead(crlf: bool, s: string, rs: seq<Range>, count: nat)
    requires IsList(crlf, s, rs) && forall q <- rs :: Allowed(q, count)
    ensures ReadList(crlf, s, None, count) == Some(rs)
    decreases |rs|
  {
    if rs == [] {
    } else {
      assert forall q <- rs[1..] :: q in rs;
      var r, tail := rs[0], rs[1..];
      assert r in rs && rs == [r] + tail;
      if |rs| == 1 && IsItem(crlf, s, r) {
        assert rs == [r];
        ReadListOfOne(crlf, s, r, count);
      } else {
        var item, rest :| s == item + ("," + rest) && IsItem(crlf, item, r) && IsList(crlf, rest, tail);
        ListIsRead(crlf, rest, tail, count);
        ReadListCons(crlf, item, r, rest, tail, count);
      }
    }
  }

  lemma ReadListOfOne(crlf: bool, item: string, r: Range, count: nat)
    requires IsItem(crlf, item, r) && Allowed(r, count)
    ensures ReadList(crlf, item, None, count) == Some([r])
  {
    ItemIsRead(crlf, item, r, "");
    assert item + "" == item;
  }

  lemma ReadListCons(crlf: bool, item: string, r: Range, rest: string, rs: seq<Range>, count: nat)
    requires IsItem(crlf, item, r) && Allowed(r, count) && ReadList(crlf, rest, None, count) == Some(rs)
    ensures ReadList(crlf, item + ("," + rest), None, count) == Some([r] + rs)
  {
    ItemIsRead(crlf, item, r, "," + rest);
    assert ("," + rest)[1..] == rest;
  }

  /** Both directions together. */
  lemma AcceptedIffGrammar(crlf: bool, s: string, rs: seq<Range>, count: nat)
    ensures ReadList(crlf, s, None, count) == Some(rs) <==>
              IsList(crlf, s, rs) && forall q <- rs :: Allowed(q, count)
  {
    if ReadList(crlf, s, None, count).Some? {
      ListWasThere(crlf, s, count);
    }
    if IsList(crlf, s, rs) && forall q <- rs :: Allowed(q, count) {
      ListIsRead(crlf, s, rs, count);
    }
  }

  // ----- the clamps

  /** A clamp above the number of episodes changes no outcome. */
  lemma {:induction false} ClampIsHarmless(crlf: bool, s: string, cap: nat, count: nat)
    requires count < cap
    ensures ReadList(crlf, s, Some(cap), count) == ReadList(crlf, s, None, count)
    decreases |s|
  {
    if s == "" {
    } else {
      var with, without := ReadItem(crlf, s, Some(cap)), ReadItem(crlf, s, None);
      assert with.None? <==> without.None?;
      if without.Some? {
        var (r, rest) := without.value;
        assert with.value == ((Min(r.0, cap), Min(r.1, cap)), rest);
        assert Allowed(with.value.0, count) <==> Allowed(r, count);
        if rest != "" && rest[0] == ',' {
          ClampIsHarmless(crlf, rest[1..], cap, count);
        }
      }
    }
  }

  lemma NumberAlone(d: string, cap: Option<nat>)
    requires AllDigits(d) && d != ""
    ensures ReadItem(false, d, cap) == Some(((Clamp(Value(d), cap), Clamp(Value(d), cap)), ""))
  {
    assert d[0] in d;
    assert d + "" == d;
    DigitRunOf(d, "");
    assert SkipBlanks(d) == d;
  }

  lemma ListOfNumber(d: string, cap: Option<nat>, count: nat)
    requires AllDigits(d) && d != ""
    ensures ReadList(false, d, cap, count).Some? <==> 1 <= Clamp(Value(d), cap) <= count
  {
    NumberAlone(d, cap);
  }

  // ----- what the two functions return

  ghost predicate InSome(rs: seq<Range>, i: int) {
    exists k | 0 <= k < |rs| :: rs[k].0 <= i <= rs[k].1
  }

  /** The selection: the union of the ranges, as flags for episodes 1 to count. */
  ghost function Marks(rs: seq<Range>, count: nat): (m: seq<bool>)
    ensures |m| == count
  {
    seq(count, i requires 0 <= i < count => InSome(rs, i + 1))
  }

  /** extractor_parse_episodes. */
  ghost function Extractor(spec: string, count: nat): Option<seq<bool>> {
    if count == 0 then None else
    var rs := ReadList(false, spec, Some(MAX_EPISODES + 1), count);
    if rs.None? || rs.value == [] then None else Some(Marks(rs.value, count))
  }

  predicate IsKeywordText(s: string) { s == "all" || s == "*" || s == "a" }

  predicate IsKeyword(spec: string) { IsKeywordText(SkipBlanks(spec)) }

  /** tui_apply_spec: the new selection, or None when it is left alone. */
  ghost function Tui(spec: string, n: nat): Option<seq<bool>> {
    if IsKeyword(spec) then Some(seq(n, _ => true)) else
    var rs := ReadList(true, SkipBlanks(spec), Some(n + 1), n);
    if rs.None? then None else Some(Marks(rs.value, n))
  }

  lemma {:induction false} BlanksAreSkipped(b: string, s: string)
    requires Blanks(b) && (s == "" || !IsBlank(s[0]))
    ensures SkipBlanks(b + s) == s
  {
    if b == "" {
      assert b + s == s;
    } else {
      assert b[0] in b && forall c <- b[1..] :: c in b;
      assert (b + s)[1..] == b[1..] + s;
      BlanksAreSkipped(b[1..], s);
    }
  }

  /** A keyword after blanks selects every episode. */
  lemma KeywordSelectsAll(b: string, word: string, n: nat)
    requires Blanks(b) && (word == "all" || word == "*" || word == "a")
    ensures Tui(b + word, n).Some? && |Tui(b + word, n).value| == n
    ensures forall i | 0 <= i < n :: Tui(b + word, n).value[i]
  {
    BlanksAreSkipped(b, word);
  }

  predicate HasLineEnd(s: string) { '\r' in s || '\n' in s }

  /** The trail of an item is the only place where the two readings differ. */
  lemma {:induction false} SkipTrailSame(s: string)
    requires !HasLineEnd(s)
    ensures SkipTrail(true, s) == SkipTrail(false, s)
  {
    if s == "" {
    } else {
      assert s[0] in s && forall c <- s[1..] :: c in s;
      SkipTrailSame(s[1..]);
    }
  }

  lemma LineEndsStay(s: string, k: nat)
    requires k <= |s| && !HasLineEnd(s)
    ensures !HasLineEnd(s[k..])
  {
  }

  lemma SkipKeepsLineEnds(s: string)
    ensures HasLineEnd(SkipBlanks(s)) <==> HasLineEnd(s)
  {
    var b := BlanksSkipped(s);
    assert '\r' !in b && '\n' !in b;
    assert forall c :: c in s <==> c in b || c in SkipBlanks(s);
  }

  lemma NumberKeepsLineEnds(s: string, cap: Option<nat>)
    requires ReadNumber(s, cap).Some?
    ensures HasLineEnd(ReadNumber(s, cap).value.1) <==> HasLineEnd(s)
  {
    SkipKeepsLineEnds(s);
    var s1 := SkipBlanks(s);
    DigitsHaveNoLineEnd(s1, DigitRun(s1));
  }

  lemma DigitsHaveNoLineEnd(s: string, n: nat)
    requires n <= |s| && AllDigits(s[..n])
    ensures HasLineEnd(s) <==> HasLineEnd(s[n..])
  {
    assert s == s[..n] + s[n..];
    assert '\r' !in s[..n] && '\n' !in s[..n];
  }

  lemma TrailHasNoLineEnd(s: string)
    ensures HasLineEnd(SkipTrail(false, s)) <==> HasLineEnd(s)
  {
    var t := TrailSkipped(false, s);
    assert '\r' !in t && '\n' !in t;
    assert forall c :: c in s <==> c in t || c in SkipTrail(false, s);
  }

  lemma DashIsNoLineEnd(s: string)
    requires s != "" && s[0] == '-'
    ensures HasLineEnd(s[1..]) <==> HasLineEnd(s)
  {
    assert s == [s[0]] + s[1..];
  }

  /** The stricter reading consumes no line end anywhere; without line ends the two are the same. */
  lemma TailAndLineEnds(a: int, s: string, cap: Option<nat>)
    requires ReadTail(false, a, s, cap).Some?
    ensures HasLineEnd(ReadTail(false, a, s, cap).value.1) <==> HasLineEnd(s)
  {
    SkipKeepsLineEnds(s);
    var s2 := SkipBlanks(s);
    if s2 != "" && s2[0] == '-' {
      DashIsNoLineEnd(s2);
      NumberKeepsLineEnds(s2[1..], cap);
      TrailHasNoLineEnd(ReadNumber(s2[1..], cap).value.1);
    } else {
      TrailHasNoLineEnd(s2);
    }
  }

  lemma TailSame(a: int, s: string, cap: Option<nat>)
    requires !HasLineEnd(s)
    ensures ReadTail(true, a, s, cap) == ReadTail(false, a, s, cap)
  {
    SkipKeepsLineEnds(s);
    var s2 := SkipBlanks(s);
    if s2 != "" && s2[0] == '-' {
      DashIsNoLineEnd(s2);
      if ReadNumber(s2[1..], cap).Some? {
        NumberKeepsLineEnds(s2[1..], cap);
        SkipTrailSame(ReadNumber(s2[1..], cap).value.1);
      }
    } else {
      SkipTrailSame(s2);
    }
  }

  lemma ItemAndLineEnds(s: string, cap: Option<nat>)
    ensures var item := ReadItem(false, s, cap);
            item.Some? ==> (HasLineEnd(item.value.1) <==> HasLineEnd(s))
    ensures !HasLineEnd(s) ==> ReadItem(true, s, cap) == ReadItem(false, s, cap)
  {
    var first := ReadNumber(s, cap);
    if first.Some? {
      NumberKeepsLineEnds(s, cap);
      if ReadItem(false, s, cap).Some? {
        TailAndLineEnds(first.value.0, first.value.1, cap);
      }
      if !HasLineEnd(s) {
        TailSame(first.value.0, first.value.1, cap);
      }
    }
  }

  lemma {:induction false} ReadListSame(s: string, cap: Option<nat>, count: nat)
    requires !HasLineEnd(s)
    ensures ReadList(true, s, cap, count) == ReadList(false, s, cap, count)
    decreases |s|
  {
    if s == "" {
    } else {
      ItemAndLineEnds(s, cap);
      var item := ReadItem(false, s, cap);
      if item.Some? && item.value.1 != "" {
        LineEndsStay(item.value.1, 1);
        ReadListSame(item.value.1[1..], cap, count);
      }
    }
  }

  lemma {:induction false} LineEndIsRefused(s: string, cap: Option<nat>, count: nat)
    requires HasLineEnd(s)
    ensures ReadList(false, s, cap, count).None?
    decreases |s|
  {
    var item := ReadItem(false, s, cap);
    if item.None? {
    } else {
      ItemAndLineEnds(s, cap);
      var rest := item.value.1;
      if rest != "" && rest[0] == ',' {
        assert rest == [rest[0]] + rest[1..];
        LineEndIsRefused(rest[1..], cap, count);
      }
    }
  }

  lemma KeywordIsRefused(spec: string, cap: Option<nat>, count: nat)
    requires IsKeyword(spec)
    ensures ReadList(false, spec, cap, count).None?
  {
    var s := SkipBlanks(spec);
    assert spec != "";
    assert !IsDigit(s[0]);
  }

  lemma SkipBlanksTwice(s: string)
    ensures SkipBlanks(SkipBlanks(s)) == SkipBlanks(s)
  {
    var _ := BlanksSkipped(s);
  }

  /** Leading blanks make no difference unless there is nothing else. */
  lemma LeadingBlanks(crlf: bool, spec: string, cap: Option<nat>, count: nat)
    requires SkipBlanks(spec) != ""
    ensures ReadList(crlf, SkipBlanks(spec), cap, count) == ReadList(crlf, spec, cap, count)
  {
    SkipBlanksTwice(spec);
    assert ReadNumber(SkipBlanks(spec), cap) == ReadNumber(spec, cap);
  }

  /** The two parsers agree on every specification that is not blank, not a keyword and without
      line ends; on all others the extractor refuses.  This is their whole relation. */
  lemma ParsersAgree(spec: string, count: nat)
    requires 1 <= count <= MAX_EPISODES
    ensures Extractor(spec, count) ==
              if SkipBlanks(spec) == "" || IsKeyword(spec) || HasLineEnd(spec) then None else Tui(spec, count)
  {
    var cap := Some(MAX_EPISODES + 1);
    if IsKeyword(spec) {
      KeywordIsRefused(spec, cap, count);
    } else if HasLineEnd(spec) {
      LineEndIsRefused(spec, cap, count);
    } else if SkipBlanks(spec) != "" {
      SharedReading(spec, count);
    } else if spec != "" {
      assert ReadItem(false, spec, cap).None?;
    }
  }

  /** What the two make of a specification they share. */
  lemma SharedReading(spec: string, count: nat)
    requires count <= MAX_EPISODES && SkipBlanks(spec) != "" && !HasLineEnd(spec)
    ensures ReadList(false, spec, Some(MAX_EPISODES + 1), count) ==
            ReadList(true, SkipBlanks(spec), Some(count + 1), count) != Some([])
  {
    ClampIsHarmless(false, spec, MAX_EPISODES + 1, count);
    TuiReading(spec, count);
    ReadListSame(spec, None, count);
    NonEmptyList(spec, count);
  }

  lemma TuiReading(spec: string, count: nat)
    requires SkipBlanks(spec) != ""
    ensures ReadList(true, SkipBlanks(spec), Some(count + 1), count) == ReadList(true, spec, None, count)
  {
    ClampIsHarmless(true, SkipBlanks(spec), count + 1, count);
    LeadingBlanks(true, spec, None, count);
  }

  lemma NonEmptyList(spec: string, count: nat)
    requires spec != ""
    ensures ReadList(false, spec, None, count) != Some([])
  {
  }

  /** On the specifications they share, both select exactly the union of the listed ranges. */
  lemma BothSelectUnion(spec: string, count: nat, rs: seq<Range>)
    requires 1 <= count <= MAX_EPISODES
    requires SkipBlanks(spec) != "" && !IsKeyword(spec) && !HasLineEnd(spec)
    requires IsList(false, spec, rs) && forall q <- rs :: Allowed(q, count)
    ensures Extractor(spec, count) == Tui(spec, count) == Some(Marks(rs, count))
  {
    ParsersAgree(spec, count);
    AcceptedIffGrammar(false, spec, rs, count);
    ClampIsHarmless(false, spec, MAX_EPISODES + 1, count);
    NonEmptyList(spec, count);
  }

  /** With more episodes than that, a number just above the count slips through as the clamp. */
  lemma ClampAccepts(count: nat) returns (spec: string)
    requires count > MAX_EPISODES
    ensures ReadList(false, spec, Some(MAX_EPISODES + 1), count).Some?
    ensures ReadList(false, spec, None, count).None?
  {
    spec := Decimal(count + 1);
    ListOfNumber(spec, None, count);
    ListOfNumber(spec, Some(MAX_EPISODES + 1), count);
  }

  /** The extractor's fixed clamp is harmless exactly up to MAX_EPISODES episodes. */
  lemma ExtractorClampIff(count: nat)
    ensures (forall spec: string ::
               ReadList(false, spec, Some(MAX_EPISODES + 1), count) == ReadList(false, spec, None, count))
            <==> count <= MAX_EPISODES
  {
    if count <= MAX_EPISODES {
      forall spec: string
        ensures ReadList(false, spec, Some(MAX_EPISODES + 1), count) == ReadList(false, spec, None, count)
      {
        ClampIsHarmless(false, spec, MAX_EPISODES + 1, count);
      }
    } else {
      var spec := ClampAccepts(count);
    }
  }
}
