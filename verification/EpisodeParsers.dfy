/**
 The two parsers as cursor loops over the specification: extractor_parse_episodes, which returns a
 fresh selection, and tui_apply_spec, which fills a copy and overwrites the caller's selection only
 on success.
 */
module EpisodeParsers {
  import opened Prelude
  import opened Strings
  import opened EpisodeSpec

  // ----- cursor steps

  method SkipBlanksAt(s: string, p: nat) returns (q: nat)
    requires p <= |s|
    ensures p <= q <= |s| && s[q..] == SkipBlanks(s[p..])
  {
    q := p;
    while q < |s| && IsBlank(s[q])
      invariant p <= q <= |s| && SkipBlanks(s[q..]) == SkipBlanks(s[p..])
    {
      assert s[q..][1..] == s[q + 1..];
      q := q + 1;
    }
  }

  method SkipTrailAt(crlf: bool, s: string, p: nat) returns (q: nat)
    requires p <= |s|
    ensures p <= q <= |s| && s[q..] == SkipTrail(crlf, s[p..])
  {
    q := p;
    while q < |s| && IsTrail(crlf, s[q])
      invariant p <= q <= |s| && SkipTrail(crlf, s[q..]) == SkipTrail(crlf, s[p..])
    {
      assert s[q..][1..] == s[q + 1..];
      q := q + 1;
    }
  }

  /** The digit loop both parsers run: clamping at every digit is clamping once at the end. */
  method ReadDigits(s: string, p: nat, cap: nat) returns (v: nat, q: nat)
    requires p <= |s|
    ensures p <= q <= |s| && q - p == DigitRun(s[p..])
    ensures v == Min(Value(s[p..][..q - p]), cap)
  {
    v, q := 0, p;
    while q < |s| && IsDigit(s[q])
      invariant p <= q <= |s| && AllDigits(s[p..][..q - p])
      invariant v == Min(Value(s[p..][..q - p]), cap)
    {
      var seen := s[p..][..q + 1 - p];
      assert seen == s[p..][..q - p] + [s[q]];
      assert seen[..|seen| - 1] == s[p..][..q - p];
      v := v * 10 + DigitValue(s[q]);
      if v > cap {
        v := cap;
      }
      q := q + 1;
    }
    assert q < |s| ==> s[p..][q - p] == s[q];
    DigitRunIs(s[p..], q - p);
  }

  /** Blanks and a number at the cursor; without a digit the cursor stays behind the blanks. */
  method NumberAt(s: string, p: nat, cap: nat) returns (found: bool, v: nat, q: nat)
    requires p <= |s|
    ensures p <= q <= |s|
    ensures if found then p < q && ReadNumber(s[p..], Some(cap)) == Some((v, s[q..]))
            else ReadNumber(s[p..], Some(cap)).None?
  {
    var p1 := SkipBlanksAt(s, p);
    if p1 == |s| || !IsDigit(s[p1]) {
      return false, 0, p1;
    }
    v, q := ReadDigits(s, p1, cap);
    found := true;
  }

  /** The same with parse_uint of src/extractor.c, which answers -1 when there is no digit. */
  method ParseUint(s: string, p: nat) returns (v: int, q: nat)
    requires p <= |s|
    ensures p <= q <= |s|
    ensures if v >= 0 then p < q && ReadNumber(s[p..], Some(MAX_EPISODES + 1)) == Some((v, s[q..]))
            else v == -1 && ReadNumber(s[p..], Some(MAX_EPISODES + 1)).None?
  {
    var found, n;
    found, n, q := NumberAt(s, p, MAX_EPISODES + 1);
    v := if found then n else -1;
  }

  // ----- one item

  /** What follows the first number a, as extractor_parse_episodes reads it. */
  method ExtractorTail(s: string, p: nat, a: int, count: nat) returns (ok: bool, b: int, q: nat)
    requires p <= |s| && 1 <= a <= count
    ensures var tail := ReadTail(false, a, s[p..], Some(MAX_EPISODES + 1));
            && (ok <==> tail.Some? && Allowed(tail.value.0, count))
            && (ok ==> p <= q <= |s| && tail == Some(((a, b), s[q..])))
  {
    b := a;
    q := SkipBlanksAt(s, p);
    if q < |s| && s[q] == '-' {
      assert s[q..][1..] == s[q + 1..];
      b, q := ParseUint(s, q + 1);
      if b < a || b > count {
        return false, b, q;
      }
    }
    q := SkipTrailAt(false, s, q);
    ok := true;
  }

  /** The item at the cursor, as extractor_parse_episodes reads it. */
  method ExtractorItem(s: string, p: nat, count: nat) returns (ok: bool, a: int, b: int, q: nat)
    requires p <= |s|
    ensures var item := ReadItem(false, s[p..], Some(MAX_EPISODES + 1));
            && (ok <==> item.Some? && Allowed(item.value.0, count))
            && (ok ==> p < q <= |s| && item == Some(((a, b), s[q..])))
  {
    a, q := ParseUint(s, p);
    if a < 1 || a > count {
      return false, a, a, q;
    }
    ok, b, q := ExtractorTail(s, q, a, count);
  }

  /** What follows the first number a, as tui_apply_spec reads it. */
  method TuiTail(s: string, p: nat, a: nat, n: nat) returns (ok: bool, b: nat, q: nat)
    requires p <= |s|
    ensures var tail := ReadTail(true, a, s[p..], Some(n + 1));
            && (ok <==> tail.Some? && Allowed(tail.value.0, n))
            && (ok ==> p <= q <= |s| && tail == Some(((a, b), s[q..])))
  {
    b := a;
    q := SkipBlanksAt(s, p);
    if q < |s| && s[q] == '-' {
      assert s[q..][1..] == s[q + 1..];
      ok, b, q := NumberAt(s, q + 1, n + 1);
      if !ok {
        return;
      }
    }
    if a < 1 || a > n || b < a || b > n {
      return false, b, q;
    }
    q := SkipTrailAt(true, s, q);
    ok := true;
  }

  /** The item at the cursor, as tui_apply_spec reads it. */
  method TuiItem(s: string, p: nat, n: nat) returns (ok: bool, a: nat, b: nat, q: nat)
    requires p <= |s|
    ensures var item := ReadItem(true, s[p..], Some(n + 1));
            && (ok <==> item.Some? && Allowed(item.value.0, n))
            && (ok ==> p < q <= |s| && item == Some(((a, b), s[q..])))
  {
    ok, a, q := NumberAt(s, p, n + 1);
    if !ok {
      return false, a, a, q;
    }
    ok, b, q := TuiTail(s, q, a, n);
  }

  // ----- the selection

  method MarkRange(sel: array<bool>, a: int, b: int)
    requires 1 <= a <= b <= sel.Length
    modifies sel
    ensures forall i | 0 <= i < sel.Length :: sel[i] == (old(sel[i]) || a <= i + 1 <= b)
  {
    for k := a to b + 1
      invariant forall i | 0 <= i < sel.Length :: sel[i] == (old(sel[i]) || a <= i + 1 < k)
    {
      sel[k - 1] := true;
    }
  }

  /** The selection holds the ranges read so far. */
  ghost predicate Holds(sel: seq<bool>, rs: seq<Range>) {
    forall i | 0 <= i < |sel| :: sel[i] == InSome(rs, i + 1)
  }

  lemma HoldsNext(before: seq<bool>, after: seq<bool>, rs: seq<Range>, r: Range)
    requires Holds(before, rs) && |after| == |before|
    requires forall i | 0 <= i < |after| :: after[i] == (before[i] || r.0 <= i + 1 <= r.1)
    ensures Holds(after, rs + [r])
  {
    var all := rs + [r];
    assert all[|rs|] == r;
    forall i | 0 <= i < |after|
      ensures after[i] == InSome(all, i + 1)
    {
      if InSome(rs, i + 1) {
        var k :| 0 <= k < |rs| && rs[k].0 <= i + 1 <= rs[k].1;
        assert all[k] == rs[k];
      }
    }
  }

  lemma HoldsIsMarks(sel: seq<bool>, rs: seq<Range>)
    requires Holds(sel, rs)
    ensures sel == Marks(rs, |sel|)
  {
  }

  /** The ranges read so far, followed by what the rest of the specification reads as. */
  ghost function Joined(rs: seq<Range>, rest: Option<seq<Range>>): Option<seq<Range>> {
    if rest.None? then None else Some(rs + rest.value)
  }

  /** Without an item in bounds at its start, a specification is refused. */
  lemma JoinedRefused(crlf: bool, s: string, cap: Option<nat>, count: nat, rs: seq<Range>)
    requires s != "" && (ReadItem(crlf, s, cap).None? || !Allowed(ReadItem(crlf, s, cap).value.0, count))
    ensures Joined(rs, ReadList(crlf, s, cap, count)).None?
  {
  }

  lemma JoinedLast(crlf: bool, s: string, cap: Option<nat>, count: nat, rs: seq<Range>, r: Range, rest: string)
    requires s != "" && ReadItem(crlf, s, cap) == Some((r, rest)) && Allowed(r, count)
    requires rest == "" || rest[0] != ','
    ensures Joined(rs, ReadList(crlf, s, cap, count)) == if rest == "" then Some(rs + [r]) else None
  {
  }

  lemma JoinedMore(crlf: bool, s: string, cap: Option<nat>, count: nat, rs: seq<Range>, r: Range, rest: string)
    requires s != "" && ReadItem(crlf, s, cap) == Some((r, rest)) && Allowed(r, count)
    requires rest != "" && rest[0] == ','
    ensures Joined(rs, ReadList(crlf, s, cap, count)) == Joined(rs + [r], ReadList(crlf, rest[1..], cap, count))
  {
    var more := ReadList(crlf, rest[1..], cap, count);
    if more.Some? {
      assert rs + ([r] + more.value) == rs + [r] + more.value;
    }
  }

  /** What is still to come, given where the loop stands. */
  ghost function Outcome(crlf: bool, rest: string, cap: Option<nat>, count: nat, rs: seq<Range>,
                         ok: bool, more: bool): Option<seq<Range>>
  {
    if !ok then None else if more then Joined(rs, ReadList(crlf, rest, cap, count)) else Some(rs)
  }

  lemma OutcomeAtStart(crlf: bool, s: string, cap: Option<nat>, count: nat)
    ensures Outcome(crlf, s, cap, count, [], true, true) == ReadList(crlf, s, cap, count)
  {
    if ReadList(crlf, s, cap, count).Some? {
      assert [] + ReadList(crlf, s, cap, count).value == ReadList(crlf, s, cap, count).value;
    }
  }

  lemma OutcomeAtEnd(crlf: bool, cap: Option<nat>, count: nat, rs: seq<Range>)
    ensures Outcome(crlf, "", cap, count, rs, true, true) == Some(rs)
  {
    assert rs + [] == rs;
  }

  /** Where the loop stands after the item: past a comma, at the end, or at something unexpected. */
  lemma OutcomeNext(crlf: bool, s: string, cap: Option<nat>, count: nat, r: Range, rest: string, rs: seq<Range>)
    requires s != "" && ReadItem(crlf, s, cap) == Some((r, rest)) && Allowed(r, count)
    ensures Outcome(crlf, s, cap, count, rs, true, true) ==
              if rest != "" && rest[0] == ',' then Outcome(crlf, rest[1..], cap, count, rs + [r], true, true)
              else Outcome(crlf, rest, cap, count, rs + [r], rest == "", false)
  {
    if rest != "" && rest[0] == ',' {
      JoinedMore(crlf, s, cap, count, rs, r, rest);
    } else {
      JoinedLast(crlf, s, cap, count, rs, r, rest);
    }
  }

  lemma HeadOfRest(s: string, q: nat)
    requires q <= |s|
    ensures s[q..] == "" <==> q == |s|
    ensures q < |s| ==> s[q..][0] == s[q] && s[q..][1..] == s[q + 1..]
  {
  }

  /** Looks for the comma after an item. */
  function AfterItem(s: string, q: nat): (bool, bool, nat)
    requires q <= |s|
  {
    if q < |s| && s[q] == ',' then (true, true, q + 1) else (q == |s|, false, q)
  }

  lemma AfterItemIs(crlf: bool, s: string, q: nat, cap: Option<nat>, count: nat, rs: seq<Range>)
    requires q <= |s|
    ensures var (ok, more, p') := AfterItem(s, q);
            && p' <= |s|
            && Outcome(crlf, s[p'..], cap, count, rs, ok, more) ==
               if s[q..] != "" && s[q..][0] == ',' then Outcome(crlf, s[q..][1..], cap, count, rs, true, true)
               else Outcome(crlf, s[q..], cap, count, rs, s[q..] == "", false)
  {
    HeadOfRest(s, q);
  }

  lemma OutcomeAfterItem(crlf: bool, s: string, p: nat, cap: Option<nat>, count: nat, r: Range, q: nat,
                         rs: seq<Range>)
    requires p < q <= |s| && ReadItem(crlf, s[p..], cap) == Some((r, s[q..])) && Allowed(r, count)
    ensures var (ok, more, p') := AfterItem(s, q);
            && p' <= |s|
            && Outcome(crlf, s[p..], cap, count, rs, true, true) ==
               Outcome(crlf, s[p'..], cap, count, rs + [r], ok, more)
  {
    OutcomeNext(crlf, s[p..], cap, count, r, s[q..], rs);
    AfterItemIs(crlf, s, q, cap, count, rs + [r]);
  }

  /** Marks the item just read and looks for the comma: the part both loops share. */
  method MarkItem(spec: string, sel: array<bool>, a: int, b: int, q: nat, ghost rs: seq<Range>)
    returns (ok: bool, more: bool, p': nat)
    requires q <= |spec| && 1 <= a <= b <= sel.Length && Holds(sel[..], rs)
    modifies sel
    ensures Holds(sel[..], rs + [(a, b)])
    ensures (ok, more, p') == AfterItem(spec, q)
  {
    MarkRange(sel, a, b);
    HoldsNext(old(sel[..]), sel[..], rs, (a, b));
    if q < |spec| && spec[q] == ',' {
      return true, true, q + 1;
    }
    return q == |spec|, false, q;
  }

  function Marked(sel: seq<bool>): (n: nat)
    ensures n <= |sel|
  {
    if sel == [] then 0 else Marked(sel[..|sel| - 1]) + if sel[|sel| - 1] then 1 else 0
  }

  lemma {:induction false} MarkedZero(sel: seq<bool>)
    ensures Marked(sel) == 0 <==> forall i | 0 <= i < |sel| :: !sel[i]
  {
    if sel == [] {
    } else {
      MarkedZero(sel[..|sel| - 1]);
    }
  }

  lemma {:induction false} ReadRangesAllowed(crlf: bool, s: string, cap: Option<nat>, count: nat)
    requires ReadList(crlf, s, cap, count).Some?
    ensures forall r <- ReadList(crlf, s, cap, count).value :: Allowed(r, count)
    decreases |s|
  {
    if s == "" {
    } else {
      var rest := ReadItem(crlf, s, cap).value.1;
      if rest != "" {
        ReadRangesAllowed(crlf, rest[1..], cap, count);
      }
    }
  }

  /** A selection is empty exactly when no range was read. */
  lemma EmptyIffNoRange(rs: seq<Range>, count: nat)
    requires forall r <- rs :: Allowed(r, count)
    ensures Marked(Marks(rs, count)) == 0 <==> rs == []
  {
    MarkedZero(Marks(rs, count));
    if rs != [] {
      assert rs[0] in rs;
      assert InSome(rs, rs[0].0);
      assert Marks(rs, count)[rs[0].0 - 1];
    }
  }

  // ----- the two parsers

  lemma NothingHeld(sel: seq<bool>)
    requires forall i | 0 <= i < |sel| :: !sel[i]
    ensures Holds(sel, [])
  {
  }

  /** extractor_parse_episodes: null is the failure return. */
  method ParseEpisodes(spec: string, count: nat) returns (sel: array?<bool>, nsel: nat)
    ensures sel == null <==> Extractor(spec, count).None?
    ensures sel != null ==> fresh(sel) && Extractor(spec, count) == Some(sel[..]) && nsel == Marked(sel[..])
  {
    if count == 0 {
      return null, 0;
    }
    var marks := new bool[count](_ => false);
    var ok;
    ghost var rs;
    ok, rs := ExtractorLoop(spec, marks);
    if !ok {
      return null, 0;
    }
    HoldsIsMarks(marks[..], rs);
    ReadRangesAllowed(false, spec, Some(MAX_EPISODES + 1), count);
    EmptyIffNoRange(rs, count);
    nsel := CountMarked(marks);
    sel := if nsel == 0 then null else marks;
  }

  method CountMarked(marks: array<bool>) returns (nsel: nat)
    ensures nsel == Marked(marks[..])
  {
    nsel := 0;
    for i := 0 to marks.Length
      invariant nsel == Marked(marks[..i])
    {
      assert marks[..i + 1][..i] == marks[..i];
      if marks[i] {
        nsel := nsel + 1;
      }
    }
    assert marks[..marks.Length] == marks[..];
  }

  /** The loop of extractor_parse_episodes over the items. */
  method ExtractorLoop(spec: string, marks: array<bool>) returns (ok: bool, ghost rs: seq<Range>)
    requires forall i | 0 <= i < marks.Length :: !marks[i]
    modifies marks
    ensures ReadList(false, spec, Some(MAX_EPISODES + 1), marks.Length) == if ok then Some(rs) else None
    ensures Holds(marks[..], rs)
  {
    ghost var cap := Some(MAX_EPISODES + 1);
    var p, more := 0, true;
    ok, rs := true, [];
    NothingHeld(marks[..]);
    ghost var whole := ReadList(false, spec, cap, marks.Length);
    OutcomeAtStart(false, spec, cap, marks.Length);
    assert spec[0..] == spec;
    while ok && more && p < |spec|
      invariant p <= |spec| && Holds(marks[..], rs)
      invariant whole == Outcome(false, spec[p..], cap, marks.Length, rs, ok, more)
      decreases |spec| - p
    {
      var a, b, q;
      ok, a, b, q := ExtractorItem(spec, p, marks.Length);
      if !ok {
        JoinedRefused(false, spec[p..], cap, marks.Length, rs);
        break;
      }
      OutcomeAfterItem(false, spec, p, cap, marks.Length, (a, b), q, rs);
      ok, more, p := MarkItem(spec, marks, a, b, q, rs);
      rs := rs + [(a, b)];
    }
    OutcomeAtEnd(false, cap, marks.Length, rs);
    assert p == |spec| ==> spec[p..] == "";
  }

  /** The loop of tui_apply_spec over the items. */
  method TuiLoop(spec: string, tmp: array<bool>) returns (ok: bool, ghost rs: seq<Range>)
    requires forall i | 0 <= i < tmp.Length :: !tmp[i]
    modifies tmp
    ensures ReadList(true, spec, Some(tmp.Length + 1), tmp.Length) == if ok then Some(rs) else None
    ensures Holds(tmp[..], rs)
  {
    ghost var cap := Some(tmp.Length + 1);
    var p, more := 0, true;
    ok, rs := true, [];
    NothingHeld(tmp[..]);
    ghost var whole := ReadList(true, spec, cap, tmp.Length);
    OutcomeAtStart(true, spec, cap, tmp.Length);
    assert spec[0..] == spec;
    while ok && more && p < |spec|
      invariant p <= |spec| && Holds(tmp[..], rs)
      invariant whole == Outcome(true, spec[p..], cap, tmp.Length, rs, ok, more)
      decreases |spec| - p
    {
      var a, b, q;
      ok, a, b, q := TuiItem(spec, p, tmp.Length);
      if !ok {
        JoinedRefused(true, spec[p..], cap, tmp.Length, rs);
        break;
      }
      OutcomeAfterItem(true, spec, p, cap, tmp.Length, (a, b), q, rs);
      ok, more, p := MarkItem(spec, tmp, a, b, q, rs);
      rs := rs + [(a, b)];
    }
    OutcomeAtEnd(true, cap, tmp.Length, rs);
    assert p == |spec| ==> spec[p..] == "";
  }

  /** tui_apply_spec: on failure the caller's selection is left alone. */
  method ApplySpec(spec: string, sel: array<bool>) returns (ok: bool)
    modifies sel
    ensures ok <==> Tui(spec, sel.Length).Some?
    ensures sel[..] == if ok then Tui(spec, sel.Length).value else old(sel[..])
  {
    var p := SkipBlanksAt(spec, 0);
    assert spec[0..] == spec;
    if IsKeywordText(spec[p..]) {
      SelectAll(sel);
      return true;
    }
    ok := ApplyList(spec[p..], sel);
  }

  /** Past the keywords: the selection becomes the listed ranges, or stays as it is. */
  method ApplyList(spec: string, sel: array<bool>) returns (ok: bool)
    modifies sel
    ensures var rs := ReadList(true, spec, Some(sel.Length + 1), sel.Length);
            (ok <==> rs.Some?) && (ok ==> sel[..] == Marks(rs.value, sel.Length))
    ensures !ok ==> sel[..] == old(sel[..])
  {
    var tmp;
    ok, tmp := FreshSelection(spec, sel.Length);
    if ok {
      CopySelection(tmp, sel);
    }
  }

  /** The copy the listed ranges are collected in. */
  method FreshSelection(spec: string, n: nat) returns (ok: bool, tmp: array<bool>)
    ensures fresh(tmp) && tmp.Length == n
    ensures ok <==> ReadList(true, spec, Some(n + 1), n).Some?
    ensures ok ==> tmp[..] == Marks(ReadList(true, spec, Some(n + 1), n).value, n)
  {
    tmp := new bool[n](_ => false);
    ghost var rs;
    ok, rs := TuiLoop(spec, tmp);
    HoldsIsMarks(tmp[..], rs);
  }

  method SelectAll(sel: array<bool>)
    modifies sel
    ensures sel[..] == seq(sel.Length, _ => true)
  {
    for i := 0 to sel.Length
      invariant forall k | 0 <= k < i :: sel[k]
    {
      sel[i] := true;
    }
  }

  method CopySelection(src: array<bool>, dst: array<bool>)
    requires src != dst && src.Length == dst.Length
    modifies dst
    ensures dst[..] == src[..]
  {
    for i := 0 to src.Length
      invariant forall k | 0 <= k < i :: dst[k] == src[k]
    {
      dst[i] := src[i];
    }
  }
}
