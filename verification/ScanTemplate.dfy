/**
 Series detection in src/scan.c: an href is generalised to a template (each digit run becomes '#'),
 the dominant template becomes a POSIX extended regular expression, and that expression must
 capture exactly the hrefs of the group.
 */
module ScanTemplate {
  import opened Prelude
  import opened Strings

  const SERIES_MIN := 3
  const TEMPLATE_CAP := 510   // sizeof(tmp) - 2
  const ERE_CAP := 502        // sizeof(e_body) - 10
  const LIST_ERE_CAP := 600   // sizeof(list_ere_buf)
  const DIGIT_RUN := "[0-9]+"
  const ESCAPED := ".^$*+?()|[]\\"
  const ERE_SPECIAL := ".^$*+?()|[]{}\\"

  // ----- templates

  function Template(s: string): string
    decreases |s|
  {
    if s == "" then ""
    else if IsDigit(s[0]) then "#" + Template(s[DigitRun(s)..])
    else [s[0]] + Template(s[1..])
  }

  function Cap(s: string, n: nat): string {
    if |s| <= n then s else s[..n]
  }

  method SkipDigits(s: string, from: nat) returns (q: nat)
    requires from < |s| && IsDigit(s[from])
    ensures q == from + DigitRun(s[from..]) && from < q
  {
    q := from;
    while q < |s| && IsDigit(s[q])
      invariant from <= q <= |s|
      invariant q - from + DigitRun(s[q..]) == DigitRun(s[from..])
    {
      assert s[q..][1..] == s[q + 1..];
      q := q + 1;
    }
  }

  /** What build_series_from_hrefs writes into its 512-byte buffer. */
  method BuildTemplate(href: string) returns (t: string)
    ensures t == Cap(Template(href), TEMPLATE_CAP)
  {
    t := "";
    var q := 0;
    while q < |href| && |t| < TEMPLATE_CAP
      invariant 0 <= q <= |href| && |t| <= TEMPLATE_CAP
      invariant t + Template(href[q..]) == Template(href)
      decreases |href| - q
    {
      if IsDigit(href[q]) {
        ghost var q0 := q;
        q := SkipDigits(href, q);
        assert href[q0..][DigitRun(href[q0..])..] == href[q..];
        assert t + Template(href[q0..]) == (t + "#") + Template(href[q..]);
        t := t + "#";
      } else {
        assert href[q..][1..] == href[q + 1..];
        assert t + Template(href[q..]) == (t + [href[q]]) + Template(href[q + 1..]);
        t := t + [href[q]];
        q := q + 1;
      }
    }
    assert href[|href|..] == "";
  }

  /** Exactly the strings Template can produce from strings without '#'. */
  predicate IsTemplate(t: string) {
    && (forall c <- t :: !IsDigit(c))
    && (forall i | 0 <= i < |t| - 1 :: !(t[i] == '#' && t[i + 1] == '#'))
  }

  // ----- the expression

  /** What one template character contributes. */
  function EreOf(c: char): string {
    if c == '#' then DIGIT_RUN else if c in ESCAPED then ['\\', c] else [c]
  }

  function EreBody(t: string): string {
    if t == "" then "" else EreOf(t[0]) + EreBody(t[1..])
  }

  lemma {:induction false} EreBodySnoc(t: string, k: nat)
    requires k < |t|
    ensures EreBody(t[..k + 1]) == EreBody(t[..k]) + EreOf(t[k])
    decreases k
  {
    if k != 0 {
      EreBodySnoc(t[1..], k - 1);
      assert t[..k + 1][1..] == t[1..][..k] && t[..k][1..] == t[1..][..k - 1];
    } else {
      assert t[..1][1..] == "" && t[..0] == "";
    }
  }

  /** Where the loop that writes the expression stops: at the end, or when its buffer is nearly full. */
  function EreStop(t: string, q: nat): (k: nat)
    requires q <= |t|
    ensures q <= k <= |t|
    ensures forall j | q <= j < k :: |EreBody(t[..j])| < ERE_CAP
    ensures k < |t| ==> ERE_CAP <= |EreBody(t[..k])|
    decreases |t| - q
  {
    if q == |t| || |EreBody(t[..q])| >= ERE_CAP then q else EreStop(t, q + 1)
  }

  /** The part of a template that makes it into the expression. */
  function Kept(t: string): string { t[..EreStop(t, 0)] }

  /** The expression the code emits for a template. */
  function Emitted(t: string): string { EreBody(Kept(t)) }

  method BuildEre(t: string) returns (e: string)
    ensures e == Emitted(t) && |e| < ERE_CAP + 6
  {
    e := "";
    var q := 0;
    while q < |t| && |e| < ERE_CAP
      invariant 0 <= q <= |t| && e == EreBody(t[..q]) && |e| < ERE_CAP + 6
      invariant EreStop(t, q) == EreStop(t, 0)
    {
      EreBodySnoc(t, q);
      if t[q] == '#' {
        e := e + DIGIT_RUN;
      } else {
        if t[q] in ESCAPED {
          e := e + "\\";
        }
        e := e + [t[q]];
      }
      q := q + 1;
    }
  }

  /** The whole template makes it exactly when the buffer still has room before its last character. */
  predicate Whole(t: string) { t == "" || |EreBody(t[..|t| - 1])| < ERE_CAP }

  lemma KeptIffWhole(t: string)
    ensures Kept(t) == t <==> Whole(t)
    ensures |Kept(t)| <= ERE_CAP
  {
    var k := EreStop(t, 0);
    if t == "" {
    } else if k == |t| {
      assert |EreBody(t[..|t| - 1])| < ERE_CAP;
      assert t[..|t|] == t;
    } else {
      EreBodyGrows(t[..|t| - 1], k);
      assert t[..|t| - 1][..k] == t[..k];
    }
    if k > 0 {
      EreBodyGrows(t[..k - 1], 0);
    }
  }

  lemma {:induction false} EreBodyGrows(t: string, k: nat)
    requires k <= |t|
    ensures |EreBody(t[..k])| + (|t| - k) <= |EreBody(t)|
    decreases |t| - k
  {
    if k < |t| {
      EreBodySnoc(t, k);
      EreBodyGrows(t, k + 1);
    } else {
      assert t[..k] == t;
    }
  }

  // ----- its meaning

  datatype Token = Literal(c: char) | Digits

  /** Reads the fragment of POSIX extended regular expressions made of plain characters, escaped
      characters and "[0-9]+"; anything else is outside it. */
  function ReadEre(e: string): Option<seq<Token>>
    decreases |e|
  {
    if e == "" then Some([])
    else if |e| >= 6 && e[..6] == DIGIT_RUN then Prepend(Digits, ReadEre(e[6..]))
    else if e[0] == '\\' then
      if |e| == 1 then None else Prepend(Literal(e[1]), ReadEre(e[2..]))
    else if e[0] in ERE_SPECIAL then None
    else Prepend(Literal(e[0]), ReadEre(e[1..]))
  }

  function Prepend(t: Token, ts: Option<seq<Token>>): Option<seq<Token>> {
    if ts.None? then None else Some([t] + ts.value)
  }

  /** The strings an expression matches from end to end. */
  ghost predicate Matches(ts: seq<Token>, s: string)
    decreases |ts|
  {
    if ts == [] then s == ""
    else match ts[0]
      case Literal(c) => s != "" && s[0] == c && Matches(ts[1..], s[1..])
      case Digits => exists n :: 1 <= n <= |s| && AllDigits(s[..n]) && Matches(ts[1..], s[n..])
  }

  function Tokens(t: string): seq<Token> {
    seq(|t|, i requires 0 <= i < |t| => TokenOf(t[i]))
  }

  function TokenOf(c: char): Token { if c == '#' then Digits else Literal(c) }

  lemma ReadEreStep(c: char, rest: string, e: string)
    requires e == EreOf(c) + rest
    ensures ReadEre(e) == if c == '{' || c == '}' then None else Prepend(TokenOf(c), ReadEre(rest))
  {
    if c == '#' {
      assert e[..6] == DIGIT_RUN && e[6..] == rest;
      assert ReadEre(e) == Prepend(Digits, ReadEre(rest));
    } else {
      assert DIGIT_RUN[0] == '[' && '[' in ESCAPED;
      assert |e| >= 6 ==> e[..6][0] == e[0];
      assert !(|e| >= 6 && e[..6] == DIGIT_RUN);
      if c in ESCAPED {
        assert e[0] == '\\' && e[1] == c && e[2..] == rest;
        assert '{' !in ESCAPED && '}' !in ESCAPED;
        assert ReadEre(e) == Prepend(Literal(c), ReadEre(rest));
      } else {
        assert '\\' in ESCAPED;
        assert e[0] == c != '\\' && e[1..] == rest;
        PlainOrBrace(c);
        assert ReadEre(e) == if c == '{' || c == '}' then None else Prepend(Literal(c), ReadEre(rest));
      }
    }
  }

  lemma PlainOrBrace(c: char)
    requires c !in ESCAPED
    ensures c in ERE_SPECIAL <==> c == '{' || c == '}'
  {
    assert ERE_SPECIAL[11] == '{' && ERE_SPECIAL[12] == '}';
    assert ESCAPED[11] == ERE_SPECIAL[13] && forall i | 0 <= i < 11 :: ERE_SPECIAL[i] == ESCAPED[i];
  }

  /** The escaping is right: the expression reads back as the template, unless a brace, which the
      code does not escape, makes it something else. */
  lemma {:induction false} EreReadsBack(t: string)
    ensures ReadEre(EreBody(t)) == if '{' in t || '}' in t then None else Some(Tokens(t))
    decreases |t|
  {
    if t != "" {
      EreReadsBack(t[1..]);
      ReadEreStep(t[0], EreBody(t[1..]), EreBody(t));
      assert Tokens(t) == [TokenOf(t[0])] + Tokens(t[1..]);
      assert forall c :: c in t <==> c == t[0] || c in t[1..];
    } else {
      assert Tokens(t) == [];
    }
  }

  lemma TemplateCons(c: char, t: string)
    requires IsTemplate(t) && !IsDigit(c) && (c == '#' && t != "" ==> t[0] != '#')
    ensures IsTemplate([c] + t)
  {
    var all := [c] + t;
    forall i | 0 <= i < |all| - 1
      ensures !(all[i] == '#' && all[i + 1] == '#')
    {
      assert all[i + 1] == t[i] && (i > 0 ==> all[i] == t[i - 1]);
    }
  }

  lemma {:induction false} TemplateIsTemplate(s: string)
    requires '#' !in s
    ensures IsTemplate(Template(s))
    ensures Template(s) != "" && Template(s)[0] == '#' <==> s != "" && IsDigit(s[0])
    decreases |s|
  {
    if s == "" {
    } else {
      var n := if IsDigit(s[0]) then DigitRun(s) else 1;
      assert s[0] in s && forall c <- s[n..] :: c in s;
      TemplateIsTemplate(s[n..]);
      TemplateCons(if IsDigit(s[0]) then '#' else s[0], Template(s[n..]));
    }
  }

  /** The translation is exact: a string without '#' matches the expression of a template exactly
      when the template is its own. */
  lemma {:induction false} TemplateExact(t: string, s: string)
    requires IsTemplate(t) && '#' !in s
    ensures Matches(Tokens(t), s) <==> Template(s) == t
    decreases |t|
  {
    if t == "" {
      assert Tokens(t) == [];
    } else {
      var ts, rest := Tokens(t), t[1..];
      assert ts[1..] == Tokens(rest);
      assert forall c <- rest :: c in t;
      if t[0] == '#' {
        DigitsExact(t, s);
      } else {
        assert t[0] in t;
        if s != "" {
          assert forall c <- s[1..] :: c in s;
          TemplateExact(rest, s[1..]);
          assert s[0] in s;
          assert t == [t[0]] + rest;
        }
      }
    }
  }

  lemma {:induction false} DigitsExact(t: string, s: string)
    requires IsTemplate(t) && '#' !in s && t != "" && t[0] == '#'
    ensures Matches(Tokens(t), s) <==> Template(s) == t
    decreases |t|, 0
  {
    var ts, rest := Tokens(t), t[1..];
    assert ts[1..] == Tokens(rest);
    assert forall c <- rest :: c in t;
    assert IsTemplate(rest) && (rest != "" ==> t[1] == rest[0] != '#');
    assert t == "#" + rest;
    if Matches(ts, s) {
      var n :| 1 <= n <= |s| && AllDigits(s[..n]) && Matches(ts[1..], s[n..]);
      assert forall c <- s[n..] :: c in s;
      TemplateExact(rest, s[n..]);
      TemplateIsTemplate(s[n..]);
      assert s[..n][0] == s[0];
      DigitRunIs(s, n);
    }
    if Template(s) == t {
      TemplateIsTemplate(s);
      var n := DigitRun(s);
      assert forall c <- s[n..] :: c in s;
      assert Template(s) == "#" + Template(s[n..]);
      assert Template(s)[1..] == Template(s[n..]);
      TemplateExact(rest, s[n..]);
      assert Matches(ts[1..], s[n..]);
    }
  }

  function Instance(t: string): string {
    seq(|t|, i requires 0 <= i < |t| => if t[i] == '#' then '0' else t[i])
  }

  lemma {:induction false} InstanceMatches(t: string)
    ensures Matches(Tokens(t), Instance(t))
    decreases |t|
  {
    if t == "" {
    } else {
      InstanceMatches(t[1..]);
      assert Tokens(t)[1..] == Tokens(t[1..]) && Instance(t)[1..] == Instance(t[1..]);
      assert t[0] == '#' ==> AllDigits(Instance(t)[..1]);
    }
  }

  /** ... and templates are exactly the strings for which that holds. */
  lemma OnlyTemplatesAreExact(t: string)
    ensures IsTemplate(t) <==>
              forall s: string | '#' !in s :: Matches(Tokens(t), s) <==> Template(s) == t
  {
    if IsTemplate(t) {
      forall s: string | '#' !in s
        ensures Matches(Tokens(t), s) <==> Template(s) == t
      {
        TemplateExact(t, s);
      }
    } else {
      var s := Instance(t);
      InstanceMatches(t);
      TemplateIsTemplate(s);
    }
  }

  // ----- choosing the series

  function Count(ts: seq<string>, t: string): nat {
    if ts == [] then 0 else Count(ts[..|ts| - 1], t) + if ts[|ts| - 1] == t then 1 else 0
  }

  /** How a template relates to the landing page: tier 0 to 2, then common prefix, then size. */
  datatype Score = Score(tier: int, prefix: nat, count: nat)

  predicate Better(a: Score, b: Score) {
    a.tier > b.tier
    || (a.tier == b.tier && a.prefix > b.prefix)
    || (a.tier == b.tier && a.prefix == b.prefix && a.count > b.count)
  }

  /** Both signals as functions of the template: the regular-expression test against the landing
      page, and the common path prefix. */
  datatype Relation = Relation(hitsLanding: string -> bool, prefix: string -> nat)

  function ScoreOf(r: Relation, ts: seq<string>, t: string): Score {
    if r.hitsLanding(t) then Score(2, 0, Count(ts, t))
    else Score(if r.prefix(t) > 1 then 1 else 0, r.prefix(t), Count(ts, t))
  }

  predicate Eligible(ts: seq<string>, t: string) { Count(ts, t) >= SERIES_MIN }

  method CountTemplate(ts: seq<string>, t: string) returns (n: nat)
    ensures n == Count(ts, t)
  {
    n := 0;
    var j := 0;
    while j < |ts|
      invariant 0 <= j <= |ts| && n == Count(ts[..j], t)
    {
      assert ts[..j + 1][..j] == ts[..j];
      if ts[j] == t { n := n + 1; }
      j := j + 1;
    }
    assert ts[..|ts|] == ts;
  }

  /** The dominant template: an eligible one no other eligible template beats, the first of its kind. */
  method SelectTemplate(r: Relation, ts: seq<string>) returns (best: Option<nat>)
    ensures best.None? <==> forall t <- ts :: !Eligible(ts, t)
    ensures best.Some? ==>
              && best.value < |ts| && Eligible(ts, ts[best.value])
              && (forall t <- ts | Eligible(ts, t) :: !Better(ScoreOf(r, ts, t), ScoreOf(r, ts, ts[best.value])))
              && (forall k | 0 <= k < best.value && Eligible(ts, ts[k]) ::
                   Better(ScoreOf(r, ts, ts[best.value]), ScoreOf(r, ts, ts[k])))
  {
    best := None;
    var i := 0;
    while i < |ts|
      invariant 0 <= i <= |ts|
      invariant best.None? ==> forall k | 0 <= k < i :: !Eligible(ts, ts[k])
      invariant best.Some? ==>
                  && best.value < i && Eligible(ts, ts[best.value])
                  && (forall k | 0 <= k < i && Eligible(ts, ts[k]) ::
                       !Better(ScoreOf(r, ts, ts[k]), ScoreOf(r, ts, ts[best.value])))
                  && (forall k | 0 <= k < best.value && Eligible(ts, ts[k]) ::
                       Better(ScoreOf(r, ts, ts[best.value]), ScoreOf(r, ts, ts[k])))
    {
      var seen := ts[i] in ts[..i];
      var cnt := CountTemplate(ts, ts[i]);
      if !seen && cnt >= SERIES_MIN {
        var score := ScoreOf(r, ts, ts[i]);
        if best.None? || Better(score, ScoreOf(r, ts, ts[best.value])) {
          best := Some(i);
        }
      } else if seen {
        var k :| 0 <= k < i && ts[k] == ts[i];
      }
      i := i + 1;
    }
  }

  datatype Series = Series(template: string, listEre: string, firstEpisode: string)

  const PRE := "href=[\"']("
  const POST := ")[\"']"

  function Templates(hrefs: seq<string>): (ts: seq<string>)
    ensures |ts| == |hrefs|
  {
    seq(|hrefs|, i requires 0 <= i < |hrefs| => Cap(Template(hrefs[i]), TEMPLATE_CAP))
  }

  /** An eligible template no other eligible one beats. */
  ghost predicate Dominant(r: Relation, ts: seq<string>, t: string) {
    && t in ts && Eligible(ts, t)
    && forall u <- ts | Eligible(ts, u) :: !Better(ScoreOf(r, ts, u), ScoreOf(r, ts, t))
  }

  /** How the chosen template compares with any other family: if any matches the landing page it
      does, then the larger one counts; otherwise the longer common path with the landing page counts
      first and the larger family second. */
  lemma DominantMeans(r: Relation, ts: seq<string>, t: string, u: string)
    requires Dominant(r, ts, t) && u in ts && Count(ts, u) >= SERIES_MIN
    ensures Count(ts, t) >= SERIES_MIN
    ensures if r.hitsLanding(u) then r.hitsLanding(t) && Count(ts, t) >= Count(ts, u)
            else r.hitsLanding(t) || r.prefix(t) > r.prefix(u)
                 || (r.prefix(t) == r.prefix(u) && Count(ts, t) >= Count(ts, u))
  {
    assert Eligible(ts, u);
    assert !Better(ScoreOf(r, ts, u), ScoreOf(r, ts, t));
  }

  /** The text of the emitted list expression. */
  function ListEre(t: string): string { PRE + (Emitted(t) + POST) }

  /** build_series_from_hrefs, with every expression it builds taken to compile.  The expression always
      fits its buffer, so the code's own check of that never fails. */
  method BuildSeries(r: Relation, hrefs: seq<string>) returns (s: Option<Series>)
    ensures s.None? <==> forall t <- Templates(hrefs) :: !Eligible(Templates(hrefs), t)
    ensures s.Some? ==>
              && Dominant(r, Templates(hrefs), s.value.template)
              && s.value.listEre == ListEre(s.value.template) && |s.value.listEre| < LIST_ERE_CAP
              && IsFirstMember(hrefs, s.value.template, s.value.firstEpisode)
  {
    var ts := BuildTemplates(hrefs);
    var best := SelectTemplate(r, ts);
    if best.None? {
      return None;
    }
    var t := ts[best.value];
    var body := BuildEre(t);
    var i := FirstWith(ts, t);
    assert InGroup(t, hrefs[i]) && forall j | 0 <= j < i :: ts[j] == Cap(Template(hrefs[j]), TEMPLATE_CAP);
    s := Some(Series(t, PRE + (body + POST), hrefs[i]));
  }

  /** The first href with that template. */
  ghost predicate IsFirstMember(hrefs: seq<string>, t: string, href: string) {
    exists i | 0 <= i < |hrefs| ::
      hrefs[i] == href && InGroup(t, href) && forall j | 0 <= j < i :: !InGroup(t, hrefs[j])
  }

  method BuildTemplates(hrefs: seq<string>) returns (ts: seq<string>)
    ensures ts == Templates(hrefs)
  {
    ts := [];
    for i := 0 to |hrefs|
      invariant ts == Templates(hrefs)[..i]
    {
      var t := BuildTemplate(hrefs[i]);
      ts := ts + [t];
    }
  }

  method FirstWith(ts: seq<string>, t: string) returns (i: nat)
    requires t in ts
    ensures i < |ts| && ts[i] == t && forall j | 0 <= j < i :: ts[j] != t
  {
    i := 0;
    while ts[i] != t
      invariant 0 <= i < |ts| && forall j | 0 <= j < i :: ts[j] != t
      decreases |ts| - i
    {
      i := i + 1;
    }
  }

  // ----- what the emitted expression captures

  /** The hrefs an expression captures. */
  ghost predicate Captures(e: string, href: string) {
    ReadEre(e).Some? && Matches(ReadEre(e).value, href)
  }

  /** The group of a template: the hrefs that generalise to it within the template buffer. */
  predicate InGroup(t: string, href: string) { Cap(Template(href), TEMPLATE_CAP) == t }

  /** The emitted expression captures the members of the group without '#', and nothing else. */
  ghost predicate CapturesGroup(t: string) {
    forall href: string :: Captures(Emitted(t), href) <==> '#' !in href && InGroup(t, href)
  }

  predicate BraceFree(t: string) { '{' !in t && '}' !in t }

  lemma {:induction false} MatchedHasNoMark(t: string, s: string)
    requires Matches(Tokens(t), s)
    ensures '#' !in s
    decreases |t|
  {
    var ts := Tokens(t);
    if t == "" {
    } else {
      assert ts[1..] == Tokens(t[1..]);
      if t[0] == '#' {
        var n :| 1 <= n <= |s| && AllDigits(s[..n]) && Matches(ts[1..], s[n..]);
        MatchedHasNoMark(t[1..], s[n..]);
        assert s == s[..n] + s[n..];
      } else {
        MatchedHasNoMark(t[1..], s[1..]);
        assert s == [s[0]] + s[1..];
      }
    }
  }

  /** What is captured is what has no '#' and generalises to the kept part of the template. */
  lemma EmittedCaptures(t: string, href: string)
    requires BraceFree(t) && IsTemplate(t)
    ensures Captures(Emitted(t), href) <==> '#' !in href && Template(href) == Kept(t)
  {
    var p := Kept(t);
    assert forall c <- p :: c in t;
    EreReadsBack(p);
    if '#' in href {
      MarkIsNotCaptured(t, href);
    } else {
      TemplateExact(p, href);
    }
  }

  /** An href with '#' is never captured, whatever the template. */
  lemma MarkIsNotCaptured(t: string, href: string)
    requires BraceFree(t) && '#' in href
    ensures !Captures(Emitted(t), href)
  {
    var p := Kept(t);
    assert forall c <- p :: c in t;
    EreReadsBack(p);
    if Matches(Tokens(p), href) {
      MatchedHasNoMark(p, href);
    }
  }

  lemma {:induction false} TemplateNoLonger(s: string)
    ensures |Template(s)| <= |s|
    decreases |s|
  {
    if s == "" {
    } else {
      TemplateNoLonger(s[if IsDigit(s[0]) then DigitRun(s) else 1..]);
    }
  }

  lemma GroupHasTemplate(t: string, href: string)
    requires '#' !in href && InGroup(t, href)
    ensures IsTemplate(t)
  {
    TemplateIsTemplate(href);
    var whole := Template(href);
    assert forall c <- t :: c in whole;
    assert forall i | 0 <= i < |t| :: t[i] == whole[i];
  }

  lemma InstanceIsCaptured(t: string)
    requires BraceFree(t)
    ensures '#' !in Instance(Kept(t)) && Captures(Emitted(t), Instance(Kept(t)))
  {
    var p := Kept(t);
    assert forall c <- p :: c in t;
    EreReadsBack(p);
    InstanceMatches(p);
  }

  /** The emitted expression captures exactly the members of the group without '#' if and only if the
      string is a template of such hrefs and all of it made it into the expression. */
  lemma SeriesCapturesGroupIff(t: string)
    requires BraceFree(t)
    ensures CapturesGroup(t) <==> IsTemplate(t) && Whole(t)
  {
    KeptIffWhole(t);
    if IsTemplate(t) && Whole(t) {
      forall href: string
        ensures Captures(Emitted(t), href) <==> '#' !in href && InGroup(t, href)
      {
        EmittedCaptures(t, href);
      }
    }
    if CapturesGroup(t) {
      var s := Instance(Kept(t));
      InstanceIsCaptured(t);
      assert InGroup(t, s);
      GroupHasTemplate(t, s);
      TemplateNoLonger(s);
      assert |Template(s)| <= |Kept(t)| <= ERE_CAP;
    }
  }

  /** It captures the whole group, members with '#' included, if and only if moreover the template has
      no digit run: otherwise the template itself, read as an href, is a member it misses. */
  lemma WholeGroupIff(t: string)
    requires BraceFree(t)
    ensures (forall href: string :: Captures(Emitted(t), href) <==> InGroup(t, href)) <==>
              IsTemplate(t) && Whole(t) && '#' !in t
  {
    SeriesCapturesGroupIff(t);
    KeptIffWhole(t);
    if forall href: string :: Captures(Emitted(t), href) <==> InGroup(t, href) {
      forall href: string
        ensures Captures(Emitted(t), href) <==> '#' !in href && InGroup(t, href)
      {
        if '#' in href {
          MarkIsNotCaptured(t, href);
        }
      }
      assert CapturesGroup(t);
      TemplateOfTemplate(t);
      assert InGroup(t, t);
      if '#' in t {
        MarkIsNotCaptured(t, t);
      }
    }
    if IsTemplate(t) && Whole(t) && '#' !in t {
      forall href: string
        ensures Captures(Emitted(t), href) <==> InGroup(t, href)
      {
        if '#' in href {
          TemplateKeepsMark(href);
        }
      }
    }
  }

  lemma {:induction false} TemplateOfTemplate(t: string)
    requires forall c <- t :: !IsDigit(c)
    ensures Template(t) == t
    decreases |t|
  {
    if t == "" {
    } else {
      assert t[0] in t && forall c <- t[1..] :: c in t;
      TemplateOfTemplate(t[1..]);
    }
  }

  lemma {:induction false} TemplateKeepsMark(s: string)
    requires '#' in s
    ensures '#' in Template(s)
    decreases |s|
  {
    var n := if IsDigit(s[0]) then DigitRun(s) else 1;
    if IsDigit(s[0]) || s[0] == '#' {
      assert Template(s)[0] == '#';
    } else {
      assert s == [s[0]] + s[1..];
      TemplateKeepsMark(s[n..]);
    }
  }

  /** When part of the template is lost the expression misses the whole group, and so does every
      template that was itself cut by its buffer. */
  lemma CutExpressionMissesGroup(t: string, href: string)
    requires BraceFree(t) && !Whole(t) && '#' !in href && InGroup(t, href)
    ensures !Captures(Emitted(t), href)
  {
    GroupHasTemplate(t, href);
    KeptIffWhole(t);
    EmittedCaptures(t, href);
  }

  lemma CutTemplateIsNotWhole(href: string)
    requires |Template(href)| > TEMPLATE_CAP
    ensures !Whole(Cap(Template(href), TEMPLATE_CAP))
  {
    KeptIffWhole(Cap(Template(href), TEMPLATE_CAP));
  }

  // ----- hrefs that are lost

  /** An href whose expression would overrun the buffer is not captured, though its template fits. */
  lemma OverfullIsLost(href: string, t: string)
    requires '#' !in href && t == Template(href) && |t| <= TEMPLATE_CAP && BraceFree(t)
    requires |EreBody(t)| >= ERE_CAP + 6
    ensures InGroup(t, href) && !Captures(Emitted(t), href)
  {
    EreBodySnoc(t, |t| - 1);
    assert t[..|t| - 1 + 1] == t;
    CutExpressionMissesGroup(t, href);
  }

  function Repeat(s: string, n: nat): string {
    if n == 0 then "" else s + Repeat(s, n - 1)
  }

  lemma {:induction false} RepeatedTemplate(n: nat)
    ensures Template(Repeat("1a", n)) == Repeat("#a", n)
    ensures |EreBody(Repeat("#a", n))| == 7 * n && |Repeat("#a", n)| == 2 * n
    ensures '#' !in Repeat("1a", n) && BraceFree(Repeat("#a", n))
  {
    if n == 0 {
    } else {
      RepeatedTemplate(n - 1);
      var s, rest := Repeat("1a", n), Repeat("1a", n - 1);
      assert s[0] == '1' && s[1] == 'a' && s[2..] == rest && s[1..][1..] == rest;
      assert s[..1] == "1" && forall c <- s[..1] :: c == '1';
      DigitRunIs(s, 1);
      var t, more := Repeat("#a", n), Repeat("#a", n - 1);
      assert t[0] == '#' && t[1..][0] == 'a' && t[1..][1..] == more;
      assert 'a' !in ESCAPED;
    }
  }

  /** For instance "1a" written 73 to 255 times. */
  lemma LongHrefIsLost(n: nat)
    requires 73 <= n <= 255
    ensures var href := Repeat("1a", n);
            InGroup(Template(href), href) && !Captures(Emitted(Template(href)), href)
  {
    RepeatedTemplate(n);
    OverfullIsLost(Repeat("1a", n), Repeat("#a", n));
  }
}
