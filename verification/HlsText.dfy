/**
 The notation of media playlists that hls_parse_media of src/hls.c reads: a printer of lines, whose
 text the parser reads back entry by entry, and playlists written item by item, whose segments it
 recovers exactly.
 */
module HlsText {
  import opened Prelude
  import opened Strings
  import opened Decimals
  import opened HlsPlaylist
  import opened HlsAttributes

  // ----- entries and their text

  datatype Entry =
    | Info(info: string)
    | Number(number: nat)
    | KeyTag(attributes: string)
    | MapTag(attributes: string)
    | Tag(text: string)
    | Reference(uri: string)
    | Empty

  function Body(e: Entry): string {
    match e
    case Info(info) => "#EXTINF:" + info
    case Number(n) => "#EXT-X-MEDIA-SEQUENCE:" + Decimal(n)
    case KeyTag(attributes) => "#EXT-X-KEY:" + attributes
    case MapTag(attributes) => "#EXT-X-MAP:" + attributes
    case Tag(text) => "#" + text
    case Reference(uri) => uri
    case Empty => ""
  }

  /** What the parser is to make of it. */
  function Meaning(e: Entry): Token {
    match e
    case Info(info) => ExtInf(info)
    case Number(n) => Sequence(n)
    case KeyTag(attributes) => Key(attributes)
    case MapTag(_) => Map
    case Tag(_) => OtherTag
    case Reference(uri) => Uri(uri)
    case Empty => Blank
  }

  /** The tags with a meaning of their own. */
  predicate IsSpecial(body: string) {
    || "#EXTINF:" <= body || "#EXT-X-MEDIA-SEQUENCE:" <= body
    || "#EXT-X-KEY:" <= body || "#EXT-X-MAP:" <= body
  }

  predicate IsWhite(c: char) { c == ' ' || c == '\t' || c == '\r' }

  predicate IsTight(s: string) { s == "" || (!IsWhite(s[0]) && !IsWhite(s[|s| - 1])) }

  /** What a line can express: no line break, no white space at the ends, numbers that fit a long,
      other tags that are not special, and references that are neither empty nor tags. */
  predicate Expressed(e: Entry) {
    && '\n' !in Body(e) && IsTight(Body(e))
    && match e
       case Number(n) => n <= LONG_MAX
       case Tag(text) => !IsSpecial("#" + text)
       case Reference(uri) => uri != "" && uri[0] != '#'
       case _ => true
  }

  /** A line with white space around its entry, the carriage return of a CRLF text included. */
  datatype Line = Line(left: string, entry: Entry, right: string)

  predicate IsPadding(s: string) { forall c <- s :: IsWhite(c) }

  predicate IsLine(l: Line) { IsPadding(l.left) && Expressed(l.entry) && IsPadding(l.right) }

  function LineText(l: Line): string { l.left + (Body(l.entry) + l.right) }

  /** Lines joined by line breaks; the last one may or may not end in one. */
  function Joined(lines: seq<string>, closed: bool): string {
    if lines == [] then ""
    else if |lines| == 1 && !closed then lines[0]
    else lines[0] + ("\n" + Joined(lines[1..], closed))
  }

  /** The first line, after an optional byte order mark. */
  function Head(bom: bool): string {
    (if bom then [0xEF as char, 0xBB as char, 0xBF as char] else "") + "#EXTM3U"
  }

  function HeadToken(bom: bool): Token { if bom then Uri(Head(bom)) else OtherTag }

  function LineTexts(lines: seq<Line>): (texts: seq<string>)
    ensures |texts| == |lines|
  {
    seq(|lines|, i requires 0 <= i < |lines| => LineText(lines[i]))
  }

  function PlaylistText(bom: bool, lines: seq<Line>, closed: bool): string {
    Joined([Head(bom)] + LineTexts(lines), closed)
  }

  // ----- trimming

  lemma {:induction false} LeftIsTrimmed(left: string, s: string)
    requires forall c <- left :: IsTrimmed(c)
    ensures TrimLeft(left + s) == TrimLeft(s)
  {
    if left == "" {
      assert left + s == s;
    } else {
      assert left[0] in left && forall c <- left[1..] :: c in left;
      assert (left + s)[1..] == left[1..] + s;
      LeftIsTrimmed(left[1..], s);
    }
  }

  lemma {:induction false} RightIsTrimmed(s: string, right: string)
    requires forall c <- right :: IsTrimmed(c)
    ensures TrimRight(s + right) == TrimRight(s)
    decreases |right|
  {
    if right == "" {
      assert s + right == s;
    } else {
      var rest := right[..|right| - 1];
      assert right[|right| - 1] in right && forall c <- rest :: c in right;
      assert (s + right)[..|s + right| - 1] == s + rest;
      RightIsTrimmed(s, rest);
    }
  }

  /** hls_trim removes the white space around a body and nothing of it. */
  lemma TrimGivesBody(left: string, body: string, right: string)
    requires IsPadding(left) && IsTight(body) && '\n' !in body && IsPadding(right)
    ensures Trim(left + (body + right)) == body
  {
    LeftIsTrimmed(left, body + right);
    if body == "" {
      LeftIsTrimmed(right, "");
      assert body + right == right == right + "";
    } else {
      assert TrimLeft(body + right) == body + right;
      RightIsTrimmed(body, right);
    }
  }

  // ----- numbers

  lemma {:induction false} DigitsOfNumber(s: string)
    requires AllDigits(s)
    ensures DigitsOf(s) == s
  {
    if s == "" {
    } else {
      assert s[0] in s && forall c <- s[1..] :: c in s;
      DigitsOfNumber(s[1..]);
    }
  }

  lemma StrtolReadsNumber(n: nat)
    requires n <= LONG_MAX
    ensures Strtol(Decimal(n)) == n
  {
    var s := Decimal(n);
    assert s[0] in s;
    assert SkipSpace(s) == s;
    DigitsOfNumber(s);
  }

  // ----- one line

  lemma SpecialsAreClassified(rest: string)
    ensures Classify("#EXTINF:" + rest) == ExtInf(rest)
    ensures Classify("#EXT-X-KEY:" + rest) == Key(rest)
    ensures Classify("#EXT-X-MAP:" + rest) == Map
    ensures Classify("#EXT-X-MEDIA-SEQUENCE:" + rest) == Sequence(Strtol(rest))
  {
    var info, key, init := "#EXTINF:" + rest, "#EXT-X-KEY:" + rest, "#EXT-X-MAP:" + rest;
    var number := "#EXT-X-MEDIA-SEQUENCE:" + rest;
    assert info[8..] == rest && key[11..] == rest && number[22..] == rest;
    assert "#EXTINF:"[4] == 'I' && key[4] == init[4] == number[4] == '-';
    assert "#EXT-X-MEDIA-SEQUENCE:"[7] == 'M' && key[7] == 'K';
    assert "#EXT-X-MEDIA-SEQUENCE:"[8] == 'E' && init[8] == 'A';
    assert "#EXT-X-KEY:"[7] == 'K' && init[7] == 'M';
  }

  lemma BodyIsClassified(e: Entry)
    requires Expressed(e)
    ensures Classify(Body(e)) == Meaning(e)
  {
    match e
    case Info(info) => SpecialsAreClassified(info);
    case Number(n) =>
      SpecialsAreClassified(Decimal(n));
      StrtolReadsNumber(n);
    case KeyTag(attributes) => SpecialsAreClassified(attributes);
    case MapTag(attributes) => SpecialsAreClassified(attributes);
    case Tag(text) =>
    case Reference(uri) => OrdinaryIsClassified(uri);
    case Empty =>
  }

  /** A written line is read as what its entry means. */
  lemma LineIsRead(l: Line)
    requires IsLine(l)
    ensures ReadLine(LineText(l)) == Meaning(l.entry)
    ensures '\n' !in LineText(l)
  {
    TrimGivesBody(l.left, Body(l.entry), l.right);
    BodyIsClassified(l.entry);
  }

  lemma TightIsItself(s: string)
    requires IsTight(s) && '\n' !in s
    ensures Trim(s) == s
  {
    TrimGivesBody("", s, "");
    assert "" + (s + "") == s;
  }

  /** Tags are told apart by their fifth character, references by their first. */
  lemma OrdinaryIsClassified(s: string)
    requires s != ""
    ensures s[0] != '#' ==> Classify(s) == Uri(s)
    ensures s[0] == '#' && |s| > 4 && s[4] == 'M' ==> Classify(s) == OtherTag
  {
    assert "#EXTINF:"[4] == 'I' && "#EXT-X-MEDIA-SEQUENCE:"[4] == "#EXT-X-KEY:"[4] == "#EXT-X-MAP:"[4] == '-';
    assert "#EXTINF:"[0] == "#EXT-X-MEDIA-SEQUENCE:"[0] == "#EXT-X-KEY:"[0] == "#EXT-X-MAP:"[0] == '#';
  }

  lemma HeadIsMarked(bom: bool)
    ensures var head := Head(bom);
            IsTight(head) && '\n' !in head && head != ""
            && if bom then head[0] == 0xEF as char else |head| > 4 && head[0] == '#' && head[4] == 'M'
  {
    var head := Head(bom);
    assert head[|head| - 1] == 'U';
  }

  lemma HeadIsRead(bom: bool)
    ensures ReadLine(Head(bom)) == HeadToken(bom) && '\n' !in Head(bom)
  {
    HeadIsMarked(bom);
    TightIsItself(Head(bom));
    OrdinaryIsClassified(Head(bom));
  }

  // ----- all lines

  lemma LineEndIs(text: string, p: nat, q: nat)
    requires p <= q <= |text| && '\n' !in text[p..q] && (q < |text| ==> text[q] == '\n')
    ensures LineEnd(text, p) == q
  {
    assert forall k | p <= k < q :: text[k] == text[p..q][k - p] && text[k] != '\n';
    assert LineEnd(text, p) >= q;
  }

  function LinesRead(rd: Reader, lines: seq<string>): (ts: seq<Token>)
    ensures |ts| == |lines|
  {
    seq(|lines|, i requires 0 <= i < |lines| => rd.line(lines[i]))
  }

  /** One line and what follows it. */
  lemma FirstLineIsCut(before: string, line: string, rest: string)
    requires '\n' !in line
    ensures var text := before + (line + ("\n" + rest));
            && LineEnd(text, |before|) == |before| + |line| < |text|
            && text[|before|..|before| + |line|] == line
            && text == (before + (line + "\n")) + rest
  {
    var text := before + (line + ("\n" + rest));
    assert text[|before|..|before| + |line|] == line;
    LineEndIs(text, |before|, |before| + |line|);
  }

  lemma LastLineIsCut(rd: Reader, before: string, line: string)
    requires '\n' !in line && line != ""
    ensures TokensFrom(rd, before + line, |before|) == [rd.line(line)]
  {
    var text, p := before + line, |before|;
    assert text[p..|text|] == line;
    LineEndIs(text, p, |text|);
    LastTokenIs(rd, text, p, line);
  }

  lemma LastTokenIs(rd: Reader, text: string, p: nat, line: string)
    requires p < |text| && LineEnd(text, p) == |text| && text[p..|text|] == line
    ensures TokensFrom(rd, text, p) == [rd.line(line)]
  {
  }

  lemma FirstLineIsRead(rd: Reader, before: string, line: string, rest: string)
    requires '\n' !in line
    ensures var done := before + (line + "\n");
            TokensFrom(rd, before + (line + ("\n" + rest)), |before|)
            == [rd.line(line)] + TokensFrom(rd, done + rest, |done|)
  {
    FirstLineIsCut(before, line, rest);
    var done := before + (line + "\n");
    FirstTokenIs(rd, before + (line + ("\n" + rest)), |before|, line, done + rest, |done|);
  }

  lemma FirstTokenIs(rd: Reader, text: string, p: nat, line: string, same: string, next: nat)
    requires p < next <= |text| && LineEnd(text, p) == next - 1 && text[p..next - 1] == line && same == text
    ensures TokensFrom(rd, text, p) == [rd.line(line)] + TokensFrom(rd, same, next)
  {
  }

  lemma FirstOfRead(rd: Reader, lines: seq<string>)
    requires lines != []
    ensures LinesRead(rd, lines) == [rd.line(lines[0])] + LinesRead(rd, lines[1..])
  {
  }

  lemma JoinedFirst(rd: Reader, before: string, lines: seq<string>, closed: bool, done: string, rest: string,
                    read: seq<Token>)
    requires lines != [] && '\n' !in lines[0] && (closed || |lines| > 1)
    requires done == before + (lines[0] + "\n") && rest == Joined(lines[1..], closed)
    requires TokensFrom(rd, done + rest, |done|) == read == LinesRead(rd, lines[1..])
    ensures TokensFrom(rd, before + Joined(lines, closed), |before|) == LinesRead(rd, lines)
  {
    FirstLineIsRead(rd, before, lines[0], rest);
    FirstOfRead(rd, lines);
  }

  /** The parser's line loop finds the lines that were joined. */
  lemma {:induction false} JoinedIsRead(rd: Reader, before: string, lines: seq<string>, closed: bool)
    requires forall l <- lines :: '\n' !in l
    requires closed || lines == [] || lines[|lines| - 1] != ""
    ensures TokensFrom(rd, before + Joined(lines, closed), |before|) == LinesRead(rd, lines)
    decreases |lines|
  {
    if lines == [] {
    } else if |lines| == 1 && !closed {
      assert lines[0] in lines;
      LastLineIsCut(rd, before, lines[0]);
    } else {
      assert lines[0] in lines && forall l <- lines[1..] :: l in lines;
      var done := before + (lines[0] + "\n");
      JoinedIsRead(rd, done, lines[1..], closed);
      JoinedFirst(rd, before, lines, closed, done, Joined(lines[1..], closed), LinesRead(rd, lines[1..]));
    }
  }

  /** The last line is not lost: it ends in a line break or is not empty. */
  predicate EndsVisibly(lines: seq<Line>, closed: bool) {
    closed || lines == [] || LineText(lines[|lines| - 1]) != ""
  }

  function Meanings(lines: seq<Line>): (ts: seq<Token>)
    ensures |ts| == |lines|
  {
    seq(|lines|, i requires 0 <= i < |lines| => Meaning(lines[i].entry))
  }

  /** A written playlist is read entry by entry. */
  lemma PlaylistIsTokenized(rd: Reader, bom: bool, lines: seq<Line>, closed: bool)
    requires rd.line == ReadLine && (forall l <- lines :: IsLine(l)) && EndsVisibly(lines, closed)
    ensures TokensFrom(rd, PlaylistText(bom, lines, closed), 0) == [HeadToken(bom)] + Meanings(lines)
  {
    var head, texts := Head(bom), LineTexts(lines);
    HeadIsRead(bom);
    LinesAreRead(rd, lines);
    LastIsVisible(head, lines, closed);
    AllIsRead(rd, head, texts, closed);
  }

  lemma LinesAreRead(rd: Reader, lines: seq<Line>)
    requires rd.line == ReadLine && forall l <- lines :: IsLine(l)
    ensures LinesRead(rd, LineTexts(lines)) == Meanings(lines)
    ensures forall l <- LineTexts(lines) :: '\n' !in l
  {
    forall i | 0 <= i < |lines|
      ensures ReadLine(LineText(lines[i])) == Meaning(lines[i].entry) && '\n' !in LineTexts(lines)[i]
    {
      LineIsRead(lines[i]);
    }
  }

  lemma LastIsVisible(head: string, lines: seq<Line>, closed: bool)
    requires EndsVisibly(lines, closed) && head != ""
    ensures closed || ([head] + LineTexts(lines))[|lines|] != ""
  {
  }

  lemma AllIsRead(rd: Reader, head: string, texts: seq<string>, closed: bool)
    requires '\n' !in head && forall l <- texts :: '\n' !in l
    requires closed || ([head] + texts)[|texts|] != ""
    ensures TokensFrom(rd, Joined([head] + texts, closed), 0) == [rd.line(head)] + LinesRead(rd, texts)
  {
    var all := [head] + texts;
    JoinedIsRead(rd, "", all, closed);
    assert "" + Joined(all, closed) == Joined(all, closed);
    assert LinesRead(rd, all) == [rd.line(head)] + LinesRead(rd, texts);
  }

  /** Such a text is an m3u8 playlist. */
  lemma PlaylistIsM3u8(bom: bool, lines: seq<Line>, closed: bool)
    ensures IsM3u8(PlaylistText(bom, lines, closed))
  {
    var text := PlaylistText(bom, lines, closed);
    var mark := [0xEF as char, 0xBB as char, 0xBF as char];
    assert Head(bom) <= text;
    var rest := if bom then text[3..] else text;
    assert "#EXTM3U" <= rest by {
      if bom {
        assert Head(bom)[3..] == "#EXTM3U";
        assert Head(bom)[3..] <= text[3..];
      } else {
        assert Head(bom) == "#EXTM3U";
      }
    }
    assert mark <= text <==> bom by {
      assert bom ==> mark <= Head(bom);
      assert !bom ==> text[0] == '#';
    }
    assert rest[0] == '#';
    assert TrimLeft(rest) == rest;
  }

  // ----- playlists of items

  /** What a key tag says: encryption off, or on with a key and perhaps a vector. */
  datatype KeySpec = Off | On(keyUri: string, vector: Option<seq<byte>>)

  /** One segment as it is written: lines that do not matter, perhaps a key tag, its EXTINF and its
      reference. */
  datatype Item = Item(noise: seq<Entry>, key: Option<KeySpec>, info: string, uri: string)

  predicate IsKeySpec(k: KeySpec) {
    k.On? ==> '"' !in k.keyUri && (k.vector.Some? ==> |k.vector.value| == AES_BLOCK)
  }

  /** Other tags, empty lines, and references without an EXTINF of their own. */
  predicate IsNoise(e: Entry) { e.Tag? || e.Empty? || e.Reference? }

  predicate IsItem(item: Item) {
    && (forall e <- item.noise :: IsNoise(e))
    && (item.key.Some? ==> IsKeySpec(item.key.value))
  }

  function KeyAttributes(k: KeySpec): seq<Attribute> {
    match k
    case Off => [Attribute("METHOD", "NONE", false)]
    case On(keyUri, vector) =>
      [Attribute("METHOD", "AES-128", false), Attribute("URI", keyUri, true)]
      + if vector.None? then [] else [Attribute("IV", "0x" + HexText(vector.value), false)]
  }

  function ItemEntries(item: Item): seq<Entry> {
    item.noise
    + ((if item.key.None? then [] else [KeyTag(ListText(KeyAttributes(item.key.value)))])
       + [Info(item.info), Reference(item.uri)])
  }

  function ItemsEntries(items: seq<Item>): seq<Entry> {
    if items == [] then [] else ItemEntries(items[0]) + ItemsEntries(items[1..])
  }

  /** What the last key tag of the first k items says. */
  function KeyAfter(items: seq<Item>, k: nat): KeySpec
    requires k <= |items|
  {
    if k == 0 then Off
    else if items[k - 1].key.Some? then items[k - 1].key.value
    else KeyAfter(items, k - 1)
  }

  /** The segment that item k stands for: its own URI and EXTINF, the key of the last key tag up to
      it and, unless that tag names a vector, the vector of its number in the sequence. */
  function SegmentOf(resolve: Resolver, base: string, first: nat, items: seq<Item>, k: nat): Segment
    requires k < |items|
  {
    var url := resolve(base, items[k].uri);
    match KeyAfter(items, k + 1)
    case Off => Segment(url, items[k].info, Clear, None, None)
    case On(keyUri, vector) =>
      Segment(url, items[k].info, Aes128, Some(resolve(base, keyUri)),
              Some(if vector.Some? then vector.value else BigEndian(first + k)))
  }

  function SegmentsOf(resolve: Resolver, base: string, first: nat, items: seq<Item>, n: nat): (r: seq<Segment>)
    requires n <= |items|
    ensures |r| == n
  {
    seq(n, k requires 0 <= k < n => SegmentOf(resolve, base, first, items, k))
  }

  // ----- a written key tag

  function Forced(resolve: Resolver, base: string, k: KeySpec): KeyState {
    match k
    case Off => NoKey
    case On(keyUri, vector) => KeyState(Aes128, Some(resolve(base, keyUri)), vector)
  }

  lemma AttributesAreExpressible(k: KeySpec)
    requires IsKeySpec(k)
    ensures forall a <- KeyAttributes(k) :: Expressible(a)
  {
    if k.On? && k.vector.Some? {
      var hex := "0x" + HexText(k.vector.value);
      assert hex[0] == '0' && hex[1] == 'x';
      forall i | 0 <= i < |hex|
        ensures hex[i] != ','
      {
        if i >= 2 {
          assert hex[i] == HexText(k.vector.value)[i - 2];
          assert HexNibble(hex[i]).Some?;
        }
      }
    }
  }

  lemma AttributesAreFound(k: KeySpec)
    ensures Lookup(KeyAttributes(k), "METHOD") == Some(if k.Off? then "NONE" else "AES-128")
    ensures k.On? ==> Lookup(KeyAttributes(k), "URI") == Some(k.keyUri)
    ensures k.On? ==> Lookup(KeyAttributes(k), "IV")
                      == if k.vector.None? then None else Some("0x" + HexText(k.vector.value))
  {
    var attrs := KeyAttributes(k);
    assert |"METHOD"| == 6 && |"URI"| == 3 && |"IV"| == 2;
    assert attrs[0].name == "METHOD";
    if k.On? {
      var rest := attrs[1..];
      assert rest[0].name == "URI" && rest[0].value == k.keyUri;
      assert Lookup(attrs, "URI") == Lookup(rest, "URI");
      assert Lookup(attrs, "IV") == Lookup(rest, "IV") == Lookup(rest[1..], "IV");
      if k.vector.Some? {
        assert rest[1..] == [Attribute("IV", "0x" + HexText(k.vector.value), false)];
      } else {
        assert rest[1..] == [];
      }
    }
  }

  /** A written key tag puts in force what it says. */
  lemma KeySpecIsApplied(resolve: Resolver, base: string, k: KeySpec)
    requires IsKeySpec(k)
    ensures ApplyKey(resolve, base, ListText(KeyAttributes(k))) == Some(Forced(resolve, base, k))
  {
    var attrs := KeyAttributes(k);
    AttributesAreExpressible(k);
    AttributesAreFound(k);
    AttrGetIsLookup(attrs, "METHOD");
    AttrGetIsLookup(attrs, "URI");
    AttrGetIsLookup(attrs, "IV");
    assert SameIgnoringCase("NONE", "NONE");
    assert SameIgnoringCase("AES-128", "AES-128") && !SameIgnoringCase("AES-128", "NONE");
    if k.On? && k.vector.Some? {
      HexVectorIsRead(k.vector.value);
    }
  }

  // ----- the parser's loop on written items

  /** The loop of the parser on a list of tokens of its own. */
  function Run(rd: Reader, ts: seq<Token>, s: State): Option<State> {
    if ts == [] then Some(s) else
    var s' := Step(rd, s, ts[0]);
    if s'.None? then None else Run(rd, ts[1..], s'.value)
  }

  lemma {:induction false} FoldIsRun(rd: Reader, ts: seq<Token>, n: nat, s: State)
    requires n <= |ts|
    ensures Fold(rd, ts, n, s) == Run(rd, ts[n..], s)
    decreases |ts| - n
  {
    if n >= |ts| {
    } else {
      assert ts[n..][0] == ts[n] && ts[n..][1..] == ts[n + 1..];
      var s' := Step(rd, s, ts[n]);
      if s'.Some? {
        FoldIsRun(rd, ts, n + 1, s'.value);
      }
    }
  }

  lemma {:induction false} RunAppends(rd: Reader, ts: seq<Token>, us: seq<Token>, s: State)
    ensures Run(rd, ts + us, s) == var r := Run(rd, ts, s); if r.None? then None else Run(rd, us, r.value)
    decreases |ts|
  {
    if ts == [] {
      assert ts + us == us;
    } else {
      assert (ts + us)[0] == ts[0] && (ts + us)[1..] == ts[1..] + us;
      var s' := Step(rd, s, ts[0]);
      if s'.Some? {
        RunAppends(rd, ts[1..], us, s'.value);
      }
    }
  }

  function EntryMeanings(es: seq<Entry>): (ts: seq<Token>)
    ensures |ts| == |es|
  {
    seq(|es|, i requires 0 <= i < |es| => Meaning(es[i]))
  }

  lemma MeaningsAppend(a: seq<Entry>, b: seq<Entry>)
    ensures EntryMeanings(a + b) == EntryMeanings(a) + EntryMeanings(b)
  {
  }

  lemma {:induction false} NoiseIsIgnored(rd: Reader, noise: seq<Entry>, s: State)
    requires (forall e <- noise :: IsNoise(e)) && s.pending.None?
    ensures Run(rd, EntryMeanings(noise), s) == Some(s)
  {
    if noise == [] {
    } else {
      assert noise[0] in noise && forall e <- noise[1..] :: e in noise;
      assert EntryMeanings(noise)[1..] == EntryMeanings(noise[1..]);
      NoiseIsIgnored(rd, noise[1..], s);
    }
  }

  /** The state after an item's key tag, if it has one. */
  function Keyed(resolve: Resolver, base: string, item: Item, s: State): State {
    if item.key.None? then s else
    var ks := Forced(resolve, base, item.key.value);
    s.(ks := ks, enc := if ks.enc.Aes128? then Aes128 else s.enc)
  }

  function KeyEntries(item: Item): seq<Entry> {
    if item.key.None? then [] else [KeyTag(ListText(KeyAttributes(item.key.value)))]
  }

  lemma KeyRuns(rd: Reader, attr: string, ks: KeyState, s: State)
    requires rd.key(attr) == Some(ks)
    ensures Run(rd, [Key(attr)], s) == Some(s.(ks := ks, enc := if ks.enc.Aes128? then Aes128 else s.enc))
  {
    assert [Key(attr)][1..] == [];
  }

  lemma OneMeaning(e: Entry)
    ensures EntryMeanings([e]) == [Meaning(e)]
  {
  }

  lemma KeyTagRuns(resolve: Resolver, base: string, item: Item, s: State)
    requires IsItem(item)
    ensures Run(HlsReader(resolve, base), EntryMeanings(KeyEntries(item)), s) == Some(Keyed(resolve, base, item, s))
  {
    if item.key.Some? {
      var attr := ListText(KeyAttributes(item.key.value));
      KeySpecIsApplied(resolve, base, item.key.value);
      KeyRuns(HlsReader(resolve, base), attr, Forced(resolve, base, item.key.value), s);
      OneMeaning(KeyTag(attr));
    }
  }

  lemma UriRuns(rd: Reader, uri: string, s: State)
    ensures Run(rd, [Uri(uri)], s) == Step(rd, s, Uri(uri))
  {
    assert [Uri(uri)][1..] == [];
  }

  lemma SegmentRuns(rd: Reader, info: string, uri: string, s: State)
    requires s.pending.None?
    ensures Run(rd, EntryMeanings([Info(info), Reference(uri)]), s) ==
            if |s.segments| >= HLS_MAX_SEGMENTS then None
            else Some(s.(segments := s.segments + [MakeSegment(rd, uri, info, s.ks, s.mediaSequence, |s.segments|)]))
  {
    var ts := EntryMeanings([Info(info), Reference(uri)]);
    assert ts == [ExtInf(info), Uri(uri)];
    assert ts[1..] == [Uri(uri)] && ts[1..][1..] == [];
    var s' := s.(pending := Some(info));
    assert Step(rd, s, ts[0]) == Some(s');
    assert Run(rd, ts, s) == Run(rd, [Uri(uri)], s');
    UriRuns(rd, uri, s');
  }

  /** One item appends its segment, made with the key state in force after its key tag. */
  lemma ItemRuns(resolve: Resolver, base: string, item: Item, s: State)
    requires IsItem(item) && s.pending.None?
    ensures var rd := HlsReader(resolve, base);
            var t := Keyed(resolve, base, item, s);
            Run(rd, EntryMeanings(ItemEntries(item)), s) ==
            if |t.segments| >= HLS_MAX_SEGMENTS then None
            else Some(t.(segments := t.segments +
                   [MakeSegment(rd, item.uri, item.info, t.ks, t.mediaSequence, |t.segments|)]))
  {
    var rd := HlsReader(resolve, base);
    var key, last := KeyEntries(item), [Info(item.info), Reference(item.uri)];
    MeaningsAppend(item.noise, key + last);
    MeaningsAppend(key, last);
    RunAppends(rd, EntryMeanings(item.noise), EntryMeanings(key + last), s);
    NoiseIsIgnored(rd, item.noise, s);
    RunAppends(rd, EntryMeanings(key), EntryMeanings(last), s);
    KeyTagRuns(resolve, base, item, s);
    SegmentRuns(rd, item.info, item.uri, Keyed(resolve, base, item, s));
  }

  /** Some key tag of the first k items turns encryption on. */
  predicate TurnsOn(items: seq<Item>, k: nat)
    requires k <= |items|
  {
    exists j | 0 <= j < k :: items[j].key.Some? && items[j].key.value.On?
  }

  /** The loop's variables after the first k items. */
  function AfterItems(resolve: Resolver, base: string, first: nat, items: seq<Item>, k: nat): State
    requires k <= |items|
  {
    State(Forced(resolve, base, KeyAfter(items, k)), None, first, SegmentsOf(resolve, base, first, items, k),
          if TurnsOn(items, k) then Aes128 else Clear)
  }

  lemma MadeSegment(resolve: Resolver, base: string, first: nat, items: seq<Item>, k: nat)
    requires k < |items| && first <= LONG_MAX && k < HLS_MAX_SEGMENTS
    ensures MakeSegment(HlsReader(resolve, base), items[k].uri, items[k].info,
                        Forced(resolve, base, KeyAfter(items, k + 1)), first, k)
            == SegmentOf(resolve, base, first, items, k)
  {
    assert first + k < TWO64;
  }

  lemma NextItem(resolve: Resolver, base: string, first: nat, items: seq<Item>, k: nat)
    requires k < |items| && first <= LONG_MAX && IsItem(items[k])
    ensures Run(HlsReader(resolve, base), EntryMeanings(ItemEntries(items[k])),
                AfterItems(resolve, base, first, items, k))
            == if k >= HLS_MAX_SEGMENTS then None else Some(AfterItems(resolve, base, first, items, k + 1))
  {
    var s := AfterItems(resolve, base, first, items, k);
    ItemRuns(resolve, base, items[k], s);
    if k < HLS_MAX_SEGMENTS {
      MadeSegment(resolve, base, first, items, k);
      assert Keyed(resolve, base, items[k], s).ks == Forced(resolve, base, KeyAfter(items, k + 1));
      assert SegmentsOf(resolve, base, first, items, k + 1)
          == SegmentsOf(resolve, base, first, items, k) + [SegmentOf(resolve, base, first, items, k)];
      assert TurnsOn(items, k + 1) <==> TurnsOn(items, k) || (items[k].key.Some? && items[k].key.value.On?);
    }
  }

  lemma {:induction false} ItemsRun(resolve: Resolver, base: string, first: nat, items: seq<Item>, k: nat)
    requires k <= |items| && k <= HLS_MAX_SEGMENTS && first <= LONG_MAX && forall item <- items :: IsItem(item)
    ensures Run(HlsReader(resolve, base), EntryMeanings(ItemsEntries(items[k..])),
                AfterItems(resolve, base, first, items, k))
            == if |items| > HLS_MAX_SEGMENTS then None
               else Some(AfterItems(resolve, base, first, items, |items|))
    decreases |items| - k
  {
    if k >= |items| {
    } else {
      var rd := HlsReader(resolve, base);
      assert items[k] in items && items[k..][1..] == items[k + 1..];
      MeaningsAppend(ItemEntries(items[k]), ItemsEntries(items[k + 1..]));
      RunAppends(rd, EntryMeanings(ItemEntries(items[k])), EntryMeanings(ItemsEntries(items[k + 1..])),
                 AfterItems(resolve, base, first, items, k));
      NextItem(resolve, base, first, items, k);
      if k < HLS_MAX_SEGMENTS {
        ItemsRun(resolve, base, first, items, k + 1);
      }
    }
  }

  // ----- the round trip

  function EntriesOf(lines: seq<Line>): (es: seq<Entry>)
    ensures |es| == |lines|
  {
    seq(|lines|, i requires 0 <= i < |lines| => lines[i].entry)
  }

  lemma OpeningRuns(rd: Reader, head: Token, first: int, rest: seq<Token>)
    requires head.OtherTag? || head.Uri?
    ensures Run(rd, [head] + ([Sequence(first)] + rest), Start)
            == Run(rd, rest, State(NoKey, None, first, [], Clear))
  {
    var ts := [Sequence(first)] + rest;
    assert ([head] + ts)[1..] == ts && ts[1..] == rest;
    assert Step(rd, Start, head) == Some(Start);
  }

  lemma BeforeItems(resolve: Resolver, base: string, first: nat, items: seq<Item>)
    ensures AfterItems(resolve, base, first, items, 0) == State(NoKey, None, first, [], Clear)
    ensures items[0..] == items
  {
  }

  lemma TokensRun(resolve: Resolver, base: string, bom: bool, first: nat, items: seq<Item>)
    requires (forall item <- items :: IsItem(item)) && first <= LONG_MAX
    ensures Run(HlsReader(resolve, base),
                [HeadToken(bom)] + EntryMeanings([Number(first)] + ItemsEntries(items)), Start)
            == if |items| > HLS_MAX_SEGMENTS then None
               else Some(AfterItems(resolve, base, first, items, |items|))
  {
    MeaningsAppend([Number(first)], ItemsEntries(items));
    OneMeaning(Number(first));
    OpeningRuns(HlsReader(resolve, base), HeadToken(bom), first, EntryMeanings(ItemsEntries(items)));
    BeforeItems(resolve, base, first, items);
    ItemsRun(resolve, base, first, items, 0);
  }

  lemma ParseIsRun(resolve: Resolver, base: string, text: string)
    requires IsM3u8(text)
    ensures var rd := HlsReader(resolve, base);
            ParseMedia(resolve, base, text) == Run(rd, TokensFrom(rd, text, 0), Start)
  {
    var rd := HlsReader(resolve, base);
    var ts := TokensFrom(rd, text, 0);
    FoldIsRun(rd, ts, 0, Start);
    assert ts[0..] == ts;
  }

  lemma MeaningsOfEntries(lines: seq<Line>)
    ensures Meanings(lines) == EntryMeanings(EntriesOf(lines))
  {
  }

  /** A playlist written item by item is read back: the parser refuses it exactly when it has more
      than HLS_MAX_SEGMENTS items, and otherwise its segments are the items' segments in order, its
      number is the number written, and it counts as encrypted exactly when some key tag says so. */
  lemma PlaylistIsRead(resolve: Resolver, base: string, bom: bool, lines: seq<Line>, closed: bool,
                       first: nat, items: seq<Item>)
    requires (forall l <- lines :: IsLine(l)) && EndsVisibly(lines, closed)
    requires (forall item <- items :: IsItem(item)) && first <= LONG_MAX
    requires EntriesOf(lines) == [Number(first)] + ItemsEntries(items)
    ensures var r := ParseMedia(resolve, base, PlaylistText(bom, lines, closed));
            && (r.None? <==> |items| > HLS_MAX_SEGMENTS)
            && (r.Some? ==>
                 && r.value.segments == SegmentsOf(resolve, base, first, items, |items|)
                 && r.value.mediaSequence == first
                 && (r.value.enc.Aes128? <==> TurnsOn(items, |items|)))
  {
    PlaylistIsM3u8(bom, lines, closed);
    PlaylistIsTokenized(HlsReader(resolve, base), bom, lines, closed);
    MeaningsOfEntries(lines);
    ParseIsRun(resolve, base, PlaylistText(bom, lines, closed));
    TokensRun(resolve, base, bom, first, items);
  }
}
