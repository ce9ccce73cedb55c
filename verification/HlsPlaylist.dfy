/**
 hls_parse_media of src/hls.c: one pass over the lines of a media playlist with a pending EXTINF, a
 running key state and a running media sequence number, proved to agree with a reading of the
 playlist that looks up, for each segment, the nearest tags above its URI.
 */
module HlsPlaylist {
  import opened Prelude
  import opened Arithmetic
  import opened Strings

  const HLS_MAX_SEGMENTS := 100000
  const AES_BLOCK := 16
  const TWO64: int := 0x1_0000_0000_0000_0000

  // ----- lines

  predicate IsTrimmed(c: char) { c == ' ' || c == '\t' || c == '\r' || c == '\n' }

  function TrimLeft(s: string): string {
    if s != "" && IsTrimmed(s[0]) then TrimLeft(s[1..]) else s
  }

  function TrimRight(s: string): string {
    if s != "" && IsTrimmed(s[|s| - 1]) then TrimRight(s[..|s| - 1]) else s
  }

  function Trim(s: string): string { TrimRight(TrimLeft(s)) }

  function LineEnd(text: string, p: nat): (q: nat)
    requires p <= |text|
    ensures p <= q <= |text| && (q < |text| ==> text[q] == '\n')
    ensures forall k | p <= k < q :: text[k] != '\n'
    decreases |text| - p
  {
    if p == |text| || text[p] == '\n' then p else LineEnd(text, p + 1)
  }

  /** hls_is_m3u8: after a byte order mark and white space the text starts with #EXTM3U. */
  predicate IsM3u8(text: string) {
    var bom := [0xEF as char, 0xBB as char, 0xBF as char];
    "#EXTM3U" <= TrimLeft(if bom <= text then text[3..] else text)
  }

  // ----- numbers and attributes

  function DigitsOf(s: string): string {
    if s != "" && IsDigit(s[0]) then [s[0]] + DigitsOf(s[1..]) else ""
  }

  lemma {:induction false} DigitsOfAreDigits(s: string)
    ensures AllDigits(DigitsOf(s))
  {
    if s == "" || !IsDigit(s[0]) {
    } else {
      DigitsOfAreDigits(s[1..]);
    }
  }

  /** strtol in base 10: saturates at the ends of long. */
  function Strtol(s: string): int {
    var t := SkipSpace(s);
    var negative := t != "" && t[0] == '-';
    var d := DigitsOf(if t != "" && (t[0] == '-' || t[0] == '+') then t[1..] else t);
    DigitsOfAreDigits(if t != "" && (t[0] == '-' || t[0] == '+') then t[1..] else t);
    var v: int := Value(d);
    if negative then Max(-LONG_MAX - 1, -v) else Min(LONG_MAX, v)
  }

  function SkipSeparators(s: string): (r: string)
    ensures |r| <= |s|
  {
    if s != "" && (s[0] == ' ' || s[0] == ',') then SkipSeparators(s[1..]) else s
  }

  /** attr_get: the value of the first attribute of that name, without its quotes. */
  function AttrGet(attr: string, key: string): Option<string>
    decreases |attr|
  {
    if attr == "" then None else
    var p := SkipSeparators(attr);
    var eq := FindChar(p, '=');
    if eq == |p| then None else
    var rest := p[eq + 1..];
    var quoted := rest != "" && rest[0] == '"';
    var val := if quoted then rest[1..] else rest;
    var end := FindChar(val, if quoted then '"' else ',');
    if SameIgnoringCase(p[..eq], key) then Some(val[..end])
    else
      var after := val[end..];
      var closed := if after != "" && after[0] == '"' then after[1..] else after;
      AttrGet(closed[FindChar(closed, ',')..], key)
  }

  function HexNibble(c: char): Option<int> {
    if '0' <= c <= '9' then Some(c as int - '0' as int)
    else if 'a' <= c <= 'f' then Some(c as int - 'a' as int + 10)
    else if 'A' <= c <= 'F' then Some(c as int - 'A' as int + 10)
    else None
  }

  /** hls_parse_iv: exactly 32 hexadecimal digits after an optional 0x. */
  function ParseIv(hex: string): Option<seq<byte>> {
    var h := if |hex| >= 2 && hex[0] == '0' && (hex[1] == 'x' || hex[1] == 'X') then hex[2..] else hex;
    if |h| != 2 * AES_BLOCK || exists c <- h :: HexNibble(c).None? then None
    else Some(seq(AES_BLOCK, i requires 0 <= i < AES_BLOCK =>
      assert h[2 * i] in h && h[2 * i + 1] in h;
      (16 * HexNibble(h[2 * i]).value + HexNibble(h[2 * i + 1]).value) as byte))
  }

  // ----- tokens

  datatype Token =
    | Blank
    | ExtInf(info: string)
    | Sequence(number: int)
    | Key(attr: string)
    | Map
    | OtherTag
    | Uri(ref: string)

  function Classify(line: string): Token {
    if line == "" then Blank
    else if "#EXTINF:" <= line then ExtInf(line[8..])
    else if "#EXT-X-MEDIA-SEQUENCE:" <= line then Sequence(Strtol(line[22..]))
    else if "#EXT-X-KEY:" <= line then Key(line[11..])
    else if "#EXT-X-MAP:" <= line then Map
    else if line[0] == '#' then OtherTag
    else Uri(line)
  }

  // ----- key state

  datatype Encryption = Clear | Aes128

  datatype KeyState = KeyState(enc: Encryption, keyUrl: Option<string>, iv: Option<seq<byte>>)

  const NoKey := KeyState(Clear, None, None)

  type Resolver = (string, string) -> string

  /** media_apply_key: the state a tag puts in force, or None when it is refused. */
  function ApplyKey(resolve: Resolver, base: string, attr: string): Option<KeyState> {
    var m := AttrGet(attr, "METHOD");
    if m.None? then None
    else if SameIgnoringCase(m.value, "NONE") then Some(NoKey)
    else if SameIgnoringCase(m.value, "AES-128") then
      var uri := AttrGet(attr, "URI");
      if uri.None? then None else
      var iv := AttrGet(attr, "IV");
      if iv.None? then Some(KeyState(Aes128, Some(resolve(base, uri.value)), None))
      else if ParseIv(iv.value).None? then None
      else Some(KeyState(Aes128, Some(resolve(base, uri.value)), ParseIv(iv.value)))
    else None
  }

  // ----- initialisation vectors

  /** 256 to the power i. */
  function Weight(i: nat): (w: nat)
    ensures 1 <= w
  {
    if i == 0 then 1 else 256 * Weight(i - 1)
  }

  /** Byte i of a number, counted from the least significant. */
  function ByteAt(n: nat, i: nat): byte { (n / Weight(i) % 256) as byte }

  /** The 16-byte big-endian encoding of a 64-bit number. */
  function BigEndian(n: nat): (iv: seq<byte>)
    ensures |iv| == AES_BLOCK
  {
    seq(AES_BLOCK, k requires 0 <= k < AES_BLOCK => if k < 8 then 0 else ByteAt(n, 15 - k))
  }

  /** The number a big-endian byte string denotes. */
  function FromBigEndian(bytes: seq<byte>): nat {
    if bytes == [] then 0 else 256 * FromBigEndian(bytes[..|bytes| - 1]) + bytes[|bytes| - 1] as nat
  }

  /** hls_iv_from_sequence: `sequence` is a uint64_t. */
  method IvFromSequence(sequence: nat, iv: array<byte>)
    requires iv.Length == AES_BLOCK && sequence < TWO64
    modifies iv
    ensures iv[..] == BigEndian(sequence)
  {
    var k := 0;
    while k < AES_BLOCK
      invariant 0 <= k <= AES_BLOCK
      invariant forall j | 0 <= j < k :: iv[j] == 0
    {
      iv[k] := 0;
      k := k + 1;
    }
    var i := 0;
    var w := 1;
    while i < 8
      invariant 0 <= i <= 8 && w == Weight(i)
      invariant forall j | 0 <= j < AES_BLOCK - i :: iv[j] == 0
      invariant forall j | AES_BLOCK - i <= j < AES_BLOCK :: iv[j] == ByteAt(sequence, 15 - j)
    {
      iv[AES_BLOCK - 1 - i] := (sequence / w % 256) as byte;  // sequence >> (8 * i), cut to a byte
      w := 256 * w;
      i := i + 1;
    }
  }

  lemma {:induction false} PrefixDecodes(n: nat, k: nat)
    requires n < TWO64 && 8 <= k <= AES_BLOCK
    ensures FromBigEndian(BigEndian(n)[..k]) == n / Weight(16 - k)
    decreases k
  {
    var b := BigEndian(n)[..k];
    if k == 8 {
      ZerosDecode(n, 8);
      Weight8();
    } else {
      assert b[..k - 1] == BigEndian(n)[..k - 1];
      PrefixDecodes(n, k - 1);
      DivideAgain(n, Weight(16 - k));
    }
  }

  lemma Weight8()
    ensures Weight(8) == TWO64
  {
    assert Weight(2) == 0x1_0000;
    assert Weight(4) == 0x1_0000_0000;
    assert Weight(6) == 0x1_0000_0000_0000;
  }

  lemma DivideAgain(n: nat, w: nat)
    requires 1 <= w
    ensures n / w == 256 * (n / (256 * w)) + n / w % 256
    ensures 0 <= n / w
  {
    var q, m := n / w, n % w;
    assert n == w * q + m;
    var t, r := q / 256, q % 256;
    Regroup(w, t, r);
    assert w * r <= w * 255 by { MulMonotone(w, r, 255); }
    assert 0 <= w * r by { MulMonotone(w, 0, r); }
    DivModIs(n, 256 * w, t, w * r + m);
    assert 0 <= q by {
      if q < 0 { MulMonotone(w, q, -1); }
    }
  }

  lemma Regroup(w: int, t: int, r: int)
    ensures w * (256 * t + r) == (256 * w) * t + w * r
  {
    assert w * (256 * t) == 256 * (w * t) == (256 * w) * t;
    assert w * (256 * t + r) == w * (256 * t) + w * r;
  }

  lemma {:induction false} ZerosDecode(n: nat, k: nat)
    requires k <= 8
    ensures FromBigEndian(BigEndian(n)[..k]) == 0
    decreases k
  {
    if k == 0 {
    } else {
      assert BigEndian(n)[..k][..k - 1] == BigEndian(n)[..k - 1];
      ZerosDecode(n, k - 1);
    }
  }

  /** The encoding is faithful, so different 64-bit numbers get different vectors. */
  lemma BigEndianIsFaithful(n: nat)
    requires n < TWO64
    ensures FromBigEndian(BigEndian(n)) == n
  {
    PrefixDecodes(n, 16);
    assert BigEndian(n)[..16] == BigEndian(n);
  }

  // ----- the parser

  /** The four things the parser does with text: read a line, read a key tag, resolve a reference
      and turn a sequence number into a vector. */
  datatype Reader = Reader(
    line: string -> Token,
    key: string -> Option<KeyState>,
    url: string -> string,
    vector: int -> seq<byte>)

  function ReadLine(line: string): Token { Classify(Trim(line)) }

  /** The sequence number as a uint64_t. */
  function DefaultVector(number: int): seq<byte> { BigEndian(number % TWO64) }

  function HlsReader(resolve: Resolver, base: string): Reader {
    Reader(ReadLine, attr => ApplyKey(resolve, base, attr), ref => resolve(base, ref), DefaultVector)
  }

  function TokensFrom(rd: Reader, text: string, p: nat): seq<Token>
    requires p <= |text|
    decreases |text| - p
  {
    if p == |text| then [] else
    var q := LineEnd(text, p);
    [rd.line(text[p..q])] + if q < |text| then TokensFrom(rd, text, q + 1) else []
  }

  datatype Segment = Segment(
    url: string, info: string, enc: Encryption, keyUrl: Option<string>, iv: Option<seq<byte>>)

  /** The vector a segment gets: none in the clear, the tag's, or the sequence number's. */
  function IvFor(rd: Reader, ks: KeyState, mediaSequence: int, index: nat): Option<seq<byte>> {
    if ks.enc.Clear? then None
    else if ks.iv.Some? then ks.iv
    else Some(rd.vector(mediaSequence + index))
  }

  function MakeSegment(rd: Reader, ref: string, info: string, ks: KeyState, mediaSequence: int, index: nat): Segment {
    Segment(rd.url(ref), info, ks.enc, if ks.enc.Clear? then None else ks.keyUrl,
            IvFor(rd, ks, mediaSequence, index))
  }

  /** The variables of the loop. */
  datatype State = State(
    ks: KeyState, pending: Option<string>, mediaSequence: int, segments: seq<Segment>, enc: Encryption)

  const Start := State(NoKey, None, 0, [], Clear)

  /** One line; None when the playlist is refused. */
  function Step(rd: Reader, s: State, t: Token): Option<State> {
    match t
    case ExtInf(info) => Some(s.(pending := Some(info)))
    case Sequence(n) => Some(s.(mediaSequence := n))
    case Key(attr) =>
      var ks := rd.key(attr);
      if ks.None? then None else Some(s.(ks := ks.value, enc := if ks.value.enc.Aes128? then Aes128 else s.enc))
    case Map => None
    case Uri(ref) =>
      if s.pending.None? then Some(s)
      else if |s.segments| >= HLS_MAX_SEGMENTS then None
      else
        var segment := MakeSegment(rd, ref, s.pending.value, s.ks, s.mediaSequence, |s.segments|);
        Some(s.(pending := None, segments := s.segments + [segment]))
    case Blank => Some(s)
    case OtherTag => Some(s)
  }

  /** The lines from number n on. */
  function Fold(rd: Reader, ts: seq<Token>, n: nat, s: State): Option<State>
    requires n <= |ts|
    decreases |ts| - n
  {
    if n == |ts| then Some(s) else
    var s' := Step(rd, s, ts[n]);
    if s'.None? then None else Fold(rd, ts, n + 1, s'.value)
  }

  function ParseMedia(resolve: Resolver, base: string, text: string): Option<State> {
    if !IsM3u8(text) then None
    else Fold(HlsReader(resolve, base), TokensFrom(HlsReader(resolve, base), text, 0), 0, Start)
  }

  method VectorFor(number: int) returns (iv: seq<byte>)
    ensures iv == DefaultVector(number)
  {
    var buffer := new byte[AES_BLOCK];
    IvFromSequence(number % TWO64, buffer);
    iv := buffer[..];
  }

  /** A URI line: append a segment with the key state in force, if an EXTINF is pending. */
  method TakeUri(rd: Reader, s: State, ref: string) returns (r: Option<State>)
    requires rd.vector == DefaultVector
    ensures r == Step(rd, s, Uri(ref))
  {
    if s.pending.None? {
      return Some(s);
    }
    if |s.segments| >= HLS_MAX_SEGMENTS {
      return None;
    }
    var keyUrl, iv: Option<seq<byte>> := None, None;
    if s.ks.enc.Aes128? {
      keyUrl := s.ks.keyUrl;
      if s.ks.iv.Some? {
        iv := s.ks.iv;
      } else {
        var vector := VectorFor(s.mediaSequence + |s.segments|);
        iv := Some(vector);
      }
    }
    var segment := Segment(rd.url(ref), s.pending.value, s.ks.enc, keyUrl, iv);
    r := Some(s.(segments := s.segments + [segment], pending := None));
  }

  /** The branches of the loop for one line. */
  method TakeLine(rd: Reader, s: State, token: Token) returns (r: Option<State>)
    requires rd.vector == DefaultVector
    ensures r == Step(rd, s, token)
  {
    match token
    case ExtInf(info) => r := Some(s.(pending := Some(info)));
    case Sequence(n) => r := Some(s.(mediaSequence := n));
    case Key(attr) =>
      var applied := rd.key(attr);
      if applied.None? {
        return None;
      }
      var next := s.(ks := applied.value);
      if applied.value.enc != Clear {
        next := next.(enc := applied.value.enc);
      }
      r := Some(next);
    case Map => r := None;
    case Uri(ref) => r := TakeUri(rd, s, ref);
    case Blank => r := Some(s);
    case OtherTag => r := Some(s);
  }

  /** The loop of hls_parse_media. */
  method ParseLines(rd: Reader, text: string) returns (r: Option<State>)
    requires rd.vector == DefaultVector
    ensures r == Fold(rd, TokensFrom(rd, text, 0), 0, Start)
  {
    ghost var ts := TokensFrom(rd, text, 0);
    ghost var n := 0;
    assert ts[0..] == ts;
    var s := Start;
    var p := 0;
    while p < |text|
      invariant 0 <= p <= |text| && n <= |ts|
      invariant ts[n..] == TokensFrom(rd, text, p)
      invariant Fold(rd, ts, n, s) == Fold(rd, ts, 0, Start)
    {
      var next;
      next, p := ParseLine(rd, text, p, s, ts, n);
      if next.None? {
        return None;
      }
      s := next.value;
      n := n + 1;
    }
    r := Some(s);
  }

  /** The body of that loop: one line. */
  method ParseLine(rd: Reader, text: string, p: nat, s: State, ghost ts: seq<Token>, ghost n: nat)
    returns (next: Option<State>, p': nat)
    requires rd.vector == DefaultVector
    requires p < |text| && n <= |ts| && ts[n..] == TokensFrom(rd, text, p)
    ensures p < p' <= |text| && n < |ts| && ts[n + 1..] == TokensFrom(rd, text, p')
    ensures Fold(rd, ts, n, s) == if next.None? then None else Fold(rd, ts, n + 1, next.value)
  {
    var q := LineEnd(text, p);
    NextToken(rd, text, p, ts, n);
    p' := if q < |text| then q + 1 else q;
    next := TakeLine(rd, s, rd.line(text[p..q]));
    FoldNext(rd, ts, n, s, next);
  }

  lemma FoldNext(rd: Reader, ts: seq<Token>, n: nat, s: State, next: Option<State>)
    requires n < |ts| && next == Step(rd, s, ts[n])
    ensures Fold(rd, ts, n, s) == if next.None? then None else Fold(rd, ts, n + 1, next.value)
  {
  }

  lemma NextToken(rd: Reader, text: string, p: nat, ts: seq<Token>, n: nat)
    requires p < |text| && n <= |ts| && ts[n..] == TokensFrom(rd, text, p)
    ensures var q := LineEnd(text, p);
            && n < |ts| && ts[n] == rd.line(text[p..q])
            && ts[n + 1..] == TokensFrom(rd, text, if q < |text| then q + 1 else q)
  {
    var q := LineEnd(text, p);
    var rest := TokensFrom(rd, text, if q < |text| then q + 1 else q);
    assert ts[n..] == [rd.line(text[p..q])] + rest;
    assert ts[n + 1..] == ts[n..][1..] == rest;
  }

  /** hls_parse_media. */
  method ParseMediaImpl(resolve: Resolver, base: string, text: string) returns (r: Option<State>)
    ensures r == ParseMedia(resolve, base, text)
  {
    if !IsM3u8(text) {
      return None;
    }
    r := ParseLines(HlsReader(resolve, base), text);
  }

  // ----- the declarative reading

  /** Largest index below n of a token of some kind. */
  function LastBelow(ts: seq<Token>, n: nat, kind: Token -> bool): (i: Option<nat>)
    requires n <= |ts|
    ensures i.Some? ==> i.value < n && kind(ts[i.value]) && forall j | i.value < j < n :: !kind(ts[j])
    ensures i.None? ==> forall j | 0 <= j < n :: !kind(ts[j])
  {
    if n == 0 then None
    else if kind(ts[n - 1]) then Some(n - 1)
    else LastBelow(ts, n - 1, kind)
  }

  predicate IsExtInf(t: Token) { t.ExtInf? }
  predicate IsKey(t: Token) { t.Key? }
  predicate IsSequence(t: Token) { t.Sequence? }

  /** A URI belongs to a segment when an EXTINF stands above it with no URI in between. */
  predicate IsSegmentUri(ts: seq<Token>, u: nat)
    requires u < |ts|
  {
    && ts[u].Uri?
    && var e := LastBelow(ts, u, IsExtInf);
       e.Some? && forall j | e.value < j < u :: !ts[j].Uri?
  }

  /** The positions of the segment URIs among the first n lines, in order. */
  function SegmentUris(ts: seq<Token>, n: nat): (us: seq<nat>)
    requires n <= |ts|
    ensures forall u <- us :: u < n
  {
    if n == 0 then []
    else SegmentUris(ts, n - 1) + if IsSegmentUri(ts, n - 1) then [n - 1] else []
  }

  /** The key in force at line u: what the nearest key tag above it says. */
  function KeyAt(rd: Reader, ts: seq<Token>, u: nat): Option<KeyState>
    requires u <= |ts|
  {
    var k := LastBelow(ts, u, IsKey);
    if k.None? then Some(NoKey) else rd.key(ts[k.value].attr)
  }

  function SequenceAt(ts: seq<Token>, u: nat): int
    requires u <= |ts|
  {
    var k := LastBelow(ts, u, IsSequence);
    if k.None? then 0 else ts[k.value].number
  }

  predicate Refused(rd: Reader, t: Token) {
    t.Map? || (t.Key? && rd.key(t.attr).None?)
  }

  /** The loop's variables after n accepted lines, read off the lines. */
  ghost predicate DescribesVars(rd: Reader, ts: seq<Token>, n: nat, s: State)
    requires n <= |ts|
  {
    && KeyAt(rd, ts, n) == Some(s.ks)
    && s.mediaSequence == SequenceAt(ts, n)
    && s.pending == PendingAt(ts, n)
    && (s.enc.Aes128? <==> exists i | 0 <= i < n :: SetsAes(rd, ts[i]))
  }

  /** A key tag that puts encryption in force. */
  predicate SetsAes(rd: Reader, t: Token) {
    t.Key? && rd.key(t.attr).Some? && rd.key(t.attr).value.enc.Aes128?
  }

  /** The EXTINF above line n that no URI has used yet. */
  function PendingAt(ts: seq<Token>, n: nat): Option<string>
    requires n <= |ts|
  {
    var e := LastBelow(ts, n, IsExtInf);
    if e.Some? && forall j | e.value < j < n :: !ts[j].Uri? then Some(ts[e.value].info) else None
  }

  /** The segments after n accepted lines, read off the lines. */
  ghost predicate DescribesSegments(rd: Reader, ts: seq<Token>, n: nat, segments: seq<Segment>)
    requires n <= |ts|
  {
    && |segments| == |SegmentUris(ts, n)| <= HLS_MAX_SEGMENTS
    && forall k | 0 <= k < |segments| :: Agrees(rd, ts, SegmentUris(ts, n)[k], k, segments[k])
  }

  ghost predicate Describes(rd: Reader, ts: seq<Token>, n: nat, s: State)
    requires n <= |ts|
  {
    DescribesVars(rd, ts, n, s) && DescribesSegments(rd, ts, n, s.segments)
  }

  /** Segment number k, read off the lines around its URI. */
  ghost predicate Agrees(rd: Reader, ts: seq<Token>, u: nat, k: nat, seg: Segment) {
    && u < |ts| && IsSegmentUri(ts, u)
    && KeyAt(rd, ts, u).Some?
    && seg == MakeSegment(rd, ts[u].ref, ts[LastBelow(ts, u, IsExtInf).value].info,
                          KeyAt(rd, ts, u).value, SequenceAt(ts, u), k)
  }

  lemma LastBelowNext(ts: seq<Token>, n: nat, kind: Token -> bool)
    requires n < |ts|
    ensures LastBelow(ts, n + 1, kind) == if kind(ts[n]) then Some(n) else LastBelow(ts, n, kind)
  {
  }

  lemma PendingNext(ts: seq<Token>, n: nat)
    requires n < |ts|
    ensures PendingAt(ts, n + 1) == match ts[n]
              case ExtInf(info) => Some(info)
              case Uri(_) => None
              case _ => PendingAt(ts, n)
    ensures IsSegmentUri(ts, n) <==> ts[n].Uri? && PendingAt(ts, n).Some?
  {
    LastBelowNext(ts, n, IsExtInf);
  }

  lemma StepDescribesVars(rd: Reader, ts: seq<Token>, n: nat, s: State)
    requires n < |ts| && DescribesVars(rd, ts, n, s)
    ensures var s' := Step(rd, s, ts[n]); s'.Some? ==> DescribesVars(rd, ts, n + 1, s'.value)
  {
    LastBelowNext(ts, n, IsKey);
    LastBelowNext(ts, n, IsSequence);
    PendingNext(ts, n);
  }

  lemma StepDescribes(rd: Reader, ts: seq<Token>, n: nat, s: State)
    requires n < |ts| && Describes(rd, ts, n, s)
    ensures var s' := Step(rd, s, ts[n]);
            && (s'.None? <==> Refused(rd, ts[n]) || |SegmentUris(ts, n + 1)| > HLS_MAX_SEGMENTS)
            && (s'.Some? ==> Describes(rd, ts, n + 1, s'.value))
  {
    StepDescribesVars(rd, ts, n, s);
    PendingNext(ts, n);
    if IsSegmentUri(ts, n) {
      UriDescribes(rd, ts, n, s);
    } else {
      assert SegmentUris(ts, n + 1) == SegmentUris(ts, n);
    }
  }

  /** The case of a URI that makes a segment. */
  lemma UriDescribes(rd: Reader, ts: seq<Token>, n: nat, s: State)
    requires n < |ts| && Describes(rd, ts, n, s) && IsSegmentUri(ts, n)
    ensures |SegmentUris(ts, n + 1)| == |SegmentUris(ts, n)| + 1
    ensures var s' := Step(rd, s, ts[n]);
            && (s'.None? <==> |SegmentUris(ts, n)| >= HLS_MAX_SEGMENTS)
            && (s'.Some? ==> DescribesSegments(rd, ts, n + 1, s'.value.segments))
  {
    PendingNext(ts, n);
    var us := SegmentUris(ts, n);
    assert SegmentUris(ts, n + 1) == us + [n];
    if |us| < HLS_MAX_SEGMENTS {
      var seg := MakeSegment(rd, ts[n].ref, s.pending.value, s.ks, s.mediaSequence, |us|);
      assert Agrees(rd, ts, n, |us|, seg);
      SegmentsSnoc(rd, ts, n, s.segments, seg);
    }
  }

  lemma SegmentsSnoc(rd: Reader, ts: seq<Token>, n: nat, segments: seq<Segment>, seg: Segment)
    requires n < |ts| && DescribesSegments(rd, ts, n, segments) && |segments| < HLS_MAX_SEGMENTS
    requires SegmentUris(ts, n + 1) == SegmentUris(ts, n) + [n]
    requires Agrees(rd, ts, n, |segments|, seg)
    ensures DescribesSegments(rd, ts, n + 1, segments + [seg])
  {
  }

  /** The parser agrees with the declarative reading: it refuses a playlist exactly when some line
      is an unacceptable key or an EXT-X-MAP or there are too many segments; otherwise segment k is
      the k-th URI with an EXTINF of its own, carrying that EXTINF, the nearest key above it and,
      without an explicit vector, the sequence number in force plus k. */
  lemma {:induction false} FoldDescribes(rd: Reader, ts: seq<Token>, n: nat, s: State)
    requires n <= |ts| && Describes(rd, ts, n, s)
    ensures var r := Fold(rd, ts, n, s);
            && (r.None? <==> (exists i | n <= i < |ts| :: Refused(rd, ts[i]))
                             || |SegmentUris(ts, |ts|)| > HLS_MAX_SEGMENTS)
            && (r.Some? ==> Describes(rd, ts, |ts|, r.value))
    decreases |ts| - n
  {
    if n >= |ts| {
    } else {
      StepDescribes(rd, ts, n, s);
      var s' := Step(rd, s, ts[n]);
      if s'.Some? {
        FoldDescribes(rd, ts, n + 1, s'.value);
      } else {
        SegmentUrisGrow(ts, n + 1);
      }
    }
  }

  lemma {:induction false} SegmentUrisGrow(ts: seq<Token>, n: nat)
    requires n <= |ts|
    ensures |SegmentUris(ts, n)| <= |SegmentUris(ts, |ts|)|
    decreases |ts| - n
  {
    if n >= |ts| {
    } else {
      SegmentUrisGrow(ts, n + 1);
    }
  }

  lemma ParseMediaAgrees(resolve: Resolver, base: string, text: string)
    requires IsM3u8(text)
    ensures var rd := HlsReader(resolve, base);
            var ts := TokensFrom(rd, text, 0);
            var us := SegmentUris(ts, |ts|);
            var r := ParseMedia(resolve, base, text);
            && (r.None? <==> (exists i | 0 <= i < |ts| :: Refused(rd, ts[i])) || |us| > HLS_MAX_SEGMENTS)
            && (r.Some? ==>
                 && r.value.mediaSequence == SequenceAt(ts, |ts|)
                 && (r.value.enc.Aes128? <==> exists i | 0 <= i < |ts| :: SetsAes(rd, ts[i]))
                 && |r.value.segments| == |us|
                 && (forall k | 0 <= k < |us| :: Agrees(rd, ts, us[k], k, r.value.segments[k])))
  {
    var rd := HlsReader(resolve, base);
    var ts := TokensFrom(rd, text, 0);
    FoldDescribes(rd, ts, 0, Start);
  }

  /** When every sequence tag stands above the first segment, the number in force is the same at
      every segment, and it is the playlist's. */
  lemma SequenceIsConstant(ts: seq<Token>, first: nat, u: nat)
    requires first <= u <= |ts| && forall i | first <= i < |ts| :: !ts[i].Sequence?
    ensures SequenceAt(ts, u) == SequenceAt(ts, first) == SequenceAt(ts, |ts|)
  {
    LastBelowSkips(ts, first, u);
    LastBelowSkips(ts, first, |ts|);
  }

  lemma {:induction false} LastBelowSkips(ts: seq<Token>, first: nat, u: nat)
    requires first <= u <= |ts| && forall i | first <= i < |ts| :: !ts[i].Sequence?
    ensures LastBelow(ts, u, IsSequence) == LastBelow(ts, first, IsSequence)
    decreases u
  {
    if first == u {
    } else {
      LastBelowSkips(ts, first, u - 1);
    }
  }

  ghost predicate Increasing(us: seq<nat>) { forall j, k | 0 <= j < k < |us| :: us[j] < us[k] }

  lemma {:induction false} SegmentUrisIncrease(ts: seq<Token>, n: nat)
    requires n <= |ts|
    ensures Increasing(SegmentUris(ts, n))
  {
    if n == 0 {
    } else {
      SegmentUrisIncrease(ts, n - 1);
      var us := SegmentUris(ts, n - 1);
      assert forall j | 0 <= j < |us| :: us[j] in us;
    }
  }

  /** The sequence number in force at a segment of a playlist with no sequence tag below the first. */
  lemma SequenceOfSegment(ts: seq<Token>, us: seq<nat>, k: nat)
    requires us == SegmentUris(ts, |ts|) && k < |us| && us[k] < |ts|
    requires forall i | us[0] <= i < |ts| :: !ts[i].Sequence?
    ensures SequenceAt(ts, us[k]) == SequenceAt(ts, |ts|)
  {
    SegmentUrisIncrease(ts, |ts|);
    assert k > 0 ==> us[0] < us[k];
    SequenceIsConstant(ts, us[0], us[k]);
  }

  // ----- default vectors

  lemma DefaultVectorsSameIff(a: int, b: int)
    ensures DefaultVector(a) == DefaultVector(b) <==> a % TWO64 == b % TWO64
  {
    BigEndianIsFaithful(a % TWO64);
    BigEndianIsFaithful(b % TWO64);
  }

  /** The segment whose URI stands at u is encrypted and its key names no vector. */
  predicate UsesDefault(rd: Reader, ts: seq<Token>, u: nat)
    requires u <= |ts|
  {
    var ks := KeyAt(rd, ts, u);
    ks.Some? && ks.value.enc.Aes128? && ks.value.iv.None?
  }

  /** What hls_parse_media makes of a playlist: its lines, its segments and where they stand. */
  ghost predicate Parsed(rd: Reader, ts: seq<Token>, us: seq<nat>, r: State) {
    && us == SegmentUris(ts, |ts|) && |r.segments| == |us| && r.mediaSequence == SequenceAt(ts, |ts|)
    && forall k | 0 <= k < |us| :: Agrees(rd, ts, us[k], k, r.segments[k])
  }

  lemma DefaultVectorOfSegment(rd: Reader, ts: seq<Token>, us: seq<nat>, r: State, k: nat)
    requires Parsed(rd, ts, us, r) && k < |us|
    ensures us[k] < |ts|
    ensures UsesDefault(rd, ts, us[k]) ==> r.segments[k].iv == Some(rd.vector(SequenceAt(ts, us[k]) + k))
  {
    assert Agrees(rd, ts, us[k], k, r.segments[k]);
  }

  /** The default vector of a parsed segment encodes the sequence number in force plus its index, and
      two such vectors coincide exactly when these numbers do as 64-bit numbers.  (The code adds in
      signed long; its sum is defined only up to LONG_MAX.) */
  lemma DefaultVectorsCoincideIff(rd: Reader, ts: seq<Token>, us: seq<nat>, r: State, j: nat, k: nat)
    requires Parsed(rd, ts, us, r) && rd.vector == DefaultVector
    requires j < |us| && k < |us| && us[j] < |ts| && us[k] < |ts|
    requires UsesDefault(rd, ts, us[j]) && UsesDefault(rd, ts, us[k])
    ensures r.segments[k].iv == Some(DefaultVector(SequenceAt(ts, us[k]) + k))
    ensures r.segments[j].iv == r.segments[k].iv <==>
              (SequenceAt(ts, us[j]) + j) % TWO64 == (SequenceAt(ts, us[k]) + k) % TWO64
  {
    DefaultVectorOfSegment(rd, ts, us, r, j);
    DefaultVectorOfSegment(rd, ts, us, r, k);
    DefaultVectorsSameIff(SequenceAt(ts, us[j]) + j, SequenceAt(ts, us[k]) + k);
  }

  /** With no sequence tag below the first segment, segment k's default vector is that of the
      playlist's media sequence plus k, and no two segments share one. */
  lemma DefaultVectorsAreDistinct(rd: Reader, ts: seq<Token>, us: seq<nat>, r: State, j: nat, k: nat)
    requires Parsed(rd, ts, us, r) && rd.vector == DefaultVector && |us| <= HLS_MAX_SEGMENTS
    requires j < k < |us| && us[j] < |ts| && us[k] < |ts|
    requires UsesDefault(rd, ts, us[j]) && UsesDefault(rd, ts, us[k])
    requires forall i | us[0] <= i < |ts| :: !ts[i].Sequence?
    ensures r.segments[k].iv == Some(DefaultVector(r.mediaSequence + k))
    ensures r.segments[j].iv != r.segments[k].iv
  {
    DefaultVectorsCoincideIff(rd, ts, us, r, j, k);
    SequenceOfSegment(ts, us, j);
    SequenceOfSegment(ts, us, k);
    ModDiffers(r.mediaSequence + j, r.mediaSequence + k);
  }

  lemma ModDiffers(a: int, b: int)
    requires a < b < a + TWO64
    ensures a % TWO64 != b % TWO64
  {
    var d := b / TWO64 - a / TWO64;
    assert b - a == TWO64 * d + (b % TWO64 - a % TWO64);
  }

  /** That is what hls_parse_media gives every playlist it accepts. */
  lemma ParseMediaParses(resolve: Resolver, base: string, text: string, rd: Reader, ts: seq<Token>, us: seq<nat>,
                         r: State)
    requires rd == HlsReader(resolve, base) && ts == TokensFrom(rd, text, 0) && us == SegmentUris(ts, |ts|)
    requires IsM3u8(text) && ParseMedia(resolve, base, text) == Some(r)
    ensures rd.vector == DefaultVector && Parsed(rd, ts, us, r) && |us| <= HLS_MAX_SEGMENTS
    ensures forall k | 0 <= k < |us| :: us[k] < |ts|
  {
    ParseMediaAgrees(resolve, base, text);
    assert forall k | 0 <= k < |us| :: us[k] in us;
  }

  /** In a playlist hls_parse_media accepts, no two encrypted segments without a vector of their own
      share one, provided no sequence tag stands below the first segment. */
  lemma SegmentVectorsAreDistinct(resolve: Resolver, base: string, text: string, ts: seq<Token>, us: seq<nat>,
                                  r: State, j: nat, k: nat)
    requires ts == TokensFrom(HlsReader(resolve, base), text, 0) && us == SegmentUris(ts, |ts|)
    requires IsM3u8(text) && ParseMedia(resolve, base, text) == Some(r)
    requires j < k < |us| && us[j] < |ts| && us[k] < |ts|
    requires UsesDefault(HlsReader(resolve, base), ts, us[j]) && UsesDefault(HlsReader(resolve, base), ts, us[k])
    requires forall i | us[0] <= i < |ts| :: !ts[i].Sequence?
    ensures |r.segments| == |us| && r.segments[k].iv == Some(DefaultVector(r.mediaSequence + k))
    ensures r.segments[j].iv != r.segments[k].iv
  {
    var rd := HlsReader(resolve, base);
    ParseMediaParses(resolve, base, text, rd, ts, us, r);
    DefaultVectorsAreDistinct(rd, ts, us, r, j, k);
  }
}
