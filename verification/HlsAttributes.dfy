/**
 The attribute lists and initialisation vectors of src/hls.c against their notation: attribute lists
 as section 4.2 of RFC 8216 writes them, vectors as 128-bit hexadecimal numbers.
 */
module HlsAttributes {
  import opened Prelude
  import opened Strings
  import opened HlsPlaylist

  // ----- attribute lists

  datatype Attribute = Attribute(name: string, value: string, quoted: bool)

  /** What the notation can express: no '=' in a name, no quote in a quoted value, no comma in
      another. */
  predicate Expressible(a: Attribute) {
    && '=' !in a.name && (a.name != "" ==> a.name[0] != ' ' && a.name[0] != ',')
    && if a.quoted then '"' !in a.value else ',' !in a.value && (a.value != "" ==> a.value[0] != '"')
  }

  function ValueText(a: Attribute): string {
    if a.quoted then "\"" + (a.value + "\"") else a.value
  }

  /** One attribute and what follows it. */
  function Written(a: Attribute, rest: string): string { a.name + ("=" + (ValueText(a) + rest)) }

  function More(attrs: seq<Attribute>): string {
    if attrs == [] then "" else "," + Written(attrs[0], More(attrs[1..]))
  }

  function ListText(attrs: seq<Attribute>): string {
    if attrs == [] then "" else Written(attrs[0], More(attrs[1..]))
  }

  /** The value of the first attribute of that name. */
  function Lookup(attrs: seq<Attribute>, key: string): Option<string> {
    if attrs == [] then None
    else if SameIgnoringCase(attrs[0].name, key) then Some(attrs[0].value)
    else Lookup(attrs[1..], key)
  }

  lemma NameIsCut(a: Attribute, rest: string)
    requires Expressible(a)
    ensures var s := Written(a, rest);
            && SkipSeparators(s) == s == SkipSeparators("," + s)
            && FindChar(s, '=') == |a.name| < |s| && s[..|a.name|] == a.name
            && s[|a.name| + 1..] == ValueText(a) + rest
  {
    var s := Written(a, rest);
    var tail := "=" + (ValueText(a) + rest);
    FindCharAfter(a.name, tail, '=');
    assert s[|a.name| + 1..] == s[|a.name|..][1..] == tail[1..];
    assert ("," + s)[1..] == s;
    assert s[0] != ' ' && s[0] != ',';
  }

  /** What attr_get does with a value: where it ends, and where the next attribute starts. */
  lemma QuotedIsCut(value: string, rest: string)
    requires '"' !in value
    ensures var val := value + ("\"" + rest);
            FindChar(val, '"') == |value| < |val| && val[..|value|] == value && val[|value| + 1..] == rest
    ensures "\"" + (value + "\"") + rest == "\"" + (value + ("\"" + rest))
  {
    FindCharAfter(value, "\"" + rest, '"');
    assert (value + ("\"" + rest))[|value| + 1..] == ("\"" + rest)[1..];
  }

  lemma UnquotedIsCut(value: string, rest: string)
    requires ',' !in value && (rest == "" || rest[0] == ',')
    ensures var val := value + rest;
            FindChar(val, ',') == |value| && val[..|value|] == value && val[|value|..] == rest
  {
    if rest == "" {
      assert value + rest == value;
      FindCharIs(value, ',', |value|);
    } else {
      FindCharAfter(value, rest, ',');
    }
  }

  lemma QuotedTurn(s: string, name: string, val: string, end: nat, rest: string, key: string)
    requires var p := SkipSeparators(s);
             && FindChar(p, '=') == |name| < |p| && p[..|name|] == name
             && p[|name| + 1..] == "\"" + val
    requires end == FindChar(val, '"') < |val| && val[end + 1..] == rest && (rest == "" || rest[0] == ',')
    ensures AttrGet(s, key) == if SameIgnoringCase(name, key) then Some(val[..end]) else AttrGet(rest, key)
  {
    var p := SkipSeparators(s);
    var quoted := p[|name| + 1..];
    assert s != "" && quoted[0] == '"' && quoted[1..] == val;
    assert val[end..][0] == '"' && val[end..][1..] == rest && rest[0..] == rest;
    FindCharIs(rest, ',', 0);
  }

  lemma UnquotedTurn(s: string, name: string, val: string, end: nat, rest: string, key: string)
    requires var p := SkipSeparators(s);
             && FindChar(p, '=') == |name| < |p| && p[..|name|] == name
             && p[|name| + 1..] == val
    requires val == "" || val[0] != '"'
    requires end == FindChar(val, ',') && val[end..] == rest && (rest == "" || rest[0] == ',')
    ensures AttrGet(s, key) == if SameIgnoringCase(name, key) then Some(val[..end]) else AttrGet(rest, key)
  {
    assert rest[0..] == rest;
    FindCharIs(rest, ',', 0);
  }

  lemma SeparatorsSkipped(s: string, a: Attribute, rest: string)
    requires Expressible(a) && (s == Written(a, rest) || s == "," + Written(a, rest))
    ensures s != ""
    ensures var p := SkipSeparators(s);
            && FindChar(p, '=') == |a.name| < |p| && p[..|a.name|] == a.name
            && p[|a.name| + 1..] == ValueText(a) + rest
  {
    NameIsCut(a, rest);
  }

  lemma QuotedAttribute(s: string, a: Attribute, rest: string, key: string)
    requires a.quoted && '"' !in a.value && (rest == "" || rest[0] == ',')
    requires var p := SkipSeparators(s);
             && FindChar(p, '=') == |a.name| < |p| && p[..|a.name|] == a.name
             && p[|a.name| + 1..] == ValueText(a) + rest
    ensures AttrGet(s, key) == if SameIgnoringCase(a.name, key) then Some(a.value) else AttrGet(rest, key)
  {
    QuotedIsCut(a.value, rest);
    QuotedTurn(s, a.name, a.value + ("\"" + rest), |a.value|, rest, key);
  }

  /** One turn of the loop, before or after its separator has been skipped. */
  lemma OneAttribute(s: string, a: Attribute, rest: string, key: string)
    requires Expressible(a) && (rest == "" || rest[0] == ',')
    requires s == Written(a, rest) || s == "," + Written(a, rest)
    ensures AttrGet(s, key) == if SameIgnoringCase(a.name, key) then Some(a.value) else AttrGet(rest, key)
  {
    SeparatorsSkipped(s, a, rest);
    if a.quoted {
      QuotedAttribute(s, a, rest, key);
    } else {
      var val := a.value + rest;
      UnquotedIsCut(a.value, rest);
      assert val == "" || val[0] != '"';
      UnquotedTurn(s, a.name, val, |a.value|, rest, key);
    }
  }

  lemma {:induction false} MoreIsRead(attrs: seq<Attribute>, key: string)
    requires forall a <- attrs :: Expressible(a)
    ensures AttrGet(More(attrs), key) == Lookup(attrs, key)
    ensures More(attrs) == "" || More(attrs)[0] == ','
    decreases |attrs|
  {
    if attrs == [] {
    } else {
      assert attrs[0] in attrs && forall a <- attrs[1..] :: a in attrs;
      MoreIsRead(attrs[1..], key);
      OneAttribute(More(attrs), attrs[0], More(attrs[1..]), key);
    }
  }

  /** attr_get on a written list is a lookup by name, the first match winning; commas and equals
      signs inside quotes do not disturb it. */
  lemma AttrGetIsLookup(attrs: seq<Attribute>, key: string)
    requires forall a <- attrs :: Expressible(a)
    ensures AttrGet(ListText(attrs), key) == Lookup(attrs, key)
  {
    if attrs != [] {
      assert attrs[0] in attrs && forall a <- attrs[1..] :: a in attrs;
      MoreIsRead(attrs[1..], key);
      OneAttribute(ListText(attrs), attrs[0], More(attrs[1..]), key);
    }
  }

  // ----- initialisation vectors

  function HexDigit(n: int): (c: char)
    requires 0 <= n < 16
    ensures HexNibble(c) == Some(n) && Lower(c) == c
  {
    if n < 10 then (n + '0' as int) as char else (n - 10 + 'a' as int) as char
  }

  /** Two digits for each byte. */
  function HexText(bytes: seq<byte>): (h: string)
    ensures |h| == 2 * |bytes|
  {
    seq(2 * |bytes|, i requires 0 <= i < 2 * |bytes| =>
      var b := bytes[i / 2] as int;
      HexDigit(if i % 2 == 0 then b / 16 else b % 16))
  }

  lemma NibbleIgnoresCase(c: char, n: int)
    requires 0 <= n < 16
    ensures HexNibble(c) == Some(n) <==> Lower(c) == HexDigit(n)
  {
  }

  function Unprefixed(hex: string): string {
    if |hex| >= 2 && hex[0] == '0' && (hex[1] == 'x' || hex[1] == 'X') then hex[2..] else hex
  }

  lemma DigitsOfVector(iv: seq<byte>, i: nat)
    requires i < |iv|
    ensures HexText(iv)[2 * i] == HexDigit(iv[i] as int / 16)
    ensures HexText(iv)[2 * i + 1] == HexDigit(iv[i] as int % 16)
  {
  }

  /** The digit pairs of a text are the bytes of the vector. */
  ghost predicate Denotes(h: string, iv: seq<byte>) {
    && |h| == 2 * |iv|
    && forall i | 0 <= i < |iv| :: DenotesByte(h, iv, i)
  }

  predicate DenotesByte(h: string, iv: seq<byte>, i: nat)
    requires i < |iv| && |h| == 2 * |iv|
  {
    && HexNibble(h[2 * i]).Some? && HexNibble(h[2 * i + 1]).Some?
    && iv[i] as int == 16 * HexNibble(h[2 * i]).value + HexNibble(h[2 * i + 1]).value
  }

  lemma ByteIsItsText(h: string, iv: seq<byte>, i: nat)
    requires i < |iv| && |h| == 2 * |iv|
    ensures DenotesByte(h, iv, i) <==>
              Lower(h[2 * i]) == HexText(iv)[2 * i] && Lower(h[2 * i + 1]) == HexText(iv)[2 * i + 1]
  {
    var b := iv[i] as int;
    DigitsOfVector(iv, i);
    NibbleIgnoresCase(h[2 * i], b / 16);
    NibbleIgnoresCase(h[2 * i + 1], b % 16);
    NibblesOf(h[2 * i], h[2 * i + 1], b);
  }

  lemma NibblesOf(hi: char, lo: char, b: int)
    requires 0 <= b < 256
    ensures HexNibble(hi).Some? && HexNibble(lo).Some? && b == 16 * HexNibble(hi).value + HexNibble(lo).value
            <==> HexNibble(hi) == Some(b / 16) && HexNibble(lo) == Some(b % 16)
  {
  }

  lemma HexIsLower(iv: seq<byte>, j: nat)
    requires j < 2 * |iv|
    ensures Lower(HexText(iv)[j]) == HexText(iv)[j]
  {
  }

  lemma DenotesIffText(h: string, iv: seq<byte>)
    ensures Denotes(h, iv) <==> SameIgnoringCase(h, HexText(iv))
  {
    if |h| == 2 * |iv| {
      forall i | 0 <= i < |iv|
        ensures DenotesByte(h, iv, i) <==>
                  Lower(h[2 * i]) == HexText(iv)[2 * i] && Lower(h[2 * i + 1]) == HexText(iv)[2 * i + 1]
      {
        ByteIsItsText(h, iv, i);
      }
      forall j | 0 <= j < |h|
        ensures Lower(HexText(iv)[j]) == HexText(iv)[j]
        ensures j == 2 * (j / 2) || j == 2 * (j / 2) + 1
      {
        HexIsLower(iv, j);
      }
      if Denotes(h, iv) {
        forall j | 0 <= j < |h|
          ensures Lower(h[j]) == Lower(HexText(iv)[j])
        {
          assert DenotesByte(h, iv, j / 2);
        }
      }
    }
  }

  lemma DenotedIsParsed(hex: string, iv: seq<byte>)
    requires |iv| == AES_BLOCK && Denotes(Unprefixed(hex), iv)
    ensures ParseIv(hex) == Some(iv)
  {
    var h := Unprefixed(hex);
    forall c | c in h
      ensures HexNibble(c).Some?
    {
      var j :| 0 <= j < |h| && h[j] == c;
      assert DenotesByte(h, iv, j / 2);
      assert j == 2 * (j / 2) || j == 2 * (j / 2) + 1;
    }
    assert ParseIv(hex).Some?;
    forall i | 0 <= i < AES_BLOCK
      ensures ParseIv(hex).value[i] == iv[i]
    {
      assert DenotesByte(h, iv, i);
    }
    assert ParseIv(hex).value == iv;
  }

  lemma ParsedIsDenoted(hex: string, iv: seq<byte>)
    requires |iv| == AES_BLOCK && ParseIv(hex) == Some(iv)
    ensures Denotes(Unprefixed(hex), iv)
  {
    var h := Unprefixed(hex);
    forall i | 0 <= i < AES_BLOCK
      ensures DenotesByte(h, iv, i)
    {
      assert h[2 * i] in h && h[2 * i + 1] in h;
    }
  }

  /** hls_parse_iv accepts a text as a vector exactly when, after an optional 0x, it is the vector's
      32 hexadecimal digits in either case. */
  lemma ParseIvIff(hex: string, iv: seq<byte>)
    requires |iv| == AES_BLOCK
    ensures ParseIv(hex) == Some(iv) <==> SameIgnoringCase(Unprefixed(hex), HexText(iv))
  {
    DenotesIffText(Unprefixed(hex), iv);
    if Denotes(Unprefixed(hex), iv) {
      DenotedIsParsed(hex, iv);
    }
    if ParseIv(hex) == Some(iv) {
      ParsedIsDenoted(hex, iv);
    }
  }

  // ----- a whole key tag

  /** A key tag that names AES-128, a URI and a vector in hexadecimal puts exactly these in force,
      in whatever order and among whatever other attributes they stand. */
  lemma KeyTagIsRead(resolve: Resolver, base: string, attrs: seq<Attribute>, uri: string, iv: seq<byte>)
    requires (forall a <- attrs :: Expressible(a)) && |iv| == AES_BLOCK
    requires Lookup(attrs, "METHOD") == Some("AES-128") && Lookup(attrs, "URI") == Some(uri)
    requires Lookup(attrs, "IV") == Some("0x" + HexText(iv))
    ensures ApplyKey(resolve, base, ListText(attrs)) == Some(KeyState(Aes128, Some(resolve(base, uri)), Some(iv)))
  {
    AttrGetIsLookup(attrs, "METHOD");
    AttrGetIsLookup(attrs, "URI");
    AttrGetIsLookup(attrs, "IV");
    HexVectorIsRead(iv);
    KeyIsApplied(resolve, base, ListText(attrs), uri, "0x" + HexText(iv), iv);
  }

  lemma HexVectorIsRead(iv: seq<byte>)
    requires |iv| == AES_BLOCK
    ensures ParseIv("0x" + HexText(iv)) == Some(iv)
  {
    ParseIvIff("0x" + HexText(iv), iv);
    assert ("0x" + HexText(iv))[2..] == HexText(iv);
  }

  lemma KeyIsApplied(resolve: Resolver, base: string, attr: string, uri: string, hex: string, iv: seq<byte>)
    requires AttrGet(attr, "METHOD") == Some("AES-128") && AttrGet(attr, "URI") == Some(uri)
    requires AttrGet(attr, "IV") == Some(hex) && ParseIv(hex) == Some(iv)
    ensures ApplyKey(resolve, base, attr) == Some(KeyState(Aes128, Some(resolve(base, uri)), Some(iv)))
  {
    assert SameIgnoringCase("AES-128", "AES-128") && !SameIgnoringCase("AES-128", "NONE");
  }
}
