/**
 Basic authentication: the token http_auth_token (src/http.c) builds from user, ":" and pass by
 walking the three strings as one chain.  RFC 7617, section 2, with the Base64 of RFC 4648,
 section 4.
 */
module BasicAuth {
  import opened Prelude

  type Octets = seq<bv8>

  const COLON: bv8 := 58

  // ----- Base64

  /** Table 1 of RFC 4648, which base64_encode spells out. */
  function Symbol(x: bv8): char
    requires x < 64
  {
    var k := x as int;
    if k < 26 then ('A' as int + k) as char
    else if k < 52 then ('a' as int + k - 26) as char
    else if k < 62 then ('0' as int + k - 52) as char
    else if k == 62 then '+'
    else '/'
  }

  const TABLE := "ABCDEFGHIJKLMNOPQRSTUVWXYZ" + "abcdefghijklmnopqrstuvwxyz" + "0123456789+/"

  /** It is the string base64_encode is initialised with. */
  lemma SymbolIsTable(x: bv8)
    requires x < 64
    ensures |TABLE| == 64 && TABLE[x as int] == Symbol(x)
  {
    var upper, lower, rest := "ABCDEFGHIJKLMNOPQRSTUVWXYZ", "abcdefghijklmnopqrstuvwxyz", "0123456789+/";
    var k := x as int;
    if k < 26 {
      assert TABLE[k] == upper[k];
    } else if k < 52 {
      assert TABLE[k] == lower[k - 26];
    } else {
      assert TABLE[k] == rest[k - 52];
    }
  }

  lemma SymbolIsInjective(x: bv8, y: bv8)
    requires x < 64 && y < 64 && Symbol(x) == Symbol(y)
    ensures x == y
  {
    SmallIndex(x);
    SmallIndex(y);
    assert x as int == y as int;
  }

  lemma SmallIndex(x: bv8)
    requires x < 64
    ensures 0 <= x as int < 64
  {
  }

  /** The sextet a character stands for, if any. */
  ghost function SymbolValue(c: char): (r: Option<bv8>)
    ensures r.Some? ==> r.value < 64 && Symbol(r.value) == c
  {
    if exists x: bv8 :: x < 64 && Symbol(x) == c then
      var x: bv8 :| x < 64 && Symbol(x) == c;
      Some(x)
    else None
  }

  lemma SymbolReadsBack(x: bv8)
    requires x < 64
    ensures SymbolValue(Symbol(x)) == Some(x) && Symbol(x) != '='
  {
    SmallIndex(x);
    SymbolIsInjective(x, SymbolValue(Symbol(x)).value);
  }

  function Sextet1(a: bv8): (x: bv8) ensures x < 64 { a >> 2 }

  function Sextet2(a: bv8, b: bv8): (x: bv8) ensures x < 64 { ((a & 3) << 4) | (b >> 4) }

  function Sextet3(b: bv8, c: bv8): (x: bv8) ensures x < 64 { ((b & 15) << 2) | (c >> 6) }

  function Sextet4(c: bv8): (x: bv8) ensures x < 64 { c & 63 }

  function Group1(a: bv8): string {
    [Symbol(Sextet1(a)), Symbol(Sextet2(a, 0)), '=', '=']
  }

  function Group2(a: bv8, b: bv8): string {
    [Symbol(Sextet1(a)), Symbol(Sextet2(a, b)), Symbol(Sextet3(b, 0)), '=']
  }

  function Group3(a: bv8, b: bv8, c: bv8): string {
    [Symbol(Sextet1(a)), Symbol(Sextet2(a, b)), Symbol(Sextet3(b, c)), Symbol(Sextet4(c))]
  }

  function Encode(s: Octets): string {
    if |s| == 0 then ""
    else if |s| == 1 then Group1(s[0])
    else if |s| == 2 then Group2(s[0], s[1])
    else Group3(s[0], s[1], s[2]) + Encode(s[3..])
  }

  /** The decoder RFC 4648 describes, refusing padding inside the text and non-zero pad bits. */
  ghost function Decode(t: string): Option<Octets> {
    if t == "" then Some([])
    else if |t| < 4 then None
    else
      var more := Decode(t[4..]);
      var last := DecodeGroup(t[0], t[1], t[2], t[3]);
      if more.None? || last.None? || (|t| > 4 && |last.value| < 3) then None
      else Some(last.value + more.value)
  }

  ghost function DecodeGroup(c1: char, c2: char, c3: char, c4: char): Option<Octets> {
    var x1, x2, x3, x4 := SymbolValue(c1), SymbolValue(c2), SymbolValue(c3), SymbolValue(c4);
    if x1.None? || x2.None? then None
    else if c3 == '=' && c4 == '=' then
      if x2.value & 15 != 0 then None else Some([Octet1(x1.value, x2.value)])
    else if x3.None? then None
    else if c4 == '=' then
      if x3.value & 3 != 0 then None else Some([Octet1(x1.value, x2.value), Octet2(x2.value, x3.value)])
    else if x4.None? then None
    else Some([Octet1(x1.value, x2.value), Octet2(x2.value, x3.value), Octet3(x3.value, x4.value)])
  }

  function Octet1(x1: bv8, x2: bv8): bv8 { (x1 << 2) | (x2 >> 4) }

  function Octet2(x2: bv8, x3: bv8): bv8 { ((x2 & 15) << 4) | (x3 >> 2) }

  function Octet3(x3: bv8, x4: bv8): bv8 { ((x3 & 3) << 6) | x4 }

  /** Splitting three octets into sextets and joining them again, either way round. */
  lemma SextetsJoin(a: bv8, b: bv8, c: bv8)
    ensures Octet1(Sextet1(a), Sextet2(a, b)) == a
    ensures Octet2(Sextet2(a, b), Sextet3(b, c)) == b
    ensures Octet3(Sextet3(b, c), Sextet4(c)) == c
    ensures Sextet2(a, 0) & 15 == 0 && Sextet3(b, 0) & 3 == 0
  {
  }

  lemma OctetsSplit(x1: bv8, x2: bv8, x3: bv8, x4: bv8)
    requires x1 < 64 && x2 < 64 && x3 < 64 && x4 < 64
    ensures Sextet1(Octet1(x1, x2)) == x1
    ensures Sextet2(Octet1(x1, x2), Octet2(x2, x3)) == x2
    ensures Sextet3(Octet2(x2, x3), Octet3(x3, x4)) == x3
    ensures Sextet4(Octet3(x3, x4)) == x4
    ensures x2 & 15 == 0 ==> Sextet2(Octet1(x1, x2), 0) == x2
    ensures x3 & 3 == 0 ==> Sextet3(Octet2(x2, x3), 0) == x3
  {
  }

  lemma DecodeGroup3(a: bv8, b: bv8, c: bv8)
    ensures var g := Group3(a, b, c); DecodeGroup(g[0], g[1], g[2], g[3]) == Some([a, b, c])
  {
    SextetsJoin(a, b, c);
    SymbolReadsBack(Sextet1(a));
    SymbolReadsBack(Sextet2(a, b));
    SymbolReadsBack(Sextet3(b, c));
    SymbolReadsBack(Sextet4(c));
  }

  lemma DecodeGroup2(a: bv8, b: bv8)
    ensures var g := Group2(a, b); DecodeGroup(g[0], g[1], g[2], g[3]) == Some([a, b])
  {
    SextetsJoin(a, b, 0);
    SymbolReadsBack(Sextet1(a));
    SymbolReadsBack(Sextet2(a, b));
    SymbolReadsBack(Sextet3(b, 0));
  }

  lemma DecodeGroup1(a: bv8)
    ensures var g := Group1(a); DecodeGroup(g[0], g[1], g[2], g[3]) == Some([a])
  {
    SextetsJoin(a, 0, 0);
    SymbolReadsBack(Sextet1(a));
    SymbolReadsBack(Sextet2(a, 0));
  }

  lemma DecodeCons(g: string, group: Octets, rest: string)
    requires |g| == 4 && DecodeGroup(g[0], g[1], g[2], g[3]) == Some(group) && Decode(rest).Some?
    requires |group| == 3 || rest == ""
    ensures Decode(g + rest) == Some(group + Decode(rest).value)
  {
    assert (g + rest)[4..] == rest;
  }

  lemma DecodeShort(s: Octets)
    requires 1 <= |s| <= 3
    ensures |Encode(s)| == 4 && DecodeGroup(Encode(s)[0], Encode(s)[1], Encode(s)[2], Encode(s)[3]) == Some(s)
  {
    if |s| == 1 {
      DecodeGroup1(s[0]);
      assert s == [s[0]];
    } else if |s| == 2 {
      DecodeGroup2(s[0], s[1]);
      assert s == [s[0], s[1]];
    } else {
      DecodeGroup3(s[0], s[1], s[2]);
      assert s == [s[0], s[1], s[2]] && s[3..] == [];
    }
  }

  lemma {:induction false} DecodeEncoded(s: Octets)
    ensures Decode(Encode(s)) == Some(s)
  {
    if |s| == 0 {
    } else {
      var k := if |s| < 3 then |s| else 3;
      var group, rest := s[..k], s[k..];
      assert s == group + rest;
      DecodeShort(group);
      EncodeGroupThen(group, rest);
      DecodeEncoded(rest);
      DecodeCons(Encode(group), group, Encode(rest));
    }
  }

  /** One group of text is the encoding of what it decodes to. */
  lemma GroupDecoded(c1: char, c2: char, c3: char, c4: char)
    requires DecodeGroup(c1, c2, c3, c4).Some?
    ensures var s := DecodeGroup(c1, c2, c3, c4).value;
            1 <= |s| <= 3 && Encode(s) == [c1, c2, c3, c4]
  {
    var x1, x2 := SymbolValue(c1).value, SymbolValue(c2).value;
    if c3 == '=' && c4 == '=' {
      OctetsSplit(x1, x2, 0, 0);
    } else {
      var x3 := SymbolValue(c3).value;
      if c4 == '=' {
        OctetsSplit(x1, x2, x3, 0);
      } else {
        OctetsSplit(x1, x2, x3, SymbolValue(c4).value);
        var s := DecodeGroup(c1, c2, c3, c4).value;
        assert s[3..] == [];
      }
    }
  }

  lemma {:induction false} EncodeDecoded(t: string)
    requires Decode(t).Some?
    ensures Encode(Decode(t).value) == t
  {
    if t == "" {
    } else {
      EncodeDecoded(t[4..]);
      var group := FirstGroup(t);
      EncodeGroupThen(group, Decode(t[4..]).value);
      assert t == t[..4] + t[4..];
    }
  }

  lemma FirstGroup(t: string) returns (group: Octets)
    requires t != "" && Decode(t).Some?
    ensures |t| >= 4 && Decode(t[4..]).Some? && Decode(t).value == group + Decode(t[4..]).value
    ensures Encode(group) == t[..4]
    ensures |group| == 3 || (1 <= |group| <= 3 && Decode(t[4..]).value == [])
  {
    GroupDecoded(t[0], t[1], t[2], t[3]);
    group := DecodeGroup(t[0], t[1], t[2], t[3]).value;
    assert t[..4] == [t[0], t[1], t[2], t[3]];
  }

  lemma EncodeGroupThen(group: Octets, rest: Octets)
    requires |group| == 3 || (1 <= |group| <= 3 && rest == [])
    ensures Encode(group + rest) == Encode(group) + Encode(rest)
  {
    if |group| == 3 {
      assert group[3..] == [];
      assert (group + rest)[3..] == rest;
    } else {
      assert group + rest == group;
    }
  }

  /** Base64 text and octets correspond one to one: a text decodes to s exactly when it is the encoding of s. */
  lemma DecodeIffEncode(t: string, s: Octets)
    ensures Decode(t) == Some(s) <==> t == Encode(s)
  {
    DecodeEncoded(s);
    if Decode(t).Some? {
      EncodeDecoded(t);
    }
  }

  /** The number of "=" that n octets need. */
  function Missing(n: nat): (m: nat) ensures m < 3 && (n + m) % 3 == 0 { (3 - n % 3) % 3 }

  lemma GroupsHaveNoPadding(a: bv8, b: bv8, c: bv8)
    ensures forall i | 0 <= i < 2 :: Group1(a)[i] != '='
    ensures forall i | 0 <= i < 3 :: Group2(a, b)[i] != '='
    ensures forall i | 0 <= i < 4 :: Group3(a, b, c)[i] != '='
  {
    SymbolReadsBack(Sextet1(a));
    SymbolReadsBack(Sextet2(a, 0));
    SymbolReadsBack(Sextet2(a, b));
    SymbolReadsBack(Sextet3(b, 0));
    SymbolReadsBack(Sextet3(b, c));
    SymbolReadsBack(Sextet4(c));
  }

  /** Four symbols for every three octets begun, and as many "=" at the end as octets are missing. */
  ghost predicate Shaped(t: string, n: nat) {
    && |t| == 4 * ((n + 2) / 3)
    && forall i | 0 <= i < |t| :: t[i] == '=' <==> i >= |t| - Missing(n)
  }

  lemma {:induction false} EncodedShape(s: Octets)
    ensures Shaped(Encode(s), |s|)
  {
    if |s| == 1 {
      GroupsHaveNoPadding(s[0], 0, 0);
    } else if |s| == 2 {
      GroupsHaveNoPadding(s[0], s[1], 0);
    } else if |s| > 2 {
      EncodedShape(s[3..]);
      GroupsHaveNoPadding(s[0], s[1], s[2]);
      ShapeCons(Encode(s), Group3(s[0], s[1], s[2]), Encode(s[3..]), |s|);
    }
  }

  lemma ShapeCons(t: string, g: string, rest: string, n: nat)
    requires t == g + rest && |g| == 4 && n >= 3
    requires (forall i | 0 <= i < 4 :: g[i] != '=') && Shaped(rest, n - 3)
    ensures Shaped(t, n)
  {
    assert |t| == 4 + |rest| && Missing(n) == Missing(n - 3);
    forall i | 0 <= i < |t|
      ensures t[i] == '=' <==> i >= |t| - Missing(n)
    {
      assert t[i] == if i < 4 then g[i] else rest[i - 4];
    }
  }

  // ----- the credentials

  function Credentials(user: Octets, pass: Octets): Octets { user + ([COLON] + pass) }

  /** A server's reading of the token: everything before the first colon is the user. */
  function SplitAtColon(s: Octets): Option<(Octets, Octets)> {
    if s == [] then None
    else if s[0] == COLON then Some(([], s[1..]))
    else
      var rest := SplitAtColon(s[1..]);
      if rest.None? then None else Some(([s[0]] + rest.value.0, rest.value.1))
  }

  lemma {:induction false} SplitOf(user: Octets, pass: Octets)
    requires COLON !in user
    ensures SplitAtColon(Credentials(user, pass)) == Some((user, pass))
  {
    var s := Credentials(user, pass);
    if user == [] {
      assert s[1..] == pass;
    } else {
      assert s[1..] == Credentials(user[1..], pass);
      assert forall c <- user[1..] :: c in user;
      SplitOf(user[1..], pass);
      assert [user[0]] + user[1..] == user;
    }
  }

  lemma {:induction false} SplitUserHasNoColon(s: Octets)
    requires SplitAtColon(s).Some?
    ensures COLON !in SplitAtColon(s).value.0
  {
    if s[0] == COLON {
    } else {
      SplitUserHasNoColon(s[1..]);
    }
  }

  /** The token gives the server back user and password exactly when the user has no colon. */
  lemma ServerReadsCredentialsIff(user: Octets, pass: Octets)
    ensures var sent := Decode(Encode(Credentials(user, pass)));
            && sent == Some(Credentials(user, pass))
            && (SplitAtColon(sent.value) == Some((user, pass)) <==> COLON !in user)
  {
    DecodeEncoded(Credentials(user, pass));
    if COLON !in user {
      SplitOf(user, pass);
    } else if SplitAtColon(Credentials(user, pass)).Some? {
      SplitUserHasNoColon(Credentials(user, pass));
    }
  }

  // ----- the chain

  /** The octets a C string of 7-bit characters can hold. */
  predicate Plain(s: Octets) { forall c <- s :: 0 < c < 128 }

  function Flatten(parts: seq<Octets>): Octets {
    if parts == [] then [] else parts[0] + Flatten(parts[1..])
  }

  /** The array of string pointers that chain_next walks: each entry is what is left of its string. */
  class Chain {
    var auth: seq<Octets>
    var p: nat

    ghost predicate Valid() reads this {
      p <= |auth| && forall s <- auth :: Plain(s)
    }

    ghost function Rest(): Octets
      reads this
      requires Valid()
    {
      Flatten(auth[p..])
    }

    constructor (user: Octets, pass: Octets)
      requires Plain(user) && Plain(pass)
      ensures Valid() && Rest() == Credentials(user, pass) && p < |auth|
    {
      auth := [user, [COLON], pass];
      p := 0;
      new;
      assert Flatten([pass]) == pass;
      assert Flatten([[COLON], pass]) == [COLON] + pass by {
        assert [[COLON], pass][1..] == [pass];
      }
      assert auth[0..][1..] == [[COLON], pass];
    }

    /** chain_next: the next character of the concatenation, or 0 past its end. */
    method Next() returns (c: bv8)
      requires Valid()
      modifies this
      ensures Valid()
      ensures if old(Rest()) == [] then c == 0 && Rest() == [] && p == |auth|
              else c != 0 && old(Rest()) == [c] + Rest() && p < |auth|
    {
      while p < |auth| && auth[p] == []
        invariant Valid() && Rest() == old(Rest())
      {
        assert auth[p..][1..] == auth[p + 1..];
        p := p + 1;
      }
      if p == |auth| {
        return 0;
      }
      ghost var rest := Rest();
      c := auth[p][0];
      assert auth[p] in auth && c in auth[p];
      ghost var after := auth[p + 1..];
      assert auth[p..][1..] == after;
      assert auth[p] == [c] + auth[p][1..];
      assert rest == [c] + (auth[p][1..] + Flatten(after));
      PlainTail(auth[p]);
      var tail := auth[p][1..];
      auth := auth[p := tail];
      assert auth[p..][1..] == after;
    }
  }

  lemma PlainTail(s: Octets)
    requires Plain(s) && s != []
    ensures Plain(s[1..])
  {
    assert forall c <- s[1..] :: c in s;
  }

  // The three ways a round can go, for the octets still to come.

  lemma EncodeLast1(a: bv8)
    ensures Encode([a] + []) == Group1(a)
  {
    assert [a] + [] == [a];
  }

  lemma EncodeLast2(a: bv8, b: bv8)
    ensures Encode([a] + [b]) == Group2(a, b)
  {
    assert [a] + [b] == [a, b];
  }

  lemma EncodeNext3(a: bv8, b: bv8, c: bv8, rest: Octets)
    ensures Encode([a] + ([b] + ([c] + rest))) == Group3(a, b, c) + Encode(rest)
  {
    var s := [a] + ([b] + ([c] + rest));
    assert s == [a, b, c] + rest;
    assert s[3..] == rest && s[0] == a && s[1] == b && s[2] == c;
  }

  lemma FourWritten(token: array<char>, n: nat, g: string)
    requires n + 4 <= token.Length && |g| == 4 && forall k | 0 <= k < 4 :: token[n + k] == g[k]
    ensures token[n..n + 4] == g
  {
  }

  /** One round: reads up to two more characters and writes four symbols. */
  method WriteGroup(chain: Chain, a: bv8, token: array<char>, n: nat) returns (more: bool)
    requires chain.Valid() && n + 4 <= token.Length
    modifies chain, token
    ensures chain.Valid() && (more ==> |chain.Rest()| < |old(chain.Rest())|)
    ensures forall i | 0 <= i < token.Length && !(n <= i < n + 4) :: token[i] == old(token[i])
    ensures token[n..n + 4] + (if more then Encode(chain.Rest()) else "") == Encode([a] + old(chain.Rest()))
  {
    ghost var rest := chain.Rest();
    token[n] := Symbol(Sextet1(a));
    var b := chain.Next();
    token[n + 1] := Symbol(Sextet2(a, b));
    if b == 0 {
      token[n + 2] := '=';
      token[n + 3] := '=';
      EncodeLast1(a);
      FourWritten(token, n, Group1(a));
      return false;
    }
    more := WriteRest(chain, a, b, token, n);
  }

  /** The last two symbols of a round, for a third character or its absence. */
  method WriteLastTwo(b: bv8, c: bv8, token: array<char>, n: nat)
    requires n + 4 <= token.Length
    modifies token
    ensures token[n + 2] == Symbol(Sextet3(b, c)) && token[n + 3] == if c == 0 then '=' else Symbol(Sextet4(c))
    ensures forall i | 0 <= i < token.Length && i != n + 2 && i != n + 3 :: token[i] == old(token[i])
  {
    token[n + 2] := Symbol(Sextet3(b, c));
    if c == 0 {
      token[n + 3] := '=';
    } else {
      token[n + 3] := Symbol(Sextet4(c));
    }
  }

  /** The rest of a round whose second character is there. */
  method WriteRest(chain: Chain, a: bv8, b: bv8, token: array<char>, n: nat) returns (more: bool)
    requires chain.Valid() && n + 4 <= token.Length
    requires token[n] == Symbol(Sextet1(a)) && token[n + 1] == Symbol(Sextet2(a, b))
    modifies chain, token
    ensures chain.Valid() && (more ==> |chain.Rest()| < |old(chain.Rest())|)
    ensures forall i | 0 <= i < token.Length && !(n <= i < n + 4) :: token[i] == old(token[i])
    ensures token[n..n + 4] + (if more then Encode(chain.Rest()) else "") == Encode([a] + ([b] + old(chain.Rest())))
  {
    var c := chain.Next();
    WriteLastTwo(b, c, token, n);
    if c == 0 {
      assert [b] + [] == [b];
      EncodeLast2(a, b);
      FourWritten(token, n, Group2(a, b));
      return false;
    }
    EncodeNext3(a, b, c, chain.Rest());
    FourWritten(token, n, Group3(a, b, c));
    more := true;
  }

  lemma WrittenSoFar(done: string, group: string, left: string, before: string)
    requires before == group + left
    ensures done + before == (done + group) + left
  {
  }

  lemma RoomForGroup(s: Octets)
    requires s != []
    ensures |Encode(s)| >= 4
  {
    EncodedShape(s);
  }

  /** The body of the token loop.  `fits` is false when the program would write past the buffer. */
  method Round(chain: Chain, token: array<char>, n: nat, ghost all: string)
    returns (fits: bool, more: bool, n': nat)
    requires chain.Valid() && n <= token.Length && all == token[..n] + Encode(chain.Rest())
    modifies chain, token
    ensures chain.Valid() && n <= n' <= token.Length
    ensures forall i | n' <= i < token.Length :: token[i] == old(token[i])
    ensures if fits then all == token[..n'] + if more then Encode(chain.Rest()) else "" else |all| > token.Length
    ensures more ==> fits && |chain.Rest()| < |old(chain.Rest())|
  {
    ghost var before := Encode(chain.Rest());
    var a := chain.Next();
    if a == 0 {
      return true, false, n;
    }
    assert before == Encode([a] + chain.Rest());
    RoomForGroup([a] + chain.Rest());
    if n + 4 > token.Length {
      return false, false, n;
    }
    ghost var done := token[..n];
    more := WriteGroup(chain, a, token, n);
    n' := n + 4;
    ghost var left := if more then Encode(chain.Rest()) else "";
    WrittenSoFar(done, token[n..n'], left, before);
    assert token[..n'] == done + token[n..n'];
    fits := true;
  }

  /** A buffer after a text has been stored at its front, without a terminator. */
  function Stored(buffer: seq<char>, text: string): seq<char>
    requires |text| <= |buffer|
  {
    text + buffer[|text|..]
  }

  /** http_auth_token: stores the token at the front of the buffer.  `fits` is false when the buffer
      is too short; the program then writes past it, and nothing is said about the result. */
  method AuthToken(token: array<char>, user: Octets, pass: Octets) returns (fits: bool)
    requires Plain(user) && Plain(pass)
    modifies token
    ensures fits <==> |Encode(Credentials(user, pass))| <= token.Length
    ensures fits ==> token[..] == Stored(old(token[..]), Encode(Credentials(user, pass)))
  {
    ghost var all := Encode(Credentials(user, pass));
    ghost var before := token[..];
    var chain := new Chain(user, pass);
    var more, n := true, 0;
    while more && chain.p < |chain.auth|
      invariant fresh(chain) && chain.Valid() && n <= token.Length
      invariant all == token[..n] + if more then Encode(chain.Rest()) else ""
      invariant forall i | n <= i < token.Length :: token[i] == before[i]
      decreases more, |chain.Rest()|
    {
      fits, more, n := Round(chain, token, n, all);
      if !fits {
        return;
      }
    }
    assert token[..n] == all;
    assert token[..] == token[..n] + before[n..];
    fits := true;
  }
}
