/**
 The `auth` field of http_t over the life of a connection (http_connect in src/http.c): each connect
 stores a token over whatever the field held, and requests read the field as a C string.
 */
module HttpAuth {
  import opened Prelude
  import opened Strings
  import opened BasicAuth
  import ConnUrl
  import Decimals

  const MAX_STRING := ConnUrl.MAX_STRING

  const NUL: char := 0 as char

  /** The characters before the first NUL; None when there is none. */
  function CString(buffer: seq<char>): Option<string> {
    var k := FindChar(buffer, NUL);
    if k == |buffer| then None else Some(buffer[..k])
  }

  lemma CStringIs(buffer: seq<char>, k: nat)
    requires k < |buffer| && buffer[k] == NUL && forall i | 0 <= i < k :: buffer[i] != NUL
    ensures CString(buffer) == Some(buffer[..k])
  {
    FindCharIs(buffer, NUL, k);
  }

  lemma SymbolIsNotNul(x: bv8)
    requires x < 64
    ensures Symbol(x) != NUL
  {
    SmallIndex(x);
  }

  lemma GroupsHaveNoNul(a: bv8, b: bv8, c: bv8)
    ensures NUL !in Group1(a) && NUL !in Group2(a, b) && NUL !in Group3(a, b, c)
  {
    SymbolIsNotNul(Sextet1(a));
    SymbolIsNotNul(Sextet2(a, 0));
    SymbolIsNotNul(Sextet2(a, b));
    SymbolIsNotNul(Sextet3(b, 0));
    SymbolIsNotNul(Sextet3(b, c));
    SymbolIsNotNul(Sextet4(c));
  }

  lemma {:induction false} TokenHasNoNul(s: Octets)
    ensures NUL !in Encode(s)
  {
    if |s| == 0 {
    } else if |s| == 1 {
      GroupsHaveNoNul(s[0], 0, 0);
    } else if |s| == 2 {
      GroupsHaveNoNul(s[0], s[1], 0);
    } else {
      GroupsHaveNoNul(s[0], s[1], s[2]);
      TokenHasNoNul(s[3..]);
    }
  }

  // ----- one connect

  /** Read as a C string, the field is the token stored last exactly when a NUL stood behind it. */
  lemma StoredReadsBackIff(field: seq<char>, text: string)
    requires |text| < |field| && NUL !in text
    ensures CString(Stored(field, text)) == Some(text) <==> field[|text|] == NUL
  {
    var after := Stored(field, text);
    assert after[|text|] == field[|text|];
    assert forall i | 0 <= i < |text| :: after[i] == text[i] && text[i] in text;
    if field[|text|] == NUL {
      CStringIs(after, |text|);
    } else if CString(after) == Some(text) {
      assert after[|after[..|text|]|] != NUL;
    }
  }

  /** Token and terminator fit a field of MAX_STRING elements exactly for up to 764 characters. */
  lemma TokenFitsIff(user: Octets, pass: Octets)
    ensures |Encode(Credentials(user, pass))| < MAX_STRING <==> |user| + |pass| <= 764
  {
    EncodedShape(Credentials(user, pass));
  }

  function Letters(n: nat): string { seq(n, _ => 'a') }

  lemma LongLogin(isIpv6: ConnUrl.Ipv6Test, n: nat) returns (f: ConnUrl.Fields)
    requires 1 <= n <= 1000
    ensures ConnUrl.WellFormed(isIpv6, f) && |f.user| == n && f.pass == ""
    ensures |ConnUrl.Print(isIpv6, f)| < MAX_STRING
  {
    f := ConnUrl.Fields(ConnUrl.PROTO_HTTP, 80, Letters(n), "", "h", "/", "");
    assert f.user[0] == 'a';
    if n == 9 {
      assert f.user[1] == 'a' && ConnUrl.ANONYMOUS[1] == 'n';
    }
    assert |ConnUrl.IntText(80)| == 2 by {
      assert 80 / 10 == 8 && |Decimals.Decimal(8)| == 1;
    }
    LongLoginPrints(isIpv6, f);
  }

  lemma LongLoginPrints(isIpv6: ConnUrl.Ipv6Test, f: ConnUrl.Fields)
    requires |f.user| <= 1000 && f.pass == "" && f.host == "h" && f.dir == "/" && f.file == ""
    requires f.proto == ConnUrl.PROTO_HTTP && |ConnUrl.IntText(f.port)| == 2
    ensures |ConnUrl.Print(isIpv6, f)| < MAX_STRING
  {
    assert |ConnUrl.LoginText(f)| <= |f.user| + 2;
    assert |ConnUrl.HostText(isIpv6, f.host)| <= 3;
    assert |ConnUrl.Scheme(f.proto)| == 4;
    assert |ConnUrl.Authority(isIpv6, f)| <= 1008;
  }

  /** conn_set accepts logins that do not fit: a user of 765 to 1000 letters, for example. */
  lemma AcceptedLoginMayNotFit(isIpv6: ConnUrl.Ipv6Test, n: nat) returns (url: string, f: ConnUrl.Fields)
    requires 765 <= n <= 1000
    ensures ConnUrl.Parse(url) == Some(f) && |f.user| + |f.pass| == n > 764
  {
    f := LongLogin(isIpv6, n);
    url := ConnUrl.Print(isIpv6, f);
    ConnUrl.RoundTripIff(isIpv6, f);
  }

  // ----- any number of connects

  datatype Login = Login(user: Octets, pass: Octets)

  function Token(l: Login): string { Encode(Credentials(l.user, l.pass)) }

  /** What a request should carry: nothing without a user, else the token. */
  function Wanted(l: Login): string { if l.user == [] then "" else Token(l) }

  /** The field after http_connect. */
  function Connected(field: seq<char>, l: Login): seq<char>
    requires field != [] && |Wanted(l)| <= |field|
  {
    if l.user == [] then field[0 := NUL] else Stored(field, Token(l))
  }

  predicate Fit(ls: seq<Login>, size: nat) { forall l <- ls :: |Wanted(l)| < size }

  /** The field after a sequence of connects, from all zeros. */
  function Field(ls: seq<Login>, size: nat): (field: seq<char>)
    requires 0 < size && Fit(ls, size)
    ensures |field| == size
  {
    if ls == [] then seq(size, _ => NUL) else
    var last := ls[|ls| - 1];
    assert last in ls && forall l <- ls[..|ls| - 1] :: l in ls;
    Connected(Field(ls[..|ls| - 1], size), last)
  }

  /** How far the connects have written. */
  function Reach(ls: seq<Login>): nat {
    if ls == [] then 0 else
    var last := ls[|ls| - 1];
    Max(Reach(ls[..|ls| - 1]), |Wanted(last)|)
  }

  /** Past the first element the field is non-zero exactly as far as some token reached. */
  lemma {:induction false} FieldShape(ls: seq<Login>, size: nat)
    requires 0 < size && Fit(ls, size)
    ensures Reach(ls) < size
    ensures forall i | 1 <= i < size :: Field(ls, size)[i] == NUL <==> Reach(ls) <= i
  {
    if ls == [] {
    } else {
      var front, last := ls[..|ls| - 1], ls[|ls| - 1];
      assert last in ls && forall l <- front :: l in ls;
      FieldShape(front, size);
      TokenHasNoNul(Credentials(last.user, last.pass));
      ConnectedShape(Field(front, size), last, Reach(front));
    }
  }

  lemma ConnectedShape(before: seq<char>, last: Login, reach: nat)
    requires reach < |before| && |Wanted(last)| < |before| && NUL !in Wanted(last)
    requires forall i | 1 <= i < |before| :: before[i] == NUL <==> reach <= i
    ensures forall i | 1 <= i < |before| :: Connected(before, last)[i] == NUL <==> Max(reach, |Wanted(last)|) <= i
  {
    var after := Connected(before, last);
    forall i | 1 <= i < |before|
      ensures after[i] == NUL <==> Max(reach, |Wanted(last)|) <= i
    {
      assert after[i] == if i < |Wanted(last)| then Wanted(last)[i] else before[i];
    }
  }

  lemma {:induction false} ReachIs(ls: seq<Login>, n: nat)
    ensures Reach(ls) <= n <==> forall l <- ls :: |Wanted(l)| <= n
  {
    if ls == [] {
    } else {
      var front, last := ls[..|ls| - 1], ls[|ls| - 1];
      ReachIs(front, n);
      assert last in ls && forall l <- front :: l in ls;
      if |Wanted(last)| <= n && forall l <- front :: |Wanted(l)| <= n {
        assert forall l <- ls :: l in front || l == last;
      }
    }
  }

  /** The last request carries what it should exactly when no earlier token was longer than its own;
      otherwise the rest of a longer one trails behind.  A connect without user is always right. */
  lemma LastConnectIsRightIff(ls: seq<Login>, last: Login, size: nat)
    requires 0 < size && Fit(ls + [last], size)
    ensures CString(Field(ls + [last], size)) == Some(Wanted(last)) <==>
              last.user == [] || forall l <- ls :: |Wanted(l)| <= |Token(last)|
  {
    var all := ls + [last];
    assert all[..|ls|] == ls && last in all && forall l <- ls :: l in all;
    var before, after := Field(ls, size), Field(all, size);
    if last.user == [] {
      CStringIs(after, 0);
    } else {
      var t := Token(last);
      TokenHasNoNul(Credentials(last.user, last.pass));
      EncodedShape(Credentials(last.user, last.pass));
      FieldShape(ls, size);
      StoredReadsBackIff(before, t);
      ReachIs(ls, |t|);
    }
  }

  /** Two connects, the second with the shorter login: the request carries the wrong token. */
  lemma ShorterLoginIsWrong(first: Login, second: Login, size: nat)
    requires 0 < size && Fit([first, second], size) && first.user != [] && second.user != []
    requires |first.user| + |first.pass| >= |second.user| + |second.pass| + 3
    ensures CString(Field([first, second], size)) != Some(Token(second))
  {
    assert [first] + [second] == [first, second];
    LastConnectIsRightIff([first], second, size);
    EncodedShape(Credentials(first.user, first.pass));
    EncodedShape(Credentials(second.user, second.pass));
    assert first in [first];
  }

  // ----- the field itself

  class Http {
    var auth: array<char>

    constructor ()
      ensures fresh(auth) && auth.Length == MAX_STRING && auth[..] == seq(MAX_STRING, _ => NUL)
    {
      auth := new char[MAX_STRING](_ => NUL);
      new;
      assert auth[..] == seq(MAX_STRING, _ => NUL);
    }

    /** The part of http_connect that sets the field. */
    method Connect(user: Octets, pass: Octets) returns (fits: bool)
      requires Plain(user) && Plain(pass) && auth.Length == MAX_STRING
      modifies auth
      ensures fits <==> |Wanted(Login(user, pass))| <= MAX_STRING
      ensures fits ==> auth[..] == Connected(old(auth[..]), Login(user, pass))
    {
      if user == [] {
        auth[0] := NUL;
        return true;
      }
      fits := AuthToken(auth, user, pass);
    }
  }
}
