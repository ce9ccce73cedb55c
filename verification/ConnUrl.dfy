/**
 conn_set and conn_url of src/conn.c: taking a URL apart into the fields of a connection, and
 putting one together from them.  is_ipv6_addr (inet_pton) is a parameter.
 */
module ConnUrl {
  import opened Prelude
  import opened Strings
  import opened Decimals

  const MAX_STRING := 1024

  const PROTO_FTP := 0
  const PROTO_FTPS := 1
  const PROTO_HTTP := 2
  const PROTO_HTTPS := 3

  const ANONYMOUS := "anonymous"
  const ANONYMOUS_PASS := "mailto:flux@flux.project"

  datatype Fields = Fields(
    proto: int, port: int, user: string, pass: string, host: string, dir: string, file: string)

  type Ipv6Test = string -> bool

  predicate IsFtp(proto: int) { proto == PROTO_FTP || proto == PROTO_FTPS }

  // ----- printing

  /** scheme_from_proto. */
  function Scheme(proto: int): string {
    if proto == PROTO_FTP then "ftp"
    else if proto == PROTO_FTPS then "ftps"
    else if proto == PROTO_HTTPS then "https"
    else "http"
  }

  /** printf("%i", n). */
  function IntText(n: int): string { if n < 0 then "-" + Decimal(-n) else Decimal(n) }

  predicate PrintsLogin(f: Fields) { f.user != "" && f.user != ANONYMOUS }

  function LoginText(f: Fields): string {
    if PrintsLogin(f) then f.user + (":" + f.pass) + "@" else ""
  }

  function HostText(isIpv6: Ipv6Test, host: string): string {
    if isIpv6(host) then "[" + host + "]" else host
  }

  function Authority(isIpv6: Ipv6Test, f: Fields): string {
    LoginText(f) + (HostText(isIpv6, f.host) + (":" + IntText(f.port)))
  }

  /** What conn_url writes when its buffer is large enough. */
  function Print(isIpv6: Ipv6Test, f: Fields): string {
    Scheme(f.proto) + "://" + (Authority(isIpv6, f) + (f.dir + f.file))
  }

  // ----- parsing

  /** strlcpy into a MAX_STRING buffer. */
  function Trunc(s: string): string { if |s| < MAX_STRING then s else s[..MAX_STRING - 1] }

  /** The protocol a scheme selects: strncmp over the scheme's own length accepts every prefix. */
  function ProtoOf(scheme: string): Option<int> {
    if scheme <= "ftp" then Some(PROTO_FTP)
    else if scheme <= "http" then Some(PROTO_HTTP)
    else if scheme <= "ftps" then Some(PROTO_FTPS)
    else if scheme <= "https" then Some(PROTO_HTTPS)
    else None
  }

  function DefaultPort(proto: int): int {
    if proto == PROTO_FTP then 21 else if proto == PROTO_FTPS then 990
    else if proto == PROTO_HTTP then 80 else 443
  }

  /** The directory, from '/' to '/', and the file name with its query. */
  function SplitPath(path: string): (string, string)
    requires path != "" && path[0] == '/'
  {
    var q := FindChar(path, '?');
    assert path[..q] != "" ==> path[..q][0] == '/';
    var slash := LastChar(path[..q], '/');
    if slash.None? then ("/", Trunc(path))
    else (Trunc(path[..slash.value] + "/"), Trunc(path[slash.value + 1..]))
  }

  datatype Login = Login(user: string, pass: string, rest: string)

  /** What stands before the last '@' or the protocol's default, and what remains. */
  function CutLogin(proto: int, authority: string): Login {
    var at := LastChar(authority, '@');
    if at.Some? then Login(Trunc(authority[..at.value]), "", Trunc(authority[at.value + 1..]))
    else if IsFtp(proto) then Login(ANONYMOUS, ANONYMOUS_PASS, authority)
    else Login("", "", authority)
  }

  /** A colon in the user separates off the password. */
  function CutPass(l: Login): Login {
    var colon := FindChar(l.user, ':');
    if colon < |l.user| then Login(l.user[..colon], Trunc(l.user[colon + 1..]), l.rest) else l
  }

  function SplitLogin(proto: int, authority: string): Login { CutPass(CutLogin(proto, authority)) }

  function DigitValueIn(c: char, base: int): Option<int> {
    var v := if '0' <= c <= '9' then c as int - '0' as int
             else if 'a' <= c <= 'f' then c as int - 'a' as int + 10
             else if 'A' <= c <= 'F' then c as int - 'A' as int + 10
             else 16;
    if v < base then Some(v) else None
  }

  /** Reads digits of a base as long as there are some. */
  function ReadDigits(s: string, base: int, acc: int): int {
    if s == "" || DigitValueIn(s[0], base).None? then acc
    else ReadDigits(s[1..], base, acc * base + DigitValueIn(s[0], base).value)
  }

  /** sscanf("%i"): decimal, 0x hexadecimal or 0 octal; None when there is no number. */
  function ScanInt(s: string): Option<int> {
    var t := SkipSpace(s);
    var negative := t != "" && t[0] == '-';
    var u := if t != "" && (t[0] == '-' || t[0] == '+') then t[1..] else t;
    if u == "" || !IsDigit(u[0]) then None else
    var v := if u[0] != '0' then ReadDigits(u, 10, 0)
             else if |u| >= 2 && (u[1] == 'x' || u[1] == 'X') then ReadDigits(u[2..], 16, 0)
             else ReadDigits(u, 8, 0);
    Some(if negative then -v else v)
  }

  /** Host and what follows it; None when a bracket is not closed. */
  function SplitHost(text: string): Option<(string, string)> {
    if text != "" && text[0] == '[' then
      var body := Trunc(text[1..]);
      var end := LastChar(body, ']');
      if end.None? then None else Some((body[..end.value], body[end.value + 1..]))
    else
      var body := Trunc(text);
      var end := FindChar(body, ':');
      Some((body[..end], body[end..]))
  }

  /** The port after the host; sscanf leaves the default in place when it finds no number. */
  function PortOf(rest: string, default: int): int {
    if rest != "" && rest[0] == ':' && ScanInt(rest[1..]).Some? then ScanInt(rest[1..]).value else default
  }

  /** The path of a URL without its scheme, "/" when there is none. */
  function PathOf(url: string): string {
    var slash := FindChar(url, '/');
    if slash == |url| then "/" else Trunc("/" + url[slash + 1..])
  }

  /** The part after the scheme, for a protocol already chosen. */
  function ParseRest(proto: int, port: int, url: string): Option<Fields> {
    var (dir, file) := SplitPath(PathOf(url));
    Assembled(proto, port, SplitLogin(proto, url[..FindChar(url, '/')]), dir, file)
  }

  /** The fields, once login and path are split off; None without a positive port. */
  function Assembled(proto: int, port: int, login: Login, dir: string, file: string): Option<Fields> {
    var cut := SplitHost(login.rest);
    if cut.None? then None else
    var p := PortOf(cut.value.1, port);
    if p <= 0 then None else Some(Fields(proto, p, login.user, login.pass, cut.value.0, dir, file))
  }

  /** What conn_set leaves in the connection, or None when it returns 0. */
  function Parse(url: string): Option<Fields> {
    var sep := Find(url, "://");
    if sep == |url| then ParseRest(PROTO_HTTP, 80, Trunc(url))
    else
      var proto := ProtoOf(url[..sep]);
      if proto.None? then None
      else ParseRest(proto.value, DefaultPort(proto.value), Trunc(url[sep + 3..]))
  }

  /** A URL without a scheme is an http URL. */
  lemma NoSchemeIsHttp(url: string)
    requires Find(url, "://") == |url|
    ensures Parse(url) == Parse("http://" + url)
  {
    HttpIsFound("http://" + url, url);
    HttpIsProto();
    SchemeIsCut("http://" + url, "http", url);
    NoSchemeIsCut(url);
  }

  lemma HttpIsProto()
    ensures ProtoOf("http") == Some(PROTO_HTTP) && DefaultPort(PROTO_HTTP) == 80
  {
  }

  lemma NoSchemeIsCut(url: string)
    requires Find(url, "://") == |url|
    ensures Parse(url) == ParseRest(PROTO_HTTP, 80, Trunc(url))
  {
  }

  lemma HttpIsFound(full: string, url: string)
    requires full == "http://" + url
    ensures Find(full, "://") == 4 && full[..4] == "http" && full[7..] == url
  {
    assert full[4..7] == "://";
    assert At(full, "://", 4);
    var k := Find(full, "://");
    assert full[k..k + 3][0] == full[k];
  }

  lemma SchemeIsCut(full: string, scheme: string, url: string)
    requires Find(full, "://") == |scheme| && |scheme| + 3 <= |full|
    requires full[..|scheme|] == scheme && full[|scheme| + 3..] == url
    ensures Parse(full) == var proto := ProtoOf(scheme);
              if proto.None? then None else ParseRest(proto.value, DefaultPort(proto.value), Trunc(url))
  {
  }

  // ----- what conn_set leaves behind

  /** The fields once login and path are split off, whether they are accepted or not. */
  function Remains(proto: int, port: int, login: Login, dir: string, file: string): Fields {
    var cut := SplitHost(login.rest);
    if cut.Some? then Fields(proto, PortOf(cut.value.1, port), login.user, login.pass, cut.value.0, dir, file)
    else Fields(proto, port, login.user, login.pass, if login.rest == "" then "" else Trunc(login.rest[1..]), dir, file)
  }

  function RemainsOf(proto: int, port: int, url: string): Fields {
    var (dir, file) := SplitPath(PathOf(url));
    Remains(proto, port, SplitLogin(proto, url[..FindChar(url, '/')]), dir, file)
  }

  /** The connection after conn_set: untouched for an unsupported protocol, else overwritten. */
  function AfterSet(before: Fields, url: string): Fields {
    var sep := Find(url, "://");
    if sep == |url| then RemainsOf(PROTO_HTTP, 80, Trunc(url))
    else
      var proto := ProtoOf(url[..sep]);
      if proto.None? then before else RemainsOf(proto.value, DefaultPort(proto.value), Trunc(url[sep + 3..]))
  }

  lemma RemainsWhenAssembled(proto: int, port: int, login: Login, dir: string, file: string)
    ensures var f := Assembled(proto, port, login, dir, file);
            f.Some? ==> f.value == Remains(proto, port, login, dir, file)
  {
  }

  lemma RemainsWhenParsed(proto: int, port: int, url: string)
    ensures var f := ParseRest(proto, port, url); f.Some? ==> f.value == RemainsOf(proto, port, url)
  {
    var (dir, file) := SplitPath(PathOf(url));
    RemainsWhenAssembled(proto, port, SplitLogin(proto, url[..FindChar(url, '/')]), dir, file);
  }

  /** When conn_set succeeds, what it leaves behind is what it has read. */
  lemma AfterSetWhenParsed(before: Fields, url: string)
    ensures var f := Parse(url); f.Some? ==> f.value == AfterSet(before, url)
  {
    var sep := Find(url, "://");
    if sep == |url| {
      RemainsWhenParsed(PROTO_HTTP, 80, Trunc(url));
    } else if ProtoOf(url[..sep]).Some? {
      var proto := ProtoOf(url[..sep]).value;
      RemainsWhenParsed(proto, DefaultPort(proto), Trunc(url[sep + 3..]));
    }
  }

  // ----- what conn_set can produce

  predicate DirOk(dir: string) {
    dir != "" && dir[0] == '/' && dir[|dir| - 1] == '/' && '?' !in dir
  }

  predicate FileOk(file: string) { '/' !in file[..FindChar(file, '?')] }

  predicate SlashFree(f: Fields) { '/' !in f.host && '/' !in f.user && '/' !in f.pass }

  predicate ProtoOk(proto: int) { PROTO_FTP <= proto <= PROTO_HTTPS }

  predicate Producible(f: Fields) {
    ProtoOk(f.proto) && f.port > 0 && SlashFree(f) && '@' !in f.host && DirOk(f.dir) && FileOk(f.file)
  }

  lemma SplitPathOk(path: string)
    requires path != "" && path[0] == '/' && |path| < MAX_STRING
    ensures var (dir, file) := SplitPath(path); DirOk(dir) && FileOk(file)
  {
    var q := FindChar(path, '?');
    var head := path[..q];
    assert head[0] == path[0];
    assert head[0] in head;
    var k := LastChar(head, '/').value;
    HeadIsDir(head, k);
    var file := path[k + 1..];
    assert '/' !in head[k + 1..];
    assert file[..q - k - 1] == head[k + 1..];
    FindCharIs(file, '?', q - k - 1);
  }

  lemma HeadIsDir(head: string, k: nat)
    requires head != "" && head[0] == '/' && '?' !in head && k < |head| && head[k] == '/'
    ensures DirOk(head[..k] + "/") && head[..k] == (head[..k] + "/")[..k]
  {
    assert forall c <- head[..k] :: c in head;
  }

  predicate LoginSlashFree(l: Login) {
    '/' !in l.user && '/' !in l.pass && '/' !in l.rest && '@' !in l.rest
  }

  lemma CutLoginOk(proto: int, authority: string)
    requires '/' !in authority
    ensures LoginSlashFree(CutLogin(proto, authority))
  {
    var at := LastChar(authority, '@');
    if at.Some? {
      assert '/' !in authority[..at.value] && '/' !in authority[at.value + 1..];
    }
    assert '/' !in ANONYMOUS && '/' !in ANONYMOUS_PASS;
  }

  lemma CutPassOk(l: Login)
    requires LoginSlashFree(l)
    ensures LoginSlashFree(CutPass(l))
  {
    var colon := FindChar(l.user, ':');
    if colon < |l.user| {
      assert '/' !in l.user[..colon] && '/' !in l.user[colon + 1..];
    }
  }

  lemma SplitHostOk(text: string)
    ensures var cut := SplitHost(text); cut.Some? ==> forall c <- cut.value.0 :: c in text
  {
  }

  lemma ParseIsProducible(url: string)
    ensures var f := Parse(url); f.Some? ==> Producible(f.value)
  {
    var sep := Find(url, "://");
    if sep == |url| {
      ParseRestIsProducible(PROTO_HTTP, 80, Trunc(url));
    } else if ProtoOf(url[..sep]).Some? {
      var proto := ProtoOf(url[..sep]).value;
      ParseRestIsProducible(proto, DefaultPort(proto), Trunc(url[sep + 3..]));
    }
  }

  lemma ParseRestIsProducible(proto: int, port: int, url: string)
    requires ProtoOk(proto) && |url| < MAX_STRING
    ensures var f := ParseRest(proto, port, url); f.Some? ==> Producible(f.value)
  {
    SplitPathOk(PathOf(url));
    var authority := url[..FindChar(url, '/')];
    CutLoginOk(proto, authority);
    CutPassOk(CutLogin(proto, authority));
    var rest := SplitLogin(proto, authority).rest;
    SplitHostOk(rest);
    assert SplitHost(rest).Some? ==> '/' !in SplitHost(rest).value.0 && '@' !in SplitHost(rest).value.0;
  }

  // ----- parsing what was printed

  lemma ProtoOfScheme(proto: int)
    requires ProtoOk(proto)
    ensures ProtoOf(Scheme(proto)) == Some(proto)
    ensures ':' !in Scheme(proto)
  {
    assert "http"[0] != "ftp"[0] && |"ftps"| > |"ftp"| && |"https"| > |"http"|;
    assert !("ftps" <= "http") && !("https" <= "ftp") && !("https" <= "ftps");
  }

  lemma SchemeIsFound(s: string, rest: string)
    requires ':' !in s
    ensures var u := s + "://" + rest;
            Find(u, "://") == |s| && |s| < |u| && u[..|s|] == s && u[|s| + 3..] == rest
  {
    var u := s + "://" + rest;
    assert At(u, "://", |s|);
    forall j: nat | j < |s|
      ensures !At(u, "://", j)
    {
      assert u[j] == s[j] != ':';
      if j + 3 <= |u| {
        assert u[j..j + 3][0] == u[j];
      }
    }
  }

  lemma PathComesApart(dir: string, file: string)
    requires DirOk(dir) && FileOk(file) && |dir + file| < MAX_STRING
    ensures SplitPath(dir + file) == (dir, file)
  {
    var path := dir + file;
    var qf := FindChar(file, '?');
    var q := |dir| + qf;
    assert path[..q] == dir + file[..qf];
    FindCharIs(path, '?', q);
    var k := |dir| - 1;
    assert path[..q][k + 1..] == file[..qf];
    LastCharIs(path[..q], '/', k);
    assert path[..k] + "/" == dir;
    assert path[k + 1..] == file;
  }

  /** The first colon of user + ":" + pass. */
  lemma UserComesApart(user: string, pass: string)
    ensures var up := user + (":" + pass);
            var k := FindChar(user, ':');
            && FindChar(up, ':') == k < |up| && up[..k] == user[..k]
            && (k == |user| ==> up[..k] == user && up[k + 1..] == pass)
            && (k == |user| <==> ':' !in user)
  {
    var up := user + (":" + pass);
    var k := FindChar(user, ':');
    if k == |user| {
      assert user[..k] == user;
      FindCharAfter(user, ":" + pass, ':');
      assert up[k + 1..] == up[k..][1..] == pass;
    } else {
      assert up[..k] == user[..k];
      FindCharIs(up, ':', k);
    }
  }

  lemma PrintedLoginComesApart(proto: int, up: string, tail: string)
    requires '@' !in tail && |up + ("@" + tail)| < MAX_STRING
    ensures CutLogin(proto, up + ("@" + tail)) == Login(up, "", tail)
  {
    assert ("@" + tail)[1..] == tail;
    LastCharBefore(up, "@" + tail, '@');
  }

  lemma DefaultLogin(proto: int, tail: string)
    requires '@' !in tail && |tail| < MAX_STRING
    ensures SplitLogin(proto, tail) ==
              if IsFtp(proto) then Login(ANONYMOUS, ANONYMOUS_PASS, tail) else Login("", "", tail)
  {
    assert ':' !in ANONYMOUS;
  }

  lemma {:induction false} ReadDigitsIsValue(s: string, t: string)
    requires AllDigits(s) && AllDigits(t)
    ensures AllDigits(s + t)
    ensures ReadDigits(t, 10, Value(s)) == Value(s + t)
    decreases |t|
  {
    if t == "" {
      assert s + t == s;
    } else {
      var s' := s + [t[0]];
      assert t[0] in t;
      assert forall c <- t[1..] :: c in t;
      assert s'[..|s'| - 1] == s;
      assert s + t == s' + t[1..];
      ReadDigitsIsValue(s', t[1..]);
    }
  }

  lemma PortReadsBack(port: int)
    requires port > 0
    ensures ScanInt(IntText(port)) == Some(port)
  {
    var d := Decimal(port);
    assert d[0] in d && IsDigit(d[0]);
    assert d[0] != '0' by {
      if |d| == 1 {
        assert d[..0] == "";
      }
    }
    assert SkipSpace(d) == d;
    ReadDigitsIsValue("", d);
    assert "" + d == d;
    assert ReadDigits(d, 10, 0) == port;
  }

  predicate HostOk(isIpv6: Ipv6Test, host: string) {
    isIpv6(host) || (':' !in host && (host == "" || host[0] != '['))
  }

  lemma DigitsOnly(port: int)
    requires port > 0
    ensures ']' !in IntText(port) && '/' !in IntText(port) && '@' !in IntText(port) && ':' !in IntText(port)
  {
    var d := Decimal(port);
    assert forall c <- d :: IsDigit(c);
  }

  /** The host comes back exactly when it is an IPv6 literal or cannot be taken for one or cut. */
  lemma HostComesApart(isIpv6: Ipv6Test, host: string, rest: string)
    requires |HostText(isIpv6, host) + rest| < MAX_STRING
    requires rest != "" && rest[0] == ':' && ']' !in rest
    ensures var cut := SplitHost(HostText(isIpv6, host) + rest);
            && (cut.Some? && cut.value.0 == host <==> HostOk(isIpv6, host))
            && (HostOk(isIpv6, host) ==> cut.value.1 == rest)
  {
    if isIpv6(host) {
      BracketedHost(host, rest);
    } else if host != "" && host[0] == '[' {
      BracketCut(host, (host + rest)[1..], rest);
    } else {
      ColonCut(host, rest);
    }
  }

  lemma BracketedHost(host: string, rest: string)
    requires |"[" + host + "]" + rest| < MAX_STRING && ']' !in rest
    ensures SplitHost("[" + host + "]" + rest) == Some((host, rest))
  {
    var text := "[" + host + "]" + rest;
    assert text == "[" + (host + ("]" + rest));
    assert text[1..] == host + ("]" + rest);
    assert ("]" + rest)[1..] == rest;
    LastCharBefore(host, "]" + rest, ']');
  }

  lemma ColonCut(host: string, rest: string)
    requires rest != "" && rest[0] == ':'
    ensures var text := host + rest;
            var k := FindChar(text, ':');
            if ':' in host then |text[..k]| < |host| else text[..k] == host && text[k..] == rest
  {
    if ':' in host {
      var k := FindChar(host, ':');
      assert host[..|host|] == host;
      assert (host + rest)[..k] == host[..k];
      FindCharIs(host + rest, ':', k);
    } else {
      FindCharAfter(host, rest, ':');
    }
  }

  /** An unbracketed host that starts with a bracket comes back shorter, if at all. */
  lemma BracketCut(host: string, body: string, rest: string)
    requires host != "" && body == (host + rest)[1..] && ']' !in rest
    ensures var end := LastChar(body, ']'); end.Some? ==> end.value < |host| - 1
  {
    var end := LastChar(body, ']');
    assert forall i | |host| - 1 <= i < |body| :: body[i] == rest[i - (|host| - 1)];
  }

  function Tail(isIpv6: Ipv6Test, f: Fields): string { HostText(isIpv6, f.host) + (":" + IntText(f.port)) }

  /** The authority and the path come apart again. */
  lemma UrlComesApart(authority: string, dir: string, file: string)
    requires '/' !in authority && DirOk(dir) && FileOk(file) && |dir + file| < MAX_STRING
    ensures var url := authority + (dir + file);
            && url[..FindChar(url, '/')] == authority
            && SplitPath(PathOf(url)) == (dir, file)
  {
    var path := dir + file;
    var url := authority + path;
    FindCharAfter(authority, path, '/');
    assert url[|authority| + 1..] == path[1..];
    assert "/" + path[1..] == path;
    PathComesApart(dir, file);
  }

  /** Everything but host and login comes back unchanged. */
  lemma PrintedComesApart(isIpv6: Ipv6Test, f: Fields)
    requires Producible(f) && |Print(isIpv6, f)| < MAX_STRING
    ensures Parse(Print(isIpv6, f)) ==
              Assembled(f.proto, DefaultPort(f.proto), SplitLogin(f.proto, LoginText(f) + Tail(isIpv6, f)),
                        f.dir, f.file)
  {
    var a := Authority(isIpv6, f);
    DigitsOnly(f.port);
    assert '/' !in a;
    ProtoOfScheme(f.proto);
    ParseAfterScheme(Scheme(f.proto), f.proto, a + (f.dir + f.file));
    ParseAuthority(f.proto, DefaultPort(f.proto), a, f.dir, f.file);
  }

  lemma ParseAfterScheme(scheme: string, proto: int, url: string)
    requires ':' !in scheme && ProtoOf(scheme) == Some(proto) && |url| < MAX_STRING
    ensures Parse(scheme + "://" + url) == ParseRest(proto, DefaultPort(proto), url)
  {
    SchemeIsFound(scheme, url);
  }

  lemma ParseAuthority(proto: int, port: int, authority: string, dir: string, file: string)
    requires '/' !in authority && DirOk(dir) && FileOk(file) && |dir + file| < MAX_STRING
    ensures ParseRest(proto, port, authority + (dir + file)) ==
              Assembled(proto, port, SplitLogin(proto, authority), dir, file)
  {
    UrlComesApart(authority, dir, file);
  }

  /** The login is one conn_url can express: not printed and the protocol's default, or printed with
      no colon in the user name. */
  predicate LoginOk(f: Fields) {
    if PrintsLogin(f) then ':' !in f.user
    else if IsFtp(f.proto) then f.user == ANONYMOUS && f.pass == ANONYMOUS_PASS
    else f.user == "" && f.pass == ""
  }

  predicate WellFormed(isIpv6: Ipv6Test, f: Fields) {
    Producible(f) && LoginOk(f) && HostOk(isIpv6, f.host)
  }

  /** conn_set undoes conn_url exactly on the well-formed connections. */
  lemma RoundTripIff(isIpv6: Ipv6Test, f: Fields)
    requires |Print(isIpv6, f)| < MAX_STRING
    ensures Parse(Print(isIpv6, f)) == Some(f) <==> WellFormed(isIpv6, f)
  {
    if Producible(f) {
      ProducibleRoundTrip(isIpv6, f);
    } else {
      ParseIsProducible(Print(isIpv6, f));
    }
  }

  lemma ProducibleRoundTrip(isIpv6: Ipv6Test, f: Fields)
    requires Producible(f) && |Print(isIpv6, f)| < MAX_STRING
    ensures Parse(Print(isIpv6, f)) == Some(f) <==> LoginOk(f) && HostOk(isIpv6, f.host)
  {
    var tail := Tail(isIpv6, f);
    assert '@' !in tail by { DigitsOnly(f.port); }
    PrintedComesApart(isIpv6, f);
    LoginBackIff(f, tail);
    TailBackIff(isIpv6, f);
    AssembledIff(f, SplitLogin(f.proto, LoginText(f) + tail), LoginOk(f), HostOk(isIpv6, f.host));
  }

  /** Host and port of what was printed. */
  lemma TailBackIff(isIpv6: Ipv6Test, f: Fields)
    requires f.port > 0 && |Tail(isIpv6, f)| < MAX_STRING
    ensures var cut := SplitHost(Tail(isIpv6, f));
            && (cut.Some? && cut.value.0 == f.host <==> HostOk(isIpv6, f.host))
            && (HostOk(isIpv6, f.host) ==> PortOf(cut.value.1, DefaultPort(f.proto)) == f.port)
  {
    var portText := ":" + IntText(f.port);
    assert ']' !in portText by { DigitsOnly(f.port); }
    HostComesApart(isIpv6, f.host, portText);
    PortReadsBack(f.port);
    assert portText[1..] == IntText(f.port);
  }

  lemma AssembledIff(f: Fields, login: Login, loginOk: bool, hostOk: bool)
    requires f.port > 0 && (login.user == f.user && login.pass == f.pass <==> loginOk)
    requires var cut := SplitHost(login.rest);
             && (cut.Some? && cut.value.0 == f.host <==> hostOk)
             && (hostOk ==> PortOf(cut.value.1, DefaultPort(f.proto)) == f.port)
    ensures Assembled(f.proto, DefaultPort(f.proto), login, f.dir, f.file) == Some(f) <==> loginOk && hostOk
  {
  }

  lemma LoginBackIff(f: Fields, tail: string)
    requires '@' !in tail && |LoginText(f) + tail| < MAX_STRING
    ensures var l := SplitLogin(f.proto, LoginText(f) + tail);
            && l.rest == tail
            && (l.user == f.user && l.pass == f.pass <==> LoginOk(f))
  {
    if PrintsLogin(f) {
      var up := f.user + (":" + f.pass);
      assert LoginText(f) + tail == up + ("@" + tail);
      PrintedLoginComesApart(f.proto, up, tail);
      UserComesApart(f.user, f.pass);
    } else {
      assert LoginText(f) + tail == tail;
      DefaultLogin(f.proto, tail);
    }
  }

  // ----- what a short URL leaves out

  predicate PlainHost(host: string) {
    '/' !in host && '@' !in host && ':' !in host && (host == "" || host[0] != '[') && |host| < MAX_STRING
  }

  function DefaultUser(proto: int): string { if IsFtp(proto) then ANONYMOUS else "" }

  function DefaultPass(proto: int): string { if IsFtp(proto) then ANONYMOUS_PASS else "" }

  lemma PlainHostIsKept(proto: int, host: string)
    requires PlainHost(host)
    ensures SplitLogin(proto, host) == Login(DefaultUser(proto), DefaultPass(proto), host)
    ensures SplitHost(host) == Some((host, ""))
  {
    DefaultLogin(proto, host);
    FindCharIs(host, ':', |host|);
    assert host[..|host|] == host && host[|host|..] == "";
  }

  /** Without login and port a URL gets those of its protocol. */
  lemma DefaultsAreFilledIn(proto: int, host: string, dir: string, file: string)
    requires ProtoOk(proto) && PlainHost(host) && DirOk(dir) && FileOk(file)
    requires |host + (dir + file)| < MAX_STRING
    ensures Parse(Scheme(proto) + "://" + (host + (dir + file))) ==
              Some(Fields(proto, DefaultPort(proto), DefaultUser(proto), DefaultPass(proto), host, dir, file))
  {
    ProtoOfScheme(proto);
    ParseAfterScheme(Scheme(proto), proto, host + (dir + file));
    DefaultsInRest(proto, DefaultPort(proto), host, dir, file);
  }

  lemma DefaultsInRest(proto: int, port: int, host: string, dir: string, file: string)
    requires PlainHost(host) && DirOk(dir) && FileOk(file) && |dir + file| < MAX_STRING && port > 0
    ensures ParseRest(proto, port, host + (dir + file)) ==
              Some(Fields(proto, port, DefaultUser(proto), DefaultPass(proto), host, dir, file))
  {
    PlainHostIsKept(proto, host);
    ParseAuthority(proto, port, host, dir, file);
    PlainHostAssembles(proto, port, Login(DefaultUser(proto), DefaultPass(proto), host), dir, file);
  }

  lemma PlainHostAssembles(proto: int, port: int, login: Login, dir: string, file: string)
    requires SplitHost(login.rest) == Some((login.rest, "")) && port > 0
    ensures Assembled(proto, port, login, dir, file) ==
              Some(Fields(proto, port, login.user, login.pass, login.rest, dir, file))
  {
  }

  /** Without a path it names the root directory. */
  lemma BareHostIsRoot(proto: int, host: string)
    requires ProtoOk(proto) && PlainHost(host)
    ensures Parse(Scheme(proto) + "://" + host) ==
              Some(Fields(proto, DefaultPort(proto), DefaultUser(proto), DefaultPass(proto), host, "/", ""))
  {
    ProtoOfScheme(proto);
    ParseAfterScheme(Scheme(proto), proto, host);
    RootOfHost(proto, DefaultPort(proto), host);
  }

  lemma RootOfHost(proto: int, port: int, host: string)
    requires PlainHost(host) && port > 0
    ensures ParseRest(proto, port, host) ==
              Some(Fields(proto, port, DefaultUser(proto), DefaultPass(proto), host, "/", ""))
  {
    FindCharIs(host, '/', |host|);
    assert host[..|host|] == host;
    assert SplitPath("/") == ("/", "") by {
      assert "/" + "" == "/";
      PathComesApart("/", "");
    }
    PlainHostIsKept(proto, host);
    PlainHostAssembles(proto, port, Login(DefaultUser(proto), DefaultPass(proto), host), "/", "");
  }

  // ----- the steps of conn_set

  /** The part of conn_set that computes dir and file from the path. */
  method CutPath(path: string) returns (dir: string, file: string)
    requires path != "" && path[0] == '/'
    ensures (dir, file) == SplitPath(path)
  {
    var j := FindChar(path, '?');
    var slash := LastChar(path[..j], '/');
    if slash.None? {
      file := Trunc(path);
      dir := "/";
    } else {
      file := Trunc(path[slash.value + 1..]);
      dir := Trunc(path[..slash.value] + "/");
    }
  }

  /** The part that computes user and password; `rest` is host and port. */
  method CutUser(proto: int, authority: string) returns (user: string, pass: string, rest: string)
    ensures Login(user, pass, rest) == SplitLogin(proto, authority)
  {
    var at := LastChar(authority, '@');
    rest := authority;
    if at.Some? {
      user := Trunc(authority[..at.value]);
      rest := Trunc(authority[at.value + 1..]);
      pass := "";
    } else if IsFtp(proto) {
      user, pass := ANONYMOUS, ANONYMOUS_PASS;
    } else {
      user, pass := "", "";
    }
    var colon := FindChar(user, ':');
    if colon < |user| {
      pass := Trunc(user[colon + 1..]);
      user := user[..colon];
    }
  }

  /** The part that computes host and port.  A bracket that is not closed leaves the host open. */
  method CutHost(text: string, default: int) returns (ok: bool, host: string, port: int)
    ensures var cut := SplitHost(text);
            if ok then cut.Some? && host == cut.value.0 && port == PortOf(cut.value.1, default)
            else cut.None? && text != "" && host == Trunc(text[1..]) && port == default
  {
    var rest;
    port := default;
    if text != "" && text[0] == '[' {
      host := Trunc(text[1..]);
      var end := LastChar(host, ']');
      if end.None? {
        return false, host, port;
      }
      rest := host[end.value + 1..];
      host := host[..end.value];
    } else {
      host := Trunc(text);
      var i := 0;
      while i < |host| && host[i] != ':'
        invariant 0 <= i <= |host| && ':' !in host[..i]
      {
        i := i + 1;
      }
      FindCharIs(host, ':', i);
      rest := host[i..];
      host := host[..i];
    }
    if rest != "" && rest[0] == ':' {
      var scanned := ScanInt(rest[1..]);
      if scanned.Some? {
        port := scanned.value;
      }
    }
    ok := true;
  }

  /** Host and port after the login has been split off. */
  method CutTail(proto: int, default: int, login: Login, dir: string, file: string) returns (ok: bool, f: Fields)
    ensures f == Remains(proto, default, login, dir, file)
    ensures ok <==> Assembled(proto, default, login, dir, file).Some?
  {
    var host, port;
    ok, host, port := CutHost(login.rest, default);
    f := Fields(proto, port, login.user, login.pass, host, dir, file);
    ok := ok && port > 0;
  }

  /** All of conn_set after the choice of the protocol. */
  method CutRest(proto: int, default: int, url: string) returns (ok: bool, f: Fields)
    ensures f == RemainsOf(proto, default, url)
    ensures ok <==> ParseRest(proto, default, url).Some?
  {
    var i := FindChar(url, '/');
    var path := if i == |url| then "/" else Trunc("/" + url[i + 1..]);
    assert path == PathOf(url);
    var dir, file := CutPath(path);
    var user, pass, rest := CutUser(proto, url[..i]);
    ok, f := CutTail(proto, default, Login(user, pass, rest), dir, file);
  }

  /** All of conn_set: the protocol first. */
  method CutUrl(before: Fields, setUrl: string) returns (ok: bool, f: Fields)
    ensures f == AfterSet(before, setUrl)
    ensures ok <==> Parse(setUrl).Some?
  {
    var i := Find(setUrl, "://");
    if i == |setUrl| {
      ok, f := CutRest(PROTO_HTTP, 80, Trunc(setUrl));
    } else {
      var p := ProtoOf(setUrl[..i]);
      if p.None? {
        return false, before;
      }
      ok, f := CutRest(p.value, DefaultPort(p.value), Trunc(setUrl[i + 3..]));
    }
  }

  // ----- printing into a buffer

  /** What conn_url makes of a buffer: a text with the returned number, -1 at once, or a write behind
      the end of the buffer, after which nothing is defined. */
  datatype Printed = Text(dst: string, rc: int) | TooShort | Beyond

  /** What a buffer of this length holds of a text, its NUL not counted. */
  function FitTo(s: string, len: nat): string
    requires 1 <= len
  {
    if |s| < len then s else s[..len - 1]
  }

  /** What snprintf adds when `room` bytes are left. */
  function Fitting(s: string, room: nat): string { if room == 0 then "" else FitTo(s, room) }

  lemma FitConcat(a: string, b: string, len: nat)
    requires 1 <= len && |a| <= len
    ensures FitTo(a, len) + Fitting(b, len - |a|) == FitTo(a + b, len)
  {
    if |a| == len {
      assert (a + b)[..len - 1] == a[..len - 1];
    } else if |a + b| >= len {
      assert (a + b)[..len - 1] == a + b[..len - |a| - 1];
    }
  }

  function Head(f: Fields): string { Scheme(f.proto) + "://" }

  /** What follows the login. */
  function Body(isIpv6: Ipv6Test, f: Fields): string { Tail(isIpv6, f) + (f.dir + f.file) }

  lemma PrintIsParts(isIpv6: Ipv6Test, f: Fields)
    ensures Print(isIpv6, f) == Head(f) + LoginText(f) + Body(isIpv6, f)
  {
    FourParts(Head(f), LoginText(f), Tail(isIpv6, f), f.dir + f.file);
  }

  lemma FourParts(a: string, b: string, c: string, d: string)
    ensures a + ((b + c) + d) == a + b + (c + d)
  {
  }

  /** conn_url, for every length of the buffer. */
  function PrintInto(isIpv6: Ipv6Test, f: Fields, len: nat): Printed {
    if |Head(f)| > len then TooShort
    else if |Head(f)| + |LoginText(f)| > len then Beyond
    else Text(FitTo(Print(isIpv6, f), len), |Body(isIpv6, f)|)
  }

  /** The whole URL is printed exactly when it and its NUL fit.  The number returned is the length of
      the last part only. */
  lemma WholeUrlIff(isIpv6: Ipv6Test, f: Fields, len: nat)
    ensures (PrintInto(isIpv6, f, len).Text? && PrintInto(isIpv6, f, len).dst == Print(isIpv6, f)) <==>
              |Print(isIpv6, f)| < len
  {
    PrintIsParts(isIpv6, f);
  }

  // ----- the connection updated in place

  class Connection {
    var proto: int
    var port: int
    var user: string
    var pass: string
    var host: string
    var dir: string
    var file: string

    ghost function State(): Fields
      reads this
    {
      Fields(proto, port, user, pass, host, dir, file)
    }

    constructor ()
    {
      proto, port := PROTO_HTTP, 80;
      user, pass, host, dir, file := "", "", "", "", "";
    }

    /** conn_set. */
    method Set(setUrl: string) returns (ok: bool)
      modifies this
      ensures ok <==> Parse(setUrl).Some?
      ensures State() == AfterSet(old(State()), setUrl)
    {
      var f;
      ok, f := CutUrl(Fields(proto, port, user, pass, host, dir, file), setUrl);
      Store(f);
    }

    method Store(f: Fields)
      modifies this
      ensures State() == f
    {
      proto, port := f.proto, f.port;
      dir, file := f.dir, f.file;
      user, pass, host := f.user, f.pass, f.host;
    }

    /** conn_url into a buffer of `len` bytes. */
    method Url(isIpv6: Ipv6Test, len: nat) returns (r: Printed)
      ensures r == PrintInto(isIpv6, State(), len)
    {
      ghost var f := State();
      var dst := Scheme(proto) + "://";
      var done := |dst|;
      if done > len {
        return TooShort;
      }
      dst := FitTo(dst, len);
      var room := len - done;
      if user != "" && user != ANONYMOUS {
        var login := user + (":" + pass) + "@";
        FitConcat(Head(f), login, len);
        dst := dst + Fitting(login, room);
        if |login| > room {
          return Beyond;
        }
        room := room - |login|;
      }
      assert Head(f) + "" == Head(f);
      assert dst == FitTo(Head(f) + LoginText(f), len);
      var body := Rest(isIpv6);
      PrintIsParts(isIpv6, f);
      FitConcat(Head(f) + LoginText(f), body, len);
      r := Text(dst + Fitting(body, room), |body|);
    }

    /** Host, port and path. */
    method Rest(isIpv6: Ipv6Test) returns (body: string)
      ensures body == Body(isIpv6, State())
    {
      var prefix, postfix := "", "";
      if isIpv6(host) {
        prefix, postfix := "[", "]";
      }
      assert !isIpv6(host) ==> prefix + host + postfix == host;
      body := prefix + host + postfix + (":" + IntText(port)) + (dir + file);
    }
  }

  /** A connection printed into a buffer of MAX_STRING bytes and read back into another one: when the
      URL fits, the copy is the original exactly when the original was well-formed. */
  method CopyThroughUrl(isIpv6: Ipv6Test, from: Connection, to: Connection) returns (ok: bool)
    requires from != to && |Print(isIpv6, from.State())| < MAX_STRING
    modifies to
    ensures ok && to.State() == from.State() <==> WellFormed(isIpv6, from.State())
  {
    var r := from.Url(isIpv6, MAX_STRING);
    WholeUrlIff(isIpv6, from.State(), MAX_STRING);
    RoundTripIff(isIpv6, from.State());
    AfterSetWhenParsed(to.State(), r.dst);
    ok := to.Set(r.dst);
  }
}
