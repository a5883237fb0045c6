/** Requests as clients may send them, and not only as the builder prints them: either version, blanks around values,
    lines without a colon, cookies, and lengths that are missing, wrong or too large. */
module HttpRequests {
  import opened HttpMessage
  import opened HttpParser
  import opened HttpRoundTrip

  /** A header line: a name and a value between blanks, or a line without a colon. */
  datatype RawHeader =
    | Named(name: string, left: nat, value: string, right: nat)
    | Bare(line: string)

  function Blanks(n: nat): string {
    if n == 0 then "" else " " + Blanks(n - 1)
  }

  function RawLine(h: RawHeader): string {
    match h
    case Named(name, left, value, right) => name + ":" + (Blanks(left) + value + Blanks(right))
    case Bare(line) => line
  }

  ghost predicate RawOk(h: RawHeader) {
    match h
    case Named(name, _, value, _) => ':' !in name && '\r' !in name && '\r' !in value && Trimmed(value)
    case Bare(line) => ':' !in line && '\r' !in line && line != ""
  }

  /** What is kept of a header line. */
  function Kept(h: RawHeader): Header {
    match h
    case Named(name, _, value, _) => (name, value)
    case Bare(line) => (line, "")
  }

  function AllKept(hs: seq<RawHeader>): seq<Header> {
    if hs == [] then [] else AllKept(hs[..|hs| - 1]) + [Kept(hs[|hs| - 1])]
  }

  function RawText(hs: seq<RawHeader>): string {
    if hs == [] then "" else RawText(hs[..|hs| - 1]) + (RawLine(hs[|hs| - 1]) + CRLF)
  }

  // ---- Header lines ----

  lemma {:induction false} BlanksAre(n: nat)
    ensures |Blanks(n)| == n && forall i :: 0 <= i < n ==> Blanks(n)[i] == ' '
  {
    if n > 0 {
      BlanksAre(n - 1);
    }
  }

  lemma TrimBlanks(left: nat, value: string, right: nat)
    requires Trimmed(value)
    ensures Trim(Blanks(left) + value + Blanks(right)) == value
  {
    BlanksAre(left);
    BlanksAre(right);
    var s := Blanks(left) + value + Blanks(right);
    if value == "" {
      assert forall i :: 0 <= i < |s| ==> s[i] == ' ';
      TrimRightAt(s, 0);
      TrimLeftAt("", 0);
    } else {
      var n := left + |value|;
      assert s[n - 1] == value[|value| - 1];
      TrimRightAt(s, n);
      assert s[..n] == Blanks(left) + value;
      assert s[..n][left] == value[0];
      TrimLeftAt(s[..n], left);
      assert s[..n][left..] == value;
    }
  }

  lemma RawRead(v: View, h: RawHeader, limits: Limits)
    requires v.state == Headers && v.lineBuf == "" && RawOk(h)
    ensures Run(v, RawLine(h) + CRLF, limits) == Result(v.(headers := v.headers + [Kept(h)]), false)
  {
    hide Run, Step, Trim, Trimmed, Find, Blanks;
    var line := RawLine(h);
    match h
    case Named(name, left, value, right) =>
      var rest := Blanks(left) + value + Blanks(right);
      BlanksAre(left);
      BlanksAre(right);
      assert line == name + ([':'] + rest);
      RunLine(v, line, limits);
      HeaderStep(v, line, limits);
      FindBehind(name, [':'] + rest, ':');
      FindFirst(':', rest);
      TrimBlanks(left, value, right);
      assert line[..|name|] == name && line[|name| + 1..] == rest;
    case Bare(_) =>
      RunLine(v, line, limits);
      HeaderStep(v, line, limits);
      FindNone(line, ':');
  }

  lemma FindNone(s: string, c: char)
    requires c !in s
    ensures Find(s, c) == |s|
  {
    FindBehind(s, "", c);
    assert s + "" == s;
  }

  lemma {:induction false} RawHeadersRead(v: View, hs: seq<RawHeader>, limits: Limits)
    requires v.state == Headers && v.lineBuf == "" && forall i :: 0 <= i < |hs| ==> RawOk(hs[i])
    ensures Run(v, RawText(hs), limits) == Result(v.(headers := v.headers + AllKept(hs)), false)
    decreases |hs|
  {
    hide Run, RawLine, RawOk, Kept;
    if hs == [] {
      assert v.headers + [] == v.headers;
      RunNothing(v, limits);
    } else {
      var n := |hs| - 1;
      RawHeadersRead(v, hs[..n], limits);
      var w := v.(headers := v.headers + AllKept(hs[..n]));
      RawRead(w, hs[n], limits);
      RunConcat(v, RawText(hs[..n]), RawLine(hs[n]) + CRLF, limits);
      assert v.headers + AllKept(hs[..n]) + [Kept(hs[n])] == v.headers + AllKept(hs);
    }
  }

  // ---- The end of the headers ----

  /** The values of all cookie headers, in order. */
  function CookieValues(hs: seq<Header>): seq<string> {
    if hs == [] then []
    else
      var (front, h) := (hs[..|hs| - 1], hs[|hs| - 1]);
      CookieValues(front) + if h.0 == "Cookie" then [h.1] else []
  }

  /** All other headers, in order. */
  function OtherHeaders(hs: seq<Header>): seq<Header> {
    if hs == [] then []
    else
      var (front, h) := (hs[..|hs| - 1], hs[|hs| - 1]);
      OtherHeaders(front) + if h.0 == "Cookie" then [] else [h]
  }

  lemma {:induction false} CookiesApart(hs: seq<Header>)
    ensures ValuesOf(hs, COOKIE) == CookieValues(hs) && WithoutName(hs, COOKIE) == OtherHeaders(hs)
  {
    if hs != [] {
      var (front, h) := (hs[..|hs| - 1], hs[|hs| - 1]);
      CookiesApart(front);
      assert hs == front + [h];
      ValuesAppend(front, h, COOKIE);
      WithoutAppend(front, h, COOKIE);
    }
  }

  lemma {:induction false} ValuesAppend(hs: seq<Header>, h: Header, name: string)
    ensures ValuesOf(hs + [h], name) == ValuesOf(hs, name) + if h.0 == name then [h.1] else []
  {
    if hs == [] {
      assert (hs + [h])[1..] == [];
    } else {
      assert (hs + [h])[1..] == hs[1..] + [h];
      ValuesAppend(hs[1..], h, name);
    }
  }

  lemma {:induction false} WithoutAppend(hs: seq<Header>, h: Header, name: string)
    ensures WithoutName(hs + [h], name) == WithoutName(hs, name) + if h.0 == name then [] else [h]
  {
    if hs == [] {
      assert (hs + [h])[1..] == [];
    } else {
      assert (hs + [h])[1..] == hs[1..] + [h];
      WithoutAppend(hs[1..], h, name);
    }
  }

  /** Header `i` is the first that declares a length. */
  ghost predicate DeclaresLength(hs: seq<Header>, i: nat) {
    i < |hs| && hs[i].0 == "Content-Length" && forall j :: 0 <= j < i ==> hs[j].0 != "Content-Length"
  }

  lemma {:induction false} FirstFound(hs: seq<Header>, i: nat)
    requires DeclaresLength(hs, i)
    ensures Lookup(hs, CONTENT_LENGTH) == Some(hs[i].1)
  {
    if i > 0 {
      forall j | 0 <= j < i - 1 ensures hs[1..][j].0 != "Content-Length" {
        assert hs[j + 1].0 != "Content-Length";
      }
      FirstFound(hs[1..], i - 1);
    }
  }

  /** The parser behind the empty line, ready for a body of `n` bytes or done. */
  function Ended(v: View, n: nat): View {
    v.(contentLength := n, state := if n > 0 then Body else Done,
       cookies := v.cookies + CookieValues(v.headers), headers := OtherHeaders(v.headers))
  }

  lemma EmptyLine(v: View, limits: Limits)
    requires v.state == Headers && v.lineBuf == ""
    ensures Run(v, CRLF, limits) == TakeEnd(v.(lineBuf := CRLF), limits)
  {
    hide Run, Step, TakeEnd;
    assert "" + CRLF == CRLF && "" + "\r" == "\r";
    RunLine(v, "", limits);
    EmptyStep(v, limits);
  }

  /** No length is declared: the request has no body. */
  lemma EndWithoutLength(v: View, limits: Limits)
    requires v.state == Headers && v.lineBuf == "" && v.contentLength == 0
    requires forall i :: 0 <= i < |v.headers| ==> v.headers[i].0 != "Content-Length"
    ensures Run(v, CRLF, limits) == Result(Ended(v, 0), false)
  {
    hide Run, ValuesOf, WithoutName, CookieValues, OtherHeaders;
    EmptyLine(v, limits);
    LookupNone(v.headers, CONTENT_LENGTH);
    CookiesApart(v.headers);
  }

  /** The first length that is declared counts. */
  lemma EndWithLength(v: View, i: nat, n: nat, limits: Limits)
    requires v.state == Headers && v.lineBuf == "" && DeclaresLength(v.headers, i) && v.headers[i].1 == Digits(n)
    requires n <= limits.ulong && n <= limits.room
    ensures Run(v, CRLF, limits) == Result(Ended(v, n), false)
  {
    hide Run, ValuesOf, WithoutName, CookieValues, OtherHeaders, Lookup, Digits, AllDigits, Number;
    EmptyLine(v, limits);
    FirstFound(v.headers, i);
    DigitsRead(n);
    CookiesApart(v.headers);
  }

  /** A length that is empty or has another character than a digit is an error; nothing else is touched. */
  lemma EndWithBadLength(v: View, i: nat, limits: Limits)
    requires v.state == Headers && v.lineBuf == "" && DeclaresLength(v.headers, i)
    requires v.headers[i].1 == "" || exists j :: 0 <= j < |v.headers[i].1| && !('0' <= v.headers[i].1[j] <= '9')
    ensures Run(v, CRLF, limits) == Result(v.(lineBuf := CRLF, state := Error), false)
  {
    hide Run, ValuesOf, WithoutName, Lookup, Number;
    EmptyLine(v, limits);
    FirstFound(v.headers, i);
  }

  /** A length that no number or no string can hold leaves `parse` by an exception. */
  lemma EndWithHugeLength(v: View, i: nat, n: nat, limits: Limits)
    requires v.state == Headers && v.lineBuf == "" && DeclaresLength(v.headers, i) && v.headers[i].1 == Digits(n)
    requires n > limits.ulong || n > limits.room
    ensures Run(v, CRLF, limits).threw
  {
    hide Run, ValuesOf, WithoutName, Lookup, Digits, AllDigits, Number;
    EmptyLine(v, limits);
    FirstFound(v.headers, i);
    DigitsRead(n);
  }

  // ---- Bad request lines ----

  /** The parser after a line that is no request line. */
  ghost predicate Refused(line: string, limits: Limits) {
    var r := Run(INITIAL, line + CRLF, limits);
    !r.threw && r.view.state == Error && r.view.lineBuf == "" && r.view.headers == [] && r.view.body == ""
  }

  lemma RefusedLine(line: string, pieces: seq<string>, limits: Limits)
    requires '\r' !in line && Split(line) == pieces
    requires TakePieces(INITIAL.(lineBuf := line + CRLF), 0, pieces).state == Error
    ensures Refused(line, limits)
  {
    hide Run, Step, Split, TakePieces;
    RunLine(INITIAL, line, limits);
    RequestStep(INITIAL, line, limits);
    PiecesKeep(INITIAL.(lineBuf := line + CRLF), 0, pieces);
  }

  /** No method has this name. */
  lemma BadMethod(m: string, rest: string, limits: Limits)
    requires ' ' !in m && '\r' !in m && '\r' !in rest
    requires forall verb: Method :: verb != Invalid ==> MethodToString(verb) != m
    ensures Refused(m + " " + rest, limits)
  {
    hide Split, TakePieces, Refused;
    var line := m + " " + rest;
    SplitAtBlank(m, rest);
    assert line == m + [' '] + rest;
    NoMethod(m);
    NextPiece(INITIAL.(lineBuf := line + CRLF), 0, m, Split(rest));
    assert '\r' !in " ";
    RefusedLine(line, [m] + Split(rest), limits);
  }

  lemma NoMethod(m: string)
    requires forall verb: Method :: verb != Invalid ==> MethodToString(verb) != m
    ensures StringToMethod(m) == Invalid
  {
    assert MethodToString(GET) != m && MethodToString(POST) != m && MethodToString(HEAD) != m;
    assert MethodToString(PUT) != m && MethodToString(DELET) != m && MethodToString(PATCH) != m;
    assert MethodToString(CONNECT) != m && MethodToString(OPTIONS) != m && MethodToString(TRACE) != m;
  }

  /** Only two versions are known. */
  lemma BadVersion(m: Method, url: string, version: string, limits: Limits)
    requires m != Invalid && ' ' !in url && '\r' !in url && ' ' !in version && '\r' !in version
    requires version != "HTTP/1.1" && version != "HTTP/1.0"
    ensures Refused(MethodToString(m) + " " + url + " " + version, limits)
  {
    hide Split, TakePieces, Refused, TakePath, StringToMethod, MethodToString;
    var name := MethodToString(m);
    var line := name + " " + url + " " + version;
    var v := INITIAL.(lineBuf := line + CRLF);
    MethodRead(m);
    assert line == name + [' '] + (url + [' '] + version) && '\r' !in " ";
    SplitAtBlank(name, url + [' '] + version);
    SplitAtBlank(url, version);
    SplitAtBlank(version, "");
    var v1 := v.(verb := m);
    NextPiece(v, 0, name, [url] + [version]);
    NextPiece(v1, 1, url, [version]);
    PathState(v1, url);
    NextPiece(TakePath(v1, url), 2, version, []);
    assert [version] + [] == [version];
    RefusedLine(line, [name] + ([url] + [version]), limits);
  }

  lemma PathState(v: View, url: string)
    ensures TakePath(v, url).state == v.state
  {
  }

  /** A method and nothing else, or only a path. */
  lemma MissingPieces(m: Method, url: string, limits: Limits)
    requires m != Invalid && ' ' !in url && '\r' !in url
    ensures Refused(MethodToString(m), limits) && Refused(MethodToString(m) + " " + url, limits)
  {
    hide Split, Refused, TakePath, StringToMethod, MethodToString;
    var name := MethodToString(m);
    MethodRead(m);
    SplitAtBlank(name, url);
    SplitAtBlank(url, "");
    assert name + " " + url == name + [' '] + url && '\r' !in " ";
    var (v, w) := (INITIAL.(lineBuf := name + CRLF), INITIAL.(lineBuf := name + " " + url + CRLF));
    NextPiece(v, 0, name, []);
    assert [name] + [] == [name];
    RefusedLine(name, [name], limits);
    NextPiece(w, 0, name, [url]);
    NextPiece(w.(verb := m), 1, url, []);
    assert [url] + [] == [url];
    PathState(w.(verb := m), url);
    RefusedLine(name + " " + url, [name] + [url], limits);
  }

  // ---- Whole requests ----

  datatype Message = Message(verb: Method, url: string, version: Version, headers: seq<RawHeader>, body: string)

  function MessageText(m: Message): string {
    MethodToString(m.verb) + " " + m.url + " " + VersionText(m.version) + CRLF + RawText(m.headers) + CRLF + m.body
  }

  ghost predicate MessageOk(m: Message) {
    && m.verb != Invalid && ' ' !in m.url && '\r' !in m.url && m.version != Unknown
    && forall i :: 0 <= i < |m.headers| ==> RawOk(m.headers[i])
  }

  /** What the parser holds after such a request. */
  function Received(m: Message): View {
    View(Done, "", |m.body|, |m.body|, m.verb, UrlPath(m.url), UrlQuery(m.url), m.version, m.body,
         OtherHeaders(AllKept(m.headers)), CookieValues(AllKept(m.headers)))
  }

  /** Every request whose first declared length is that of its body is received: its cookies, its other headers without
      the blanks around their values, and its body. */
  lemma MessageReceived(m: Message, i: nat, limits: Limits)
    requires MessageOk(m) && DeclaresLength(AllKept(m.headers), i) && AllKept(m.headers)[i].1 == Digits(|m.body|)
    requires |m.body| <= limits.ulong && |m.body| <= limits.room
    ensures Run(INITIAL, MessageText(m), limits) == Result(Received(m), false)
  {
    hide Run, RawText, Digits, UrlPath, UrlQuery, AllKept, RawOk, CookieValues, OtherHeaders, DeclaresLength;
    var v1 := INITIAL.(state := Headers, verb := m.verb, path := UrlPath(m.url), query := UrlQuery(m.url),
                       version := m.version);
    var v2 := v1.(headers := AllKept(m.headers));
    var line := MethodToString(m.verb) + " " + m.url + " " + VersionText(m.version) + CRLF;
    LineRead(m.verb, m.url, m.version, limits);
    RawHeadersRead(v1, m.headers, limits);
    assert [] + AllKept(m.headers) == AllKept(m.headers);
    RunConcat(INITIAL, line, RawText(m.headers), limits);
    EndWithLength(v2, i, |m.body|, limits);
    RunConcat(INITIAL, line + RawText(m.headers), CRLF, limits);
    var v3 := Ended(v2, |m.body|);
    BodyRead(v3, m.body, limits);
    RunConcat(INITIAL, line + RawText(m.headers) + CRLF, m.body, limits);
    assert [] + CookieValues(AllKept(m.headers)) == CookieValues(AllKept(m.headers)) && "" + m.body == m.body;
  }

  /** One that declares none is received when its headers end. */
  lemma BodilessReceived(m: Message, limits: Limits)
    requires MessageOk(m) && m.body == ""
    requires forall i :: 0 <= i < |AllKept(m.headers)| ==> AllKept(m.headers)[i].0 != "Content-Length"
    ensures Run(INITIAL, MessageText(m), limits) == Result(Received(m), false)
  {
    hide Run, RawText, UrlPath, UrlQuery, AllKept, RawOk, CookieValues, OtherHeaders;
    var v1 := INITIAL.(state := Headers, verb := m.verb, path := UrlPath(m.url), query := UrlQuery(m.url),
                       version := m.version);
    var v2 := v1.(headers := AllKept(m.headers));
    var line := MethodToString(m.verb) + " " + m.url + " " + VersionText(m.version) + CRLF;
    LineRead(m.verb, m.url, m.version, limits);
    RawHeadersRead(v1, m.headers, limits);
    assert [] + AllKept(m.headers) == AllKept(m.headers);
    RunConcat(INITIAL, line, RawText(m.headers), limits);
    EndWithoutLength(v2, limits);
    RunConcat(INITIAL, line + RawText(m.headers), CRLF, limits);
    assert MessageText(m) == line + RawText(m.headers) + CRLF;
    assert [] + CookieValues(AllKept(m.headers)) == CookieValues(AllKept(m.headers));
  }
}
