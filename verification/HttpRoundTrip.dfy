/** `FHttpRequestBuilder::build`, and that the parser reads back what it prints. */
module HttpRoundTrip {
  import opened HttpMessage
  import opened HttpParser

  /** `methodToStr` */
  function MethodToString(m: Method): string {
    match m
    case GET => "GET"
    case POST => "POST"
    case HEAD => "HEAD"
    case PUT => "PUT"
    case DELET => "DELETE"
    case PATCH => "PATCH"
    case CONNECT => "CONNECT"
    case OPTIONS => "OPTIONS"
    case TRACE => "TRACE"
    case Invalid => "Invalid"
  }

  /** A number in decimal digits. */
  function Digits(n: nat): (s: string)
    ensures s != ""
  {
    if n < 10 then [(n as char) + '0'] else Digits(n / 10) + [((n % 10) as char) + '0']
  }

  datatype Request = Request(verb: Method, url: string, headers: seq<Header>, body: string)

  const CRLF := "\r\n"

  function HeaderLine(h: Header): string {
    h.0 + ": " + h.1
  }

  function HeaderText(hs: seq<Header>): string {
    if hs == [] then "" else HeaderText(hs[..|hs| - 1]) + (HeaderLine(hs[|hs| - 1]) + CRLF)
  }

  function StartLine(r: Request): string {
    MethodToString(r.verb) + " " + r.url + " HTTP/1.1"
  }

  function LengthHeader(r: Request): Header {
    (CONTENT_LENGTH, Digits(|r.body|))
  }

  /** The text of a request. */
  function Printed(r: Request): string {
    StartLine(r) + CRLF + HeaderText(r.headers) + (HeaderLine(LengthHeader(r)) + CRLF) + CRLF + r.body
  }

  class RequestBuilder {
    var verb: Method
    var url: string
    var headers: seq<Header>
    var body: string

    constructor (m: Method, u: string, hs: seq<Header>, b: string)
      ensures Content() == Request(m, u, hs, b)
    {
      verb, url, headers, body := m, u, hs, b;
    }

    function Content(): Request
      reads this
    {
      Request(verb, url, headers, body)
    }

    /** `build` */
    method Build() returns (s: string)
      ensures s == Printed(Content())
    {
      s := MethodToString(verb) + " " + url + " HTTP/1.1" + CRLF;
      ghost var start := s;
      for i := 0 to |headers|
        invariant s == start + HeaderText(headers[..i])
      {
        ghost var before := HeaderText(headers[..i]);
        assert headers[..i + 1][..i] == headers[..i];
        s := s + headers[i].0 + ": " + headers[i].1 + CRLF;
        assert s == start + (before + (HeaderLine(headers[i]) + CRLF));
      }
      assert headers[..|headers|] == headers;
      ghost var lines := start + HeaderText(headers);
      s := s + CONTENT_LENGTH + ": " + Digits(|body|) + CRLF;
      assert s == lines + (HeaderLine(LengthHeader(Content())) + CRLF);
      s := s + CRLF;
      s := s + body;
    }
  }

  // ---- What may be printed ----

  predicate Trimmed(s: string) {
    s == "" || (s[0] != ' ' && s[|s| - 1] != ' ')
  }

  ghost predicate HeaderPrintable(h: Header) {
    && ':' !in h.0 && '\r' !in h.0 && '\r' !in h.1 && Trimmed(h.1)
    && h.0 != CONTENT_LENGTH && h.0 != COOKIE
  }

  ghost predicate Printable(r: Request, limits: Limits) {
    && r.verb != Invalid
    && ' ' !in r.url && '\r' !in r.url
    && (forall i :: 0 <= i < |r.headers| ==> HeaderPrintable(r.headers[i]))
    && |r.body| <= limits.ulong && |r.body| <= limits.room
  }

  // ---- Numbers ----

  lemma {:induction false} DigitsRead(n: nat)
    ensures AllDigits(Digits(n)) && Number(Digits(n)) == n && '\r' !in Digits(n) && Trimmed(Digits(n))
  {
    if n < 10 {
      assert Digits(n)[..0] == "";
      assert Number("") == 0;
    } else {
      DigitsRead(n / 10);
      assert Digits(n)[..|Digits(n)| - 1] == Digits(n / 10);
    }
  }

  lemma MethodRead(m: Method)
    requires m != Invalid
    ensures StringToMethod(MethodToString(m)) == m && ' ' !in MethodToString(m) && '\r' !in MethodToString(m)
  {
  }

  // ---- Lines ----

  /** Bytes before a line end collect in the line buffer. */
  lemma {:induction false} RunInLine(v: View, s: string, limits: Limits)
    requires (v.state == RequestLine || v.state == Headers) && '\r' !in v.lineBuf && '\r' !in s
    ensures Run(v, s, limits) == Result(v.(lineBuf := v.lineBuf + s), false)
    decreases |s|
  {
    hide TakeRequestLine, TakeHeader, TakeEnd;
    if s == "" {
      assert v.lineBuf + s == v.lineBuf;
    } else {
      var w := v.(lineBuf := v.lineBuf + [s[0]]);
      assert !EndsLine(w.lineBuf);
      RunInLine(w, s[1..], limits);
      assert v.lineBuf + [s[0]] + s[1..] == v.lineBuf + s;
    }
  }

  /** A whole line. */
  lemma RunLine(v: View, line: string, limits: Limits)
    requires (v.state == RequestLine || v.state == Headers) && v.lineBuf == "" && '\r' !in line
    ensures Run(v, line + CRLF, limits) == Step(v.(lineBuf := line + "\r"), '\n', limits)
  {
    hide TakeRequestLine, TakeHeader, TakeEnd;
    RunInLine(v, line, limits);
    RunConcat(v, line, CRLF, limits);
    assert "" + line == line;
    var w := v.(lineBuf := line);
    assert CRLF[1..] == "\n" && "\n"[1..] == "";
    assert Step(w, '\r', limits) == Result(w.(lineBuf := line + "\r"), false);
    RunOne(w.(lineBuf := line + "\r"), '\n', limits);
  }

  lemma RunOne(v: View, c: char, limits: Limits)
    ensures Run(v, [c], limits) == Step(v, c, limits)
  {
    hide Step;
    assert [c][1..] == "";
  }

  /** What stands before the first `c`. */
  function Before(s: string, c: char): string {
    if s == "" || s[0] == c then "" else [s[0]] + Before(s[1..], c)
  }

  /** What stands behind the first `c`, if there is one. */
  function Behind(s: string, c: char): Option<string> {
    if s == "" then None else if s[0] == c then Some(s[1..]) else Behind(s[1..], c)
  }

  /** The path of a URL ends at its first question mark; the query goes from there to a fragment mark. */
  function UrlPath(url: string): string {
    Before(url, '?')
  }

  function UrlQuery(url: string): Option<string> {
    match Behind(url, '?')
    case None => None
    case Some(s) => Some(Before(s, '#'))
  }

  lemma {:induction false} CutAt(s: string, c: char)
    ensures Before(s, c) == s[..Find(s, c)]
    ensures Behind(s, c) == if Find(s, c) == |s| then None else Some(s[Find(s, c) + 1..])
  {
    if s != "" && s[0] != c {
      CutAt(s[1..], c);
      var k := Find(s[1..], c);
      assert s[..k + 1] == [s[0]] + s[1..][..k];
    }
  }

  lemma {:induction false} CutParts(a: string, b: string, c: char)
    requires c !in a
    ensures Before(a, c) == a && Behind(a, c) == None
    ensures Before(a + [c] + b, c) == a && Behind(a + [c] + b, c) == Some(b)
  {
    if a == "" {
      assert a + [c] + b == [c] + b;
    } else {
      CutParts(a[1..], b, c);
      assert (a + [c] + b)[1..] == a[1..] + [c] + b;
    }
  }

  /** A URL with a query, with or without a fragment behind it. */
  lemma UrlParts(p: string, q: string, f: string)
    requires '?' !in p && '#' !in q
    ensures UrlPath(p) == p && UrlQuery(p) == None
    ensures UrlPath(p + "?" + q) == p && UrlQuery(p + "?" + q) == Some(q)
    ensures UrlPath(p + "?" + (q + "#" + f)) == p && UrlQuery(p + "?" + (q + "#" + f)) == Some(q)
  {
    CutParts(p, q, '?');
    CutParts(p, q + "#" + f, '?');
    CutParts(q, f, '#');
  }

  function VersionText(v: Version): string {
    match v
    case Http10 => "HTTP/1.0"
    case _ => "HTTP/1.1"
  }

  /** A request line is read back. */
  lemma LineRead(m: Method, url: string, version: Version, limits: Limits)
    requires m != Invalid && ' ' !in url && '\r' !in url && version != Unknown
    ensures Run(INITIAL, MethodToString(m) + " " + url + " " + VersionText(version) + CRLF, limits) ==
            Result(INITIAL.(state := Headers, verb := m, path := UrlPath(url), query := UrlQuery(url),
                            version := version), false)
  {
    hide Run, Step, Split, TakePieces, UrlPath, UrlQuery;
    var (name, last) := (MethodToString(m), VersionText(version));
    var line := name + " " + url + " " + last;
    MethodRead(m);
    assert '\r' !in " " && '\r' !in last && ' ' !in last;
    RunLine(INITIAL, line, limits);
    assert line == name + [' '] + (url + [' '] + last);
    SplitAtBlank(name, url + [' '] + last);
    SplitAtBlank(url, last);
    SplitAtBlank(last, "");
    PiecesRead(m, url, version, INITIAL.(lineBuf := line + CRLF), [name] + ([url] + [last]));
    RequestStep(INITIAL, line, limits);
  }

  /** A query in the request line, with or without a fragment, leaves the path and the query. */
  lemma QueryRead(m: Method, p: string, q: string, f: string, limits: Limits)
    requires m != Invalid && ' ' !in p && '\r' !in p && '?' !in p && ' ' !in q && '\r' !in q && '#' !in q
    requires ' ' !in f && '\r' !in f
    ensures var v := INITIAL.(state := Headers, verb := m, path := p, query := Some(q), version := Http11);
            && Run(INITIAL, MethodToString(m) + " " + (p + "?" + q) + " HTTP/1.1\r\n", limits) == Result(v, false)
            && Run(INITIAL, MethodToString(m) + " " + (p + "?" + (q + "#" + f)) + " HTTP/1.1\r\n", limits)
               == Result(v, false)
  {
    hide Run, UrlPath, UrlQuery;
    UrlParts(p, q, f);
    forall url | url == p + "?" + q || url == p + "?" + (q + "#" + f)
      ensures MethodToString(m) + " " + url + " HTTP/1.1\r\n" == MethodToString(m) + " " + url + " " + "HTTP/1.1" + CRLF
    {
    }
    LineRead(m, p + "?" + q, Http11, limits);
    LineRead(m, p + "?" + (q + "#" + f), Http11, limits);
  }

  /** The request line of a request is read back. */
  lemma StartRead(r: Request, limits: Limits)
    requires Printable(r, limits)
    ensures Run(INITIAL, StartLine(r) + CRLF, limits) ==
            Result(INITIAL.(state := Headers, verb := r.verb, path := UrlPath(r.url), query := UrlQuery(r.url),
                            version := Http11), false)
  {
    hide Run, HeaderPrintable, UrlPath, UrlQuery;
    LineRead(r.verb, r.url, Http11, limits);
    assert StartLine(r) == MethodToString(r.verb) + " " + r.url + " " + "HTTP/1.1";
  }

  /** The last byte of the request line. */
  lemma RequestStep(v: View, line: string, limits: Limits)
    requires v.state == RequestLine
    ensures var t := TakeRequestLine(v.(lineBuf := line + CRLF), line).(lineBuf := "");
            Step(v.(lineBuf := line + "\r"), '\n', limits) ==
              Result(if t.state == Error then t else t.(state := Headers), false)
  {
    hide TakeRequestLine, TakeHeader, TakeEnd;
    assert (line + "\r" + "\n")[..|line|] == line && line + "\r" + "\n" == line + CRLF;
  }

  lemma PiecesRead(m: Method, url: string, version: Version, v: View, pieces: seq<string>)
    requires m != Invalid && v.state == RequestLine && v.query == None && version != Unknown
    requires pieces == [MethodToString(m)] + ([url] + [VersionText(version)])
    ensures TakePieces(v, 0, pieces) ==
            v.(verb := m, path := UrlPath(url), query := UrlQuery(url), version := version)
  {
    hide StringToMethod, MethodToString, TakePath, UrlPath, UrlQuery;
    var last := VersionText(version);
    MethodRead(m);
    var v1 := v.(verb := m);
    PathRead(v1, url);
    var v2 := v1.(path := UrlPath(url), query := UrlQuery(url));
    NextPiece(v, 0, MethodToString(m), [url] + [last]);
    NextPiece(v1, 1, url, [last]);
    NextPiece(v2, 2, last, []);
    assert [last] + [] == [last];
  }

  lemma PathRead(v: View, url: string)
    requires v.query == None
    ensures TakePath(v, url) == v.(path := UrlPath(url), query := UrlQuery(url))
  {
    CutAt(url, '?');
    if Find(url, '?') < |url| {
      CutAt(url[Find(url, '?') + 1..], '#');
    }
  }

  // ---- Headers ----

  lemma TrimRead(value: string)
    requires Trimmed(value)
    ensures Trim([' '] + value) == value
  {
    var s := [' '] + value;
    if value == "" {
      TrimRightAt(s, 0);
      TrimLeftAt("", 0);
    } else {
      TrimRightAt(s, |s|);
      assert s[..|s|] == s;
      TrimLeftAt(s, 1);
    }
  }

  /** A printed header is read back. */
  lemma HeaderRead(v: View, h: Header, limits: Limits)
    requires v.state == Headers && v.lineBuf == "" && ':' !in h.0 && '\r' !in h.0 && '\r' !in h.1 && Trimmed(h.1)
    ensures Run(v, HeaderLine(h) + CRLF, limits) == Result(v.(headers := v.headers + [h]), false)
  {
    hide Run, Step, Trim, Trimmed, Find;
    var line := HeaderLine(h);
    assert line == h.0 + ([':'] + ([' '] + h.1));
    RunLine(v, line, limits);
    HeaderStep(v, line, limits);
    FindBehind(h.0, [':'] + ([' '] + h.1), ':');
    FindFirst(':', [' '] + h.1);
    TrimRead(h.1);
    assert line[..|h.0|] == h.0 && line[|h.0| + 1..] == [' '] + h.1;
  }

  /** The last byte of a header line. */
  lemma HeaderStep(v: View, line: string, limits: Limits)
    requires v.state == Headers && v.lineBuf == "" && line != ""
    ensures Step(v.(lineBuf := line + "\r"), '\n', limits) == Result(TakeHeader(v, line), false)
  {
    hide Find, Trim, TakeRequestLine, TakeEnd;
    var w := v.(lineBuf := line + "\r" + "\n");
    assert w.lineBuf[..|line|] == line && |w.lineBuf| > |CRLF|;
    assert TakeHeader(w, line).(lineBuf := "") == TakeHeader(v, line);
  }

  /** The last byte of the empty line. */
  lemma EmptyStep(v: View, limits: Limits)
    requires v.state == Headers
    ensures Step(v.(lineBuf := "\r"), '\n', limits) == TakeEnd(v.(lineBuf := CRLF), limits)
  {
    hide TakeHeader, TakeRequestLine, TakeEnd;
    assert "\r" + "\n" == CRLF;
  }

  lemma FindFirst(c: char, s: string)
    ensures Find([c] + s, c) == 0
  {
  }

  lemma {:induction false} HeadersRead(v: View, hs: seq<Header>, limits: Limits)
    requires v.state == Headers && v.lineBuf == "" && forall i :: 0 <= i < |hs| ==> HeaderPrintable(hs[i])
    ensures Run(v, HeaderText(hs), limits) == Result(v.(headers := v.headers + hs), false)
    decreases |hs|
  {
    hide Run, Trimmed, HeaderLine;
    if hs == [] {
      assert v.headers + hs == v.headers;
      RunNothing(v, limits);
    } else {
      var n := |hs| - 1;
      HeadersRead(v, hs[..n], limits);
      var w := v.(headers := v.headers + hs[..n]);
      HeaderRead(w, hs[n], limits);
      RunConcat(v, HeaderText(hs[..n]), HeaderLine(hs[n]) + CRLF, limits);
      assert v.headers + hs[..n] + [hs[n]] == v.headers + hs;
    }
  }

  lemma RunNothing(v: View, limits: Limits)
    ensures Run(v, "", limits) == Result(v, false)
  {
  }

  // ---- The end of the headers, and the body ----

  lemma {:induction false} LookupNone(hs: seq<Header>, name: string)
    requires forall i :: 0 <= i < |hs| ==> hs[i].0 != name
    ensures Lookup(hs, name) == None && ValuesOf(hs, name) == [] && WithoutName(hs, name) == hs
  {
    if hs != [] {
      LookupNone(hs[1..], name);
      assert hs == [hs[0]] + hs[1..];
    }
  }

  lemma HeadersOf(r: Request, limits: Limits)
    requires Printable(r, limits)
    ensures var hs := r.headers + [LengthHeader(r)];
            && Lookup(hs, CONTENT_LENGTH) == Some(Digits(|r.body|))
            && ValuesOf(hs, COOKIE) == [] && WithoutName(hs, COOKIE) == hs
  {
    hide Digits;
    var hs := r.headers + [LengthHeader(r)];
    assert |CONTENT_LENGTH| != |COOKIE|;
    forall i | 0 <= i < |r.headers| ensures r.headers[i].0 != CONTENT_LENGTH {
      assert HeaderPrintable(r.headers[i]);
    }
    forall i | 0 <= i < |hs| ensures hs[i].0 != COOKIE {
      if i < |r.headers| {
        assert HeaderPrintable(r.headers[i]);
      }
    }
    LookupNone(r.headers, CONTENT_LENGTH);
    LookupAppend(r.headers, LengthHeader(r), CONTENT_LENGTH);
    LookupNone(hs, COOKIE);
  }

  /** The empty line. */
  lemma EndRead(r: Request, v: View, limits: Limits)
    requires Printable(r, limits) && v.state == Headers && v.lineBuf == "" && v.headers == r.headers + [LengthHeader(r)]
    ensures Run(v, CRLF, limits)
         == Result(v.(contentLength := |r.body|, state := if r.body == "" then Done else Body), false)
  {
    hide Run, Step, Lookup, ValuesOf, WithoutName, Digits, Number, AllDigits, HeaderPrintable, Trimmed;
    HeadersOf(r, limits);
    DigitsRead(|r.body|);
    assert "" + CRLF == CRLF && "" + "\r" == "\r";
    RunLine(v, "", limits);
    EmptyStep(v, limits);
    assert v.cookies + [] == v.cookies;
    assert v.(lineBuf := CRLF).(lineBuf := "") == v;
  }

  /** The body, to its last byte. */
  lemma {:induction false} BodyRead(v: View, s: string, limits: Limits)
    requires v.state == (if s == "" then Done else Body) && v.contentLength == v.bodyBytesRead + |s|
    ensures Run(v, s, limits) == Result(v.(body := v.body + s, bodyBytesRead := v.contentLength, state := Done), false)
    decreases |s|
  {
    if s == "" {
      assert v.body + s == v.body;
    } else {
      var next := if |s| == 1 then Done else Body;
      var w := v.(body := v.body + [s[0]], bodyBytesRead := v.bodyBytesRead + 1, state := next);
      assert Step(v, s[0], limits) == Result(w, false);
      BodyRead(w, s[1..], limits);
      assert v.body + [s[0]] + s[1..] == v.body + s;
    }
  }

  /** What the parser holds after a request. */
  function Parsed(r: Request): View {
    View(Done, "", |r.body|, |r.body|, r.verb, UrlPath(r.url), UrlQuery(r.url), Http11, r.body,
         r.headers + [LengthHeader(r)], [])
  }

  /** Printing and parsing undo each other. */
  lemma RoundTrip(r: Request, limits: Limits)
    requires Printable(r, limits)
    ensures Run(INITIAL, Printed(r), limits) == Result(Parsed(r), false)
  {
    hide Run, HeaderLine, StartLine, HeaderText, Digits, HeaderPrintable, UrlPath, UrlQuery;
    var v1 := INITIAL.(state := Headers, verb := r.verb, path := UrlPath(r.url), query := UrlQuery(r.url),
                       version := Http11);
    var v2 := v1.(headers := r.headers);
    var v3 := v1.(headers := r.headers + [LengthHeader(r)]);
    var v4 := v3.(contentLength := |r.body|, state := if r.body == "" then Done else Body);
    var (t1, t2, t3) := (StartLine(r) + CRLF, HeaderText(r.headers), HeaderLine(LengthHeader(r)) + CRLF);
    StartRead(r, limits);
    HeadersRead(v1, r.headers, limits);
    assert [] + r.headers == r.headers;
    RunConcat(INITIAL, t1, t2, limits);
    LengthRead(r, v2, limits);
    RunConcat(INITIAL, t1 + t2, t3, limits);
    EndRead(r, v3, limits);
    RunConcat(INITIAL, t1 + t2 + t3, CRLF, limits);
    BodyRead(v4, r.body, limits);
    assert "" + r.body == r.body;
    RunConcat(INITIAL, t1 + t2 + t3 + CRLF, r.body, limits);
  }

  lemma LengthRead(r: Request, v: View, limits: Limits)
    requires Printable(r, limits) && v.state == Headers && v.lineBuf == "" && v.headers == r.headers
    ensures Run(v, HeaderLine(LengthHeader(r)) + CRLF, limits) ==
            Result(v.(headers := r.headers + [LengthHeader(r)]), false)
  {
    hide Run, HeaderLine, Digits, Trimmed;
    DigitsRead(|r.body|);
    assert ':' !in CONTENT_LENGTH && '\r' !in CONTENT_LENGTH;
    HeaderRead(v, LengthHeader(r), limits);
  }

  /** And in any number of pieces. */
  lemma RoundTripInChunks(r: Request, chunks: seq<string>, limits: Limits)
    requires Printable(r, limits) && Concat(chunks) == Printed(r)
    ensures RunChunks(INITIAL, chunks, limits) == Result(Parsed(r), false)
  {
    hide Run, RunChunks, Printed, Printable;
    ChunksDoNotMatter(INITIAL, chunks, limits);
    RoundTrip(r, limits);
  }

  // ---- From the builder to the parser ----

  /** A text in pieces of the given lengths, and what is left. */
  function Cut(s: string, lengths: seq<nat>): seq<string> {
    if lengths == [] then [s]
    else
      var k := if lengths[0] < |s| then lengths[0] else |s|;
      [s[..k]] + Cut(s[k..], lengths[1..])
  }

  lemma ConcatFirst(s: string, chunks: seq<string>)
    ensures Concat([s] + chunks) == s + Concat(chunks)
  {
    assert ([s] + chunks)[1..] == chunks;
  }

  lemma {:induction false} CutWhole(s: string, lengths: seq<nat>)
    requires NUL !in s
    ensures Concat(Cut(s, lengths)) == s && forall i :: 0 <= i < |Cut(s, lengths)| ==> NUL !in Cut(s, lengths)[i]
  {
    if lengths == [] {
      assert [s][1..] == [];
    } else {
      var k := if lengths[0] < |s| then lengths[0] else |s|;
      var rest := Cut(s[k..], lengths[1..]);
      CutWhole(s[k..], lengths[1..]);
      hide Cut;
      ConcatFirst(s[..k], rest);
      forall i | 0 <= i < |rest| + 1 ensures NUL !in ([s[..k]] + rest)[i] {
        assert i > 0 ==> NUL !in rest[i - 1];
      }
    }
  }

  ghost predicate NulFree(r: Request) {
    && NUL !in r.url && NUL !in r.body
    && forall i :: 0 <= i < |r.headers| ==> NUL !in r.headers[i].0 && NUL !in r.headers[i].1
  }

  lemma {:induction false} HeadersNulFree(hs: seq<Header>)
    requires forall i :: 0 <= i < |hs| ==> NUL !in hs[i].0 && NUL !in hs[i].1
    ensures NUL !in HeaderText(hs)
  {
    if hs != [] {
      HeadersNulFree(hs[..|hs| - 1]);
      assert NUL !in ": " && NUL !in CRLF;
    }
  }

  lemma {:induction false} DigitsNulFree(n: nat)
    ensures NUL !in Digits(n)
  {
    if n >= 10 {
      DigitsNulFree(n / 10);
    }
  }

  lemma PrintedNulFree(r: Request)
    requires NulFree(r)
    ensures NUL !in Printed(r)
  {
    hide Digits, HeaderText;
    HeadersNulFree(r.headers);
    DigitsNulFree(|r.body|);
    assert NUL !in MethodToString(r.verb);
    assert NUL !in " " && NUL !in " HTTP/1.1" && NUL !in CONTENT_LENGTH && NUL !in ": " && NUL !in CRLF;
  }

  /** A request goes from the builder to a parser that gets it in pieces, one call of `parse` each. */
  method Transmit(b: RequestBuilder, lengths: seq<nat>, limits: Limits) returns (p: Parser, threw: bool)
    requires Printable(b.Content(), limits) && NulFree(b.Content())
    ensures !threw && p.Snapshot() == Parsed(b.Content())
  {
    hide Printed, Printable, NulFree, Run, Cut, Concat;
    var text := b.Build();
    PrintedNulFree(b.Content());
    CutWhole(text, lengths);
    RoundTrip(b.Content(), limits);
    p := new Parser(limits);
    threw := FeedAll(p, Cut(text, lengths));
  }
}
