/** What the request parser makes of single lines: `parseRequestLine`, header lines, the end of the headers. */
module HttpMessage {

  datatype Option<T> = None | Some(value: T)

  datatype Method = GET | POST | HEAD | PUT | DELET | PATCH | CONNECT | OPTIONS | TRACE | Invalid

  /** `MethodsMap` */
  function StringToMethod(s: string): Method {
    if s == "GET" then GET
    else if s == "POST" then POST
    else if s == "HEAD" then HEAD
    else if s == "PUT" then PUT
    else if s == "DELETE" then DELET
    else if s == "PATCH" then PATCH
    else if s == "CONNECT" then CONNECT
    else if s == "OPTIONS" then OPTIONS
    else if s == "TRACE" then TRACE
    else Invalid
  }

  datatype Version = Unknown | Http10 | Http11

  datatype State = RequestLine | Headers | Body | Done | Error

  type Header = (string, string)

  /** The fields of `FHttpParser` and of its `FHttpContext`. Headers are kept in order of arrival, the query and
      the cookies as the text they are made from. */
  datatype View = View(
    state: State, lineBuf: string, contentLength: nat, bodyBytesRead: nat,
    verb: Method, path: string, query: Option<string>, version: Version,
    body: string, headers: seq<Header>, cookies: seq<string>)

  const INITIAL := View(RequestLine, "", 0, 0, GET, "", None, Unknown, "", [], [])

  /** The first position of `c` in `s`, or the length of `s`. */
  function Find(s: string, c: char): (k: nat)
    ensures k <= |s| && c !in s[..k] && (k < |s| ==> s[k] == c)
  {
    if s == "" || s[0] == c then 0
    else
      var k := Find(s[1..], c);
      assert s[..k + 1] == [s[0]] + s[1..][..k];
      k + 1
  }

  // ---- The request line ----

  /** The pieces between blanks, empty ones included. */
  function Split(s: string): (r: seq<string>)
    ensures |r| >= 1
  {
    var k := Find(s, ' ');
    if k == |s| then [s] else [s[..k]] + Split(s[k + 1..])
  }

  /** `ParsePathLine`, but for the decoding of the query. */
  function TakePath(v: View, s: string): View {
    var k := Find(s, '?');
    if k == |s| then v.(path := s)
    else
      var q := s[k + 1..];
      v.(path := s[..k], query := Some(q[..Find(q, '#')]))
  }

  /** Piece number `step` of the request line. */
  function TakePiece(v: View, step: nat, s: string): View {
    if step == 0 then
      if StringToMethod(s) == Invalid then v.(state := Error) else v.(verb := StringToMethod(s))
    else if step == 1 then TakePath(v, s)
    else if step == 2 then
      if s == "HTTP/1.1" then v.(version := Http11)
      else if s == "HTTP/1.0" then v.(version := Http10)
      else v.(state := Error)
    else v
  }

  function TakePieces(v: View, step: nat, pieces: seq<string>): View
    decreases |pieces|
  {
    if pieces == [] then if step != 3 then v.(state := Error) else v
    else
      var v' := TakePiece(v, step, pieces[0]);
      if v'.state == Error then v' else TakePieces(v', step + 1, pieces[1..])
  }

  function TakeRequestLine(v: View, line: string): View {
    TakePieces(v, 0, Split(line))
  }

  // ---- Headers ----

  function TrimLeft(s: string): string {
    if s != "" && s[0] == ' ' then TrimLeft(s[1..]) else s
  }

  function TrimRight(s: string): string {
    if s != "" && s[|s| - 1] == ' ' then TrimRight(s[..|s| - 1]) else s
  }

  function Trim(s: string): string {
    TrimLeft(TrimRight(s))
  }

  /** A header line without its line end. */
  function TakeHeader(v: View, line: string): View {
    var k := Find(line, ':');
    v.(headers := v.headers + [if k < |line| then (line[..k], Trim(line[k + 1..])) else (line, "")])
  }

  /** `multimap::find`: the first of the headers with this name. */
  function Lookup(hs: seq<Header>, name: string): Option<string> {
    if hs == [] then None else if hs[0].0 == name then Some(hs[0].1) else Lookup(hs[1..], name)
  }

  function ValuesOf(hs: seq<Header>, name: string): seq<string> {
    if hs == [] then [] else (if hs[0].0 == name then [hs[0].1] else []) + ValuesOf(hs[1..], name)
  }

  function WithoutName(hs: seq<Header>, name: string): seq<Header> {
    if hs == [] then [] else (if hs[0].0 == name then [] else [hs[0]]) + WithoutName(hs[1..], name)
  }

  predicate IsDigit(c: char) {
    '0' <= c <= '9'
  }

  predicate AllDigits(s: string) {
    s != "" && forall i :: 0 <= i < |s| ==> IsDigit(s[i])
  }

  /** The value that `std::stoul` reads. */
  function Number(s: string): nat {
    if s == "" then 0 else 10 * Number(s[..|s| - 1]) + if IsDigit(s[|s| - 1]) then s[|s| - 1] as int - '0' as int else 0
  }

  const CONTENT_LENGTH := "Content-Length"
  const COOKIE := "Cookie"

  function TakeCookies(v: View): View {
    v.(cookies := v.cookies + ValuesOf(v.headers, COOKIE), headers := WithoutName(v.headers, COOKIE))
  }

  /** The largest number `std::stoul` can return, and the largest body a string can reserve room for; beyond
      either, an exception leaves `parse`. */
  datatype Limits = Limits(ulong: nat, room: nat)

  /** The parser after a byte, and whether an exception was thrown. */
  datatype Result = Result(view: View, threw: bool)

  /** The empty line: `lineBuf` is just the line end. */
  function TakeEnd(v: View, limits: Limits): Result {
    match Lookup(v.headers, CONTENT_LENGTH)
    case None => Result(TakeCookies(v.(state := Done)).(lineBuf := ""), false)
    case Some(s) =>
      if !AllDigits(s) then Result(v.(state := Error), false)
      else if Number(s) > limits.ulong then Result(v, true)
      else if Number(s) > limits.room then Result(v.(contentLength := Number(s)), true)
      else
        var w := v.(contentLength := Number(s), state := if Number(s) > 0 then Body else Done);
        Result(TakeCookies(w).(lineBuf := ""), false)
  }

  // ---- One byte ----

  predicate EndsLine(s: string) {
    |s| >= 2 && s[|s| - 2] == '\r' && s[|s| - 1] == '\n'
  }

  function Step(v: View, c: char, limits: Limits): Result {
    match v.state
    case RequestLine =>
      var w := v.(lineBuf := v.lineBuf + [c]);
      if EndsLine(w.lineBuf) then
        var t := TakeRequestLine(w, w.lineBuf[..|w.lineBuf| - 2]).(lineBuf := "");
        Result(if t.state == Error then t else t.(state := Headers), false)
      else Result(w, false)
    case Headers =>
      var w := v.(lineBuf := v.lineBuf + [c]);
      if EndsLine(w.lineBuf) then
        if w.lineBuf == "\r\n" then TakeEnd(w, limits)
        else Result(TakeHeader(w, w.lineBuf[..|w.lineBuf| - 2]).(lineBuf := ""), false)
      else Result(w, false)
    case Body =>
      Result(v.(body := v.body + [c], bodyBytesRead := v.bodyBytesRead + 1,
                state := if v.bodyBytesRead + 1 >= v.contentLength then Done else Body), false)
    case Done => Result(v, false)
    case Error => Result(v, false)
  }

  /** All bytes of `s`, up to the one that throws. */
  function Run(v: View, s: string, limits: Limits): Result
    decreases |s|
  {
    if s == "" then Result(v, false)
    else
      var r := Step(v, s[0], limits);
      if r.threw then r else Run(r.view, s[1..], limits)
  }

  /** Feeding the bytes in two pieces is feeding them at once. */
  lemma {:induction false} RunConcat(v: View, x: string, y: string, limits: Limits)
    ensures var r := Run(v, x, limits); Run(v, x + y, limits) == if r.threw then r else Run(r.view, y, limits)
    decreases |x|
  {
    hide Step;
    if x == "" {
      assert x + y == y;
    } else {
      var r := Step(v, x[0], limits);
      assert (x + y)[1..] == x[1..] + y;
      if !r.threw {
        RunConcat(r.view, x[1..], y, limits);
      }
    }
  }

  function Concat(chunks: seq<string>): string {
    if chunks == [] then "" else chunks[0] + Concat(chunks[1..])
  }

  /** The chunks of a connection, one call of `parse` each. */
  function RunChunks(v: View, chunks: seq<string>, limits: Limits): Result
    decreases |chunks|
  {
    if chunks == [] then Result(v, false)
    else
      var r := Run(v, chunks[0], limits);
      if r.threw then r else RunChunks(r.view, chunks[1..], limits)
  }

  /** It does not matter how the bytes are split. */
  lemma {:induction false} ChunksDoNotMatter(v: View, chunks: seq<string>, limits: Limits)
    ensures RunChunks(v, chunks, limits) == Run(v, Concat(chunks), limits)
    decreases |chunks|
  {
    hide Step;
    if chunks != [] {
      RunConcat(v, chunks[0], Concat(chunks[1..]), limits);
      var r := Run(v, chunks[0], limits);
      if !r.threw {
        ChunksDoNotMatter(r.view, chunks[1..], limits);
      }
    }
  }

  /** `Done` and `Error` are final. */
  lemma {:induction false} Final(v: View, s: string, limits: Limits)
    requires v.state == Done || v.state == Error
    ensures Run(v, s, limits) == Result(v, false)
    decreases |s|
  {
    if s != "" {
      Final(v, s[1..], limits);
    }
  }

  // ---- The length of the body ----

  ghost predicate BodyOk(v: View) {
    && v.bodyBytesRead == |v.body|
    && (v.state == RequestLine ==> v.headers == [])
    && (v.state == RequestLine || v.state == Headers ==> v.body == "")
    && (Lookup(v.headers, CONTENT_LENGTH) == None ==> v.contentLength == 0)
    && (v.state == Body ==> |v.body| < v.contentLength)
    && (v.state == Done ==> |v.body| == v.contentLength)
    && (v.state == Error ==> v.body == "")
  }

  lemma {:induction false} LookupAppend(hs: seq<Header>, h: Header, name: string)
    ensures Lookup(hs + [h], name) ==
            if Lookup(hs, name) != None then Lookup(hs, name) else if h.0 == name then Some(h.1) else None
  {
    if hs != [] {
      assert (hs + [h])[1..] == hs[1..] + [h];
      LookupAppend(hs[1..], h, name);
    }
  }

  lemma {:induction false} LookupWithout(hs: seq<Header>, name: string, other: string)
    requires name != other
    ensures Lookup(WithoutName(hs, other), name) == Lookup(hs, name)
  {
    if hs != [] {
      LookupWithout(hs[1..], name, other);
      if hs[0].0 == other {
        assert WithoutName(hs, other) == WithoutName(hs[1..], other);
      } else {
        assert WithoutName(hs, other)[1..] == WithoutName(hs[1..], other);
      }
    }
  }

  /** The request line does not touch what the body is about. */
  lemma {:induction false} PiecesKeep(v: View, step: nat, pieces: seq<string>)
    ensures var t := TakePieces(v, step, pieces);
            && t.body == v.body && t.bodyBytesRead == v.bodyBytesRead && t.contentLength == v.contentLength
            && t.headers == v.headers && t.cookies == v.cookies && (t.state == v.state || t.state == Error)
    decreases |pieces|
  {
    if pieces != [] {
      var v' := TakePiece(v, step, pieces[0]);
      if v'.state != Error {
        PiecesKeep(v', step + 1, pieces[1..]);
      }
    }
  }

  lemma StepKeepsBody(v: View, c: char, limits: Limits)
    requires BodyOk(v)
    ensures BodyOk(Step(v, c, limits).view)
  {
    hide Split, TakePieces, Trim, Find, Number, AllDigits;
    var w := v.(lineBuf := v.lineBuf + [c]);
    match v.state
    case RequestLine =>
      if EndsLine(w.lineBuf) {
        PiecesKeep(w, 0, Split(w.lineBuf[..|w.lineBuf| - 2]));
      }
    case Headers =>
      if EndsLine(w.lineBuf) {
        assert CONTENT_LENGTH != COOKIE by { assert |CONTENT_LENGTH| != |COOKIE|; }
        LookupWithout(v.headers, CONTENT_LENGTH, COOKIE);
        var line := w.lineBuf[..|w.lineBuf| - 2];
        var k := Find(line, ':');
        LookupAppend(v.headers, if k < |line| then (line[..k], Trim(line[k + 1..])) else (line, ""), CONTENT_LENGTH);
      }
    case _ =>
  }

  /** In every reachable state the bytes read are the body, never more than declared, and all of it at `Done`. */
  lemma {:induction false} RunKeepsBody(v: View, s: string, limits: Limits)
    requires BodyOk(v)
    ensures BodyOk(Run(v, s, limits).view)
    decreases |s|
  {
    hide Step, BodyOk;
    if s != "" {
      StepKeepsBody(v, s[0], limits);
      var r := Step(v, s[0], limits);
      if !r.threw {
        RunKeepsBody(r.view, s[1..], limits);
      }
    }
  }
}
