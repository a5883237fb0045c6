/** `FHttpParser`: the request parser that is fed one buffer after another. */
module HttpParser {
  import opened HttpMessage

  const NUL := '\0'

  /** `FBufferReader`: the readable bytes of a buffer. */
  class BufferReader {
    const data: string
    var readIdx: nat

    constructor (s: string)
      ensures data == s && readIdx == 0
    {
      data, readIdx := s, 0;
    }

    ghost predicate Valid()
      reads this
    {
      readIdx <= |data|
    }

    function Rest(): string
      requires Valid()
      reads this
    {
      data[readIdx..]
    }

    /** `readNext`: a NUL when there is nothing left, and also when a NUL is there. */
    method ReadNext() returns (c: char)
      requires Valid()
      modifies this
      ensures Valid()
      ensures old(Rest()) == "" ==> c == NUL && Rest() == ""
      ensures old(Rest()) != "" ==> c == old(Rest())[0] && readIdx == old(readIdx) + 1 && Rest() == old(Rest())[1..]
    {
      if readIdx < |data| {
        c := data[readIdx];
        readIdx := readIdx + 1;
      } else {
        c := NUL;
      }
    }
  }

  /** The bytes that `parse` works on: it stops at a NUL. */
  function Text(s: string): string {
    s[..Find(s, NUL)]
  }

  /** How many bytes one call of `parse` reads: a NUL is read too, and one byte too many once the parser is done. */
  function Consumed(v: View, s: string, limits: Limits): (n: nat)
    ensures n <= |s|
    decreases |s|
  {
    if s == "" then 0
    else if s[0] == NUL || v.state == Done || v.state == Error then 1
    else
      var r := Step(v, s[0], limits);
      if r.threw || r.view.state == Error then 1 else 1 + Consumed(r.view, s[1..], limits)
  }

  /** Without a NUL the whole buffer is parsed. */
  lemma TextWhole(s: string)
    requires NUL !in s
    ensures Text(s) == s
  {
  }

  lemma TextFront(s: string)
    requires s != "" && s[0] != NUL
    ensures Text(s) == [s[0]] + Text(s[1..])
  {
  }

  lemma RunText(v: View, s: string, limits: Limits)
    requires s != "" && s[0] != NUL
    ensures Run(v, Text(s), limits)
         == var r := Step(v, s[0], limits); if r.threw then r else Run(r.view, Text(s[1..]), limits)
  {
    hide Step;
    TextFront(s);
    assert Text(s)[1..] == Text(s[1..]);
  }

  // ---- Blanks ----

  lemma {:induction false} TrimLeftAt(s: string, k: nat)
    requires k <= |s| && (forall i :: 0 <= i < k ==> s[i] == ' ') && (k < |s| ==> s[k] != ' ')
    ensures TrimLeft(s) == s[k..]
  {
    if k > 0 {
      TrimLeftAt(s[1..], k - 1);
    }
  }

  lemma {:induction false} TrimRightAt(s: string, k: nat)
    requires k <= |s| && (forall i :: k <= i < |s| ==> s[i] == ' ') && (k > 0 ==> s[k - 1] != ' ')
    ensures TrimRight(s) == s[..k]
  {
    if k < |s| {
      TrimRightAt(s[..|s| - 1], k);
      assert s[..|s| - 1][..k] == s[..k];
    } else {
      assert s[..k] == s;
    }
  }

  /** `trimSpaces` */
  method TrimSpaces(s: string) returns (t: string)
    ensures t == Trim(s)
  {
    var first := 0;
    while first < |s| && s[first] == ' '
      invariant first <= |s| && forall i :: 0 <= i < first ==> s[i] == ' '
    {
      first := first + 1;
    }
    if first == |s| {
      TrimRightAt(s, 0);
      TrimLeftAt("", 0);
      return "";
    }
    var last := |s| - 1;
    while s[last] == ' '
      invariant first <= last < |s| && forall i :: last < i < |s| ==> s[i] == ' '
      decreases last
    {
      last := last - 1;
    }
    TrimRightAt(s, last + 1);
    t := s[..last + 1];
    TrimLeftAt(t, first);
    t := t[first..];
  }

  /** `isAllDigits` */
  method IsAllDigits(s: string) returns (digits: bool)
    ensures digits == AllDigits(s)
  {
    if s == "" {
      return false;
    }
    for i := 0 to |s|
      invariant forall k :: 0 <= k < i ==> IsDigit(s[k])
    {
      if !IsDigit(s[i]) {
        return false;
      }
    }
    return true;
  }

  lemma {:induction false} FindBehind(s: string, t: string, c: char)
    requires c !in s
    ensures Find(s + t, c) == |s| + Find(t, c)
  {
    if s == "" {
      assert s + t == t;
    } else {
      assert (s + t)[1..] == s[1..] + t;
      FindBehind(s[1..], t, c);
    }
  }

  /** The piece before a blank. */
  lemma SplitAtBlank(piece: string, rest: string)
    requires ' ' !in piece
    ensures Split(piece + [' '] + rest) == [piece] + Split(rest)
    ensures Split(piece) == [piece]
  {
    var s := piece + [' '] + rest;
    FindBehind(piece, [' '] + rest, ' ');
    assert s == piece + ([' '] + rest);
    assert s[..|piece|] == piece && s[|piece| + 1..] == rest;
    FindBehind(piece, "", ' ');
    assert piece + "" == piece;
  }

  class Parser {
    var state: State
    var lineBuf: string
    var contentLength: nat
    var bodyBytesRead: nat
    var verb: Method
    var path: string
    var query: Option<string>
    var version: Version
    var body: string
    var headers: seq<Header>
    var cookies: seq<string>
    const limits: Limits

    constructor (l: Limits)
      ensures Snapshot() == INITIAL && limits == l
    {
      state, lineBuf, contentLength, bodyBytesRead := RequestLine, "", 0, 0;
      verb, path, query, version, body, headers, cookies := GET, "", None, Unknown, "", [], [];
      limits := l;
    }

    function Snapshot(): View
      reads this
    {
      View(state, lineBuf, contentLength, bodyBytesRead, verb, path, query, version, body, headers, cookies)
    }

    /** `parseQuery` */
    method ParseQuery(line: string)
      modifies this`path, this`query
      ensures Snapshot() == TakePath(old(Snapshot()), line)
    {
      path := line;
      var qm := Find(line, '?');
      if qm == |line| {
        return;
      }
      var q := line[qm + 1..];
      path := line[..qm];
      query := Some(q[..Find(q, '#')]);
    }

    /** One piece of the request line: the `switch` of `parseRequestLine`. */
    method ParsePiece(step: nat, piece: string)
      requires state == RequestLine
      modifies this`state, this`verb, this`path, this`query, this`version
      ensures Snapshot() == TakePiece(old(Snapshot()), step, piece) && (state == RequestLine || state == Error)
    {
      if step == 0 {
        var m := StringToMethod(piece);
        if m == Invalid {
          state := Error;
        } else {
          verb := m;
        }
      } else if step == 1 {
        ParseQuery(piece);
      } else if step == 2 {
        if piece == "HTTP/1.1" {
          version := Http11;
        } else if piece == "HTTP/1.0" {
          version := Http10;
        } else {
          state := Error;
        }
      }
    }

    /** `parseRequestLine` */
    method ParseRequestLine(line: string)
      requires state == RequestLine
      modifies this`state, this`verb, this`path, this`query, this`version
      ensures Snapshot() == TakeRequestLine(old(Snapshot()), line)
    {
      hide Split, TakePiece, Find, StringToMethod;
      var curBuffer, step, i := "", 0, 0;
      ghost var want := TakeRequestLine(Snapshot(), line);
      assert "" + line[0..] == line;
      while i < |line|
        invariant 0 <= i <= |line| && 0 <= step && ' ' !in curBuffer && state == RequestLine
        invariant TakePieces(Snapshot(), step, Split(curBuffer + line[i..])) == want
      {
        var c := line[i];
        assert line[i..] == [c] + line[i + 1..];
        if c == ' ' {
          SplitAtBlank(curBuffer, line[i + 1..]);
          assert curBuffer + line[i..] == curBuffer + [' '] + line[i + 1..];
          NextPiece(Snapshot(), step, curBuffer, Split(line[i + 1..]));
          ParsePiece(step, curBuffer);
          if state == Error {
            return;
          }
          step := step + 1;
          curBuffer := "";
          assert "" + line[i + 1..] == line[i + 1..];
          assert TakePieces(Snapshot(), step, Split(curBuffer + line[i + 1..])) == want;
        } else {
          assert curBuffer + line[i..] == curBuffer + [c] + line[i + 1..];
          curBuffer := curBuffer + [c];
          assert TakePieces(Snapshot(), step, Split(curBuffer + line[i + 1..])) == want;
        }
        i := i + 1;
      }
      assert curBuffer + line[i..] == curBuffer;
      SplitAtBlank(curBuffer, "");
      NextPiece(Snapshot(), step, curBuffer, []);
      assert [curBuffer] + [] == [curBuffer];
      ParsePiece(step, curBuffer);
      if state == Error {
        return;
      }
      step := step + 1;
      if step != 3 {
        state := Error;
      }
    }

    /** A header line, without its line end. */
    method ParseHeader(line: string)
      modifies this`headers
      ensures Snapshot() == TakeHeader(old(Snapshot()), line)
    {
      var pos := Find(line, ':');
      if pos < |line| {
        var value := TrimSpaces(line[pos + 1..]);
        headers := headers + [(line[..pos], value)];
      } else {
        headers := headers + [(line, "")];
      }
    }

    /** The end of the headers. */
    method EndHeaders() returns (threw: bool)
      modifies this`state, this`contentLength, this`cookies, this`headers, this`lineBuf
      ensures Result(Snapshot(), threw) == TakeEnd(old(Snapshot()), limits)
    {
      hide Lookup, AllDigits, Number, ValuesOf, WithoutName;
      threw := false;
      var it := Lookup(headers, CONTENT_LENGTH);
      if it.Some? {
        var digits := IsAllDigits(it.value);
        if !digits {
          state := Error;
          return;
        }
        if Number(it.value) > limits.ulong {
          return true;
        }
        contentLength := Number(it.value);
        if contentLength > limits.room {
          return true;
        }
        state := if contentLength > 0 then Body else Done;
      } else {
        state := Done;
      }
      cookies := cookies + ValuesOf(headers, COOKIE);
      headers := WithoutName(headers, COOKIE);
      lineBuf := "";
    }

    /** The body of the loop of `parse`. */
    method ParseByte(c: char) returns (threw: bool)
      modifies this
      ensures Result(Snapshot(), threw) == Step(old(Snapshot()), c, limits)
    {
      hide TakeRequestLine, TakeHeader, TakeEnd;
      threw := false;
      match state {
        case RequestLine =>
          lineBuf := lineBuf + [c];
          if EndsLine(lineBuf) {
            ParseRequestLine(lineBuf[..|lineBuf| - 2]);
            lineBuf := "";
            if state != Error {
              state := Headers;
            }
          }
        case Headers =>
          lineBuf := lineBuf + [c];
          if EndsLine(lineBuf) {
            if lineBuf == "\r\n" {
              threw := EndHeaders();
            } else {
              ParseHeader(lineBuf[..|lineBuf| - 2]);
              lineBuf := "";
            }
          }
        case Body =>
          body := body + [c];
          bodyBytesRead := bodyBytesRead + 1;
          if bodyBytesRead >= contentLength {
            state := Done;
          }
        case Done =>
        case Error =>
      }
    }

    /** `parse`: what it makes of the buffer depends only on the bytes before a NUL, and not on how they came. */
    method Parse(buffer: BufferReader) returns (ok: bool, threw: bool)
      requires buffer.Valid()
      modifies this, buffer
      ensures buffer.Valid()
      ensures Result(Snapshot(), threw) == Run(old(Snapshot()), Text(old(buffer.Rest())), limits)
      ensures buffer.readIdx == old(buffer.readIdx) + Consumed(old(Snapshot()), old(buffer.Rest()), limits)
      ensures !threw ==> ok == (state == Done)
    {
      hide Step;
      ghost var (v0, s0) := (Snapshot(), buffer.Rest());
      threw := false;
      while true
        invariant buffer.Valid() && !threw
        invariant Run(Snapshot(), Text(buffer.Rest()), limits) == Run(v0, Text(s0), limits)
        invariant buffer.readIdx + Consumed(Snapshot(), buffer.Rest(), limits) ==
                  old(buffer.readIdx) + Consumed(v0, s0, limits)
        decreases |buffer.Rest()|
      {
        ghost var rest := buffer.Rest();
        var c := buffer.ReadNext();
        if c == NUL {
          break;
        }
        if state == Done || state == Error {
          Final(Snapshot(), Text(rest), limits);
          break;
        }
        RunText(Snapshot(), rest, limits);
        threw := ParseByte(c);
        if threw {
          return false, true;
        }
        if state == Error {
          Final(Snapshot(), Text(rest[1..]), limits);
          return false, false;
        }
      }
      ok := state == Done;
    }
  }

  /** One call of `parse` for each buffer that arrives, as long as no exception is thrown: what becomes of the parser
      depends on the bytes alone, and not on how they were split. */
  method FeedAll(p: Parser, chunks: seq<string>) returns (threw: bool)
    requires forall i :: 0 <= i < |chunks| ==> NUL !in chunks[i]
    modifies p
    ensures Result(p.Snapshot(), threw) == Run(old(p.Snapshot()), Concat(chunks), p.limits)
  {
    hide Run, Step, Concat;
    threw := false;
    assert chunks[0..] == chunks;
    for i := 0 to |chunks|
      invariant !threw
      invariant RunChunks(p.Snapshot(), chunks[i..], p.limits) == RunChunks(old(p.Snapshot()), chunks, p.limits)
    {
      var buffer := new BufferReader(chunks[i]);
      assert buffer.Rest() == chunks[i] && chunks[i..][1..] == chunks[i + 1..];
      TextWhole(chunks[i]);
      ghost var before := p.Snapshot();
      var ok;
      ok, threw := p.Parse(buffer);
      assert Result(p.Snapshot(), threw) == Run(before, chunks[i], p.limits);
      if threw {
        break;
      }
    }
    ChunksDoNotMatter(old(p.Snapshot()), chunks, p.limits);
  }

  lemma NextPiece(v: View, step: nat, piece: string, rest: seq<string>)
    ensures TakePieces(v, step, [piece] + rest)
         == var v' := TakePiece(v, step, piece); if v'.state == Error then v' else TakePieces(v', step + 1, rest)
  {
    hide TakePiece;
    assert ([piece] + rest)[1..] == rest;
  }
}
