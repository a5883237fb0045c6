/** `tdefl_compress_normal`: lazy parsing of the input into literals and matches. */
module LzParser {
  import opened LzRecords
  import opened LzWindow
  import opened LzCodeBuffer
  import opened Bits
  import opened BitStream
  import opened StoredBlock
  import opened DeflateBlock
  import opened DeflateStream
  import opened ZlibContainer
  import Adler32
  import DynamicHeader

  const LONG_MATCH: nat := 128
  const FAR: nat := 8192

  /** The records expand to the input up to `p`, less one byte while a match is saved. */
  ghost predicate Parsed(rs: seq<Record>, input: seq<nat>, p: nat, savedLen: nat, savedDist: nat, savedLit: nat) {
    && RecordsOk(rs) && p <= |input| && (forall i :: 0 <= i < |input| ==> input[i] < 256)
    && if savedLen == 0 then Expand(rs) == input[..p]
       else
         && p >= 1 && Expand(rs) == input[..p - 1] && savedLit == input[p - 1]
         && MIN_MATCH <= savedLen < LONG_MATCH && savedDist <= DICT_SIZE
         && TrueMatch(input, p - 1, savedDist, savedLen)
  }

  lemma BufferSizes(c: CodeBuffer)
    requires c.Valid()
    ensures c.litCounts.Length == 288 && c.distCounts.Length == 32
    ensures c.buf != c.litCounts && c.buf != c.distCounts && c.litCounts != c.distCounts
  {
  }

  lemma NothingParsed(input: seq<nat>)
    requires input == []
    ensures Parsed([], input, 0, 0, 0, 0) && Size([]) == 0
  {
  }

  lemma ParsedLater(rs: seq<Record>, input: seq<nat>, p: nat, savedLen: nat, savedDist: nat, savedLit: nat,
                    more: seq<nat>)
    requires Parsed(rs, input, p, savedLen, savedDist, savedLit) && forall i :: 0 <= i < |more| ==> more[i] < 256
    ensures Parsed(rs, input + more, p, savedLen, savedDist, savedLit)
  {
    hide Expand, RecordsOk;
    assert (input + more)[..p] == input[..p];
    if savedLen != 0 {
      assert (input + more)[..p - 1] == input[..p - 1];
      TrueMatchLater(input, more, p - 1, savedDist, savedLen);
    }
  }

  /** A literal for the byte at `p`. */
  lemma ParseLiteral(rs: seq<Record>, input: seq<nat>, p: nat)
    requires Parsed(rs, input, p, 0, 0, 0) && p < |input|
    ensures Parsed(rs + [Literal(input[p])], input, p + 1, 0, 0, 0)
  {
    hide Expand, RecordsOk;
    AppendRecord(rs, Literal(input[p]));
    assert input[..p + 1] == input[..p] + [input[p]];
  }

  lemma ParseMatch(rs: seq<Record>, input: seq<nat>, p: nat, dist: nat, len: nat)
    requires Parsed(rs, input, p, 0, 0, 0) && TrueMatch(input, p, dist, len)
    requires MIN_MATCH <= len <= MAX_MATCH && dist <= DICT_SIZE
    ensures Parsed(rs + [Match(len, dist)], input, p + len, 0, 0, 0)
  {
    hide Expand, RecordsOk;
    CopyMatch(input, p, dist, len);
    AppendRecord(rs, Match(len, dist));
  }

  /** The literal that a saved match gives way to. */
  lemma ParseSavedLiteral(rs: seq<Record>, input: seq<nat>, p: nat, savedLen: nat, savedDist: nat, savedLit: nat)
    requires Parsed(rs, input, p, savedLen, savedDist, savedLit) && savedLen > 0
    ensures Parsed(rs + [Literal(savedLit)], input, p, 0, 0, 0)
  {
    hide Expand, RecordsOk, TrueMatch;
    assert Parsed(rs, input, p - 1, 0, 0, 0);
    ParseLiteral(rs, input, p - 1);
  }

  lemma ParseSavedMatch(rs: seq<Record>, input: seq<nat>, p: nat, savedLen: nat, savedDist: nat, savedLit: nat)
    requires Parsed(rs, input, p, savedLen, savedDist, savedLit) && savedLen > 0
    ensures Parsed(rs + [Match(savedLen, savedDist)], input, p + savedLen - 1, 0, 0, 0)
    ensures savedDist >= 1 && p + savedLen - 1 <= |input|
  {
    hide Expand, RecordsOk;
    assert Parsed(rs, input, p - 1, 0, 0, 0);
    ParseMatch(rs, input, p - 1, savedDist, savedLen);
  }

  lemma ParseSave(rs: seq<Record>, input: seq<nat>, p: nat, len: nat, dist: nat)
    requires Parsed(rs, input, p, 0, 0, 0) && TrueMatch(input, p, dist, len) && p < |input|
    requires MIN_MATCH <= len < LONG_MATCH && dist <= DICT_SIZE
    ensures Parsed(rs, input, p + 1, len, dist, input[p])
  {
    hide Expand, RecordsOk;
  }

  /** The literal, and what follows it for a longer match at `p`. */
  lemma ParseLonger(rs: seq<Record>, input: seq<nat>, p: nat, savedLen: nat, savedDist: nat, savedLit: nat, dist: nat,
                    len: nat)
    requires Parsed(rs, input, p, savedLen, savedDist, savedLit) && TrueMatch(input, p, dist, len)
    requires 0 < savedLen < len <= MAX_MATCH && dist <= DICT_SIZE
    ensures savedLit < 256 && RecordOk(Match(len, dist))
    ensures len >= LONG_MATCH ==>
              Parsed(rs + [Literal(savedLit)] + [Match(len, dist)], input, p + len, 0, savedDist, savedLit)
    ensures len < LONG_MATCH ==> p < |input| && Parsed(rs + [Literal(savedLit)], input, p + 1, len, dist, input[p])
  {
    hide Expand, RecordsOk;
    ParseSavedLiteral(rs, input, p, savedLen, savedDist, savedLit);
    if len >= LONG_MATCH {
      ParseMatch(rs + [Literal(savedLit)], input, p, dist, len);
    } else {
      ParseSave(rs + [Literal(savedLit)], input, p, len, dist);
    }
  }

  lemma {:induction false} ExpandSize(rs: seq<Record>)
    requires RecordsOk(rs)
    ensures |Expand(rs)| == Size(rs)
  {
    if rs != [] {
      var n := |rs| - 1;
      forall i | 0 <= i < n ensures rs[..n][..i] == rs[..i] {
      }
      ExpandSize(rs[..n]);
    }
  }

  /** What becomes of the output: `answer(k)` is what `tdefl_flush_block` returns for block `k`, negative when the
      callback fails, or the number of bytes that have not been taken; `fits(k)` says whether the block, compressed as
      it comes first, fits the output buffer. */
  datatype Output = Output(answer: nat -> int, fits: nat -> bool)

  /** The options that steer the parser, and the output. */
  datatype Options = Options(
    maxProbes0: nat, maxProbes1: nat, greedy: bool, rle: bool, raw: bool, fixed: bool, filter: bool, format: Format,
    output: Output)

  class Parser {
    const window: Window
    const codes: CodeBuffer
    const options: Options
    var savedLen: nat
    var savedDist: nat
    var savedLit: nat
    var codeBufDictPos: nat
    var blockIndex: nat
    const writer: BitWriter
    const lits: DynamicHeader.Table
    const dists: DynamicHeader.Table
    ghost var flushed: seq<Record>
    ghost var blocks: seq<Block>

    ghost function Memory(): set<object>
    {
      {this, window, window.dict, window.next, window.hash, codes, codes.buf, codes.litCounts, codes.distCounts,
       writer, lits.codeSizes, lits.codes, dists.codeSizes, dists.codes}
    }

    /** All records of the run. */
    ghost function Records(): seq<Record>
      reads this, codes
    {
      flushed + codes.Records()
    }

    ghost predicate Separate() {
      && {window.dict, window.next, window.hash} !! {codes.buf} + lits.Memory() + dists.Memory()
      && lits.Rows() && dists.Rows() && lits.freqs == codes.litCounts && dists.freqs == codes.distCounts
      && lits.Memory() !! dists.Memory() && codes.buf !in lits.Memory() + dists.Memory()
      && options.maxProbes0 >= 1 && options.maxProbes1 >= 1 && FormatOk(options.format)
    }

    /** What has been sent is the blocks of the records that have left the code buffer, behind the zlib header. */
    ghost predicate Sent()
      reads this`flushed, this`blocks, this`blockIndex, writer
    {
      && writer.Valid() && AllFaithful(blocks) && RecordsOf(blocks) == flushed && blockIndex == |blocks|
      && FormatOk(options.format) && writer.sent == SentFields(options.format, blocks)
    }

    ghost predicate NoneFinal()
      reads this`blocks
    {
      forall i :: 0 <= i < |blocks| ==> !blocks[i].final
    }

    ghost predicate Valid()
      reads Memory()
    {
      && Separate() && window.Valid() && codes.Valid() && codes.pos <= BUF_SIZE - 8
      && Parsed(Records(), window.input, window.lookaheadPos, savedLen, savedDist, savedLit)
      && codeBufDictPos == Size(flushed) && Sent() && NoneFinal()
    }

    constructor (w: Window, c: CodeBuffer, o: Options)
      requires w.Valid() && w.input == [] && c.Valid() && c.Records() == [] && c.pos == 1
      requires {w.dict, w.next, w.hash} !! {c.buf, c.litCounts, c.distCounts} && o.maxProbes0 >= 1 && o.maxProbes1 >= 1
      requires FormatOk(o.format)
      ensures Valid() && window == w && codes == c && options == o && Records() == [] && savedLen == 0
      ensures blockIndex == 0
      ensures fresh(Memory() - {w, w.dict, w.next, w.hash, c, c.buf, c.litCounts, c.distCounts})
    {
      hide AllFields, AllFaithful, RecordsOf, Stream, Width, Bytes, Fit, CountsOk, Holds, Expand, Parsed, Size, Pow2,
           Window.Valid, CodeBuffer.Valid;
      BufferSizes(c);
      InputSize(w);
      NoBlocks();
      NothingParsed(w.input);
      window, codes, options := w, c, o;
      savedLen, savedDist, savedLit, codeBufDictPos, blockIndex := 0, 0, 0, 0, 0;
      writer := new BitWriter();
      lits := new DynamicHeader.Table(c.litCounts);
      dists := new DynamicHeader.Table(c.distCounts);
      flushed, blocks := [], [];
    }

    /** What the search may come up with: nothing, or a true match. */
    ghost predicate Found(dist: nat, len: nat)
      reads this, window
    {
      if dist == 0 then len <= (if savedLen > 0 then savedLen else 2)
      else
        && MIN_MATCH <= len <= window.lookaheadSize && dist <= window.dictSize
        && TrueMatch(window.input, window.lookaheadPos, dist, len)
    }

    /** The longest repeat for the current position, before it is filtered: of the byte before in run-length mode, none
        when blocks are to be stored, and otherwise of more bytes than are saved, or than two, and of no fewer than any
        position that the chain leads to within the probes allowed. */
    ghost predicate Best(dist: nat, len: nat)
      reads this, window, window.next
      requires window.next.Length == DICT_SIZE && options.maxProbes0 >= 1 && options.maxProbes1 >= 1
    {
      var (input, p, most) := (window.input, window.lookaheadPos, window.lookaheadSize);
      var start := if savedLen != 0 then savedLen else MIN_MATCH - 1;
      if options.raw || (options.rle && window.dictSize == 0) then dist == 0 && len == start
      else if options.rle then
        if most < MIN_MATCH || !TrueMatch(input, p, 1, MIN_MATCH) then dist == 0 && len == 0
        else
          && dist == 1 && MIN_MATCH <= len <= most && TrueMatch(input, p, 1, len)
          && (len < most ==> !TrueMatch(input, p, 1, len + 1))
      else
        && ((dist == 0 && len == start)
            || (start < len <= most && 1 <= dist <= window.dictSize && TrueMatch(input, p, dist, len)))
        && forall d :: d in window.Candidates(options.maxProbes0, options.maxProbes1, start) ==>
             len >= most || !TrueMatch(input, p, d, len + 1)
    }

    /** A repeat is dropped when it is as short as can be and far away, when its distance happens to be the slot of the
        current position, and when short ones are filtered out. */
    ghost predicate Filtered(dist: nat, len: nat)
      reads window
    {
      (len == MIN_MATCH && dist >= FAR) || window.lookaheadPos % DICT_SIZE == dist || (options.filter && len <= 5)
    }

    /** Repeats of the byte before. */
    method RunLength() returns (len: nat)
      requires window.Valid() && window.dictSize > 0
      ensures len <= window.lookaheadSize && TrueMatch(window.input, window.lookaheadPos, 1, len)
      ensures len < window.lookaheadSize ==> !TrueMatch(window.input, window.lookaheadPos, 1, len + 1)
    {
      hide Chained;
      var pos := window.lookaheadPos % DICT_SIZE;
      var c := window.dict[(window.lookaheadPos - 1) % DICT_SIZE];
      ghost var (input, p) := (window.input, window.lookaheadPos);
      ReadAhead(window.dict[..], input, p - window.dictSize, |input|, p - 1, 0);
      len := 0;
      while len < window.lookaheadSize
        invariant len <= window.lookaheadSize && TrueMatch(input, p, 1, len)
        invariant forall i :: p - 1 <= i < p + len ==> input[i] == c
      {
        ReadAhead(window.dict[..], input, p - window.dictSize, |input|, p, len);
        if window.dict[pos + len] != c {
          assert input[p + len - 1] == c;
          break;
        }
        len := len + 1;
      }
    }

    /** The match for the current position in run-length mode. */
    method SearchRun() returns (dist: nat, len: nat)
      requires Valid() && window.lookaheadSize >= 1 && options.rle && !options.raw && window.dictSize != 0
      ensures window.next.Length == DICT_SIZE && Best(dist, len) && len <= window.lookaheadSize
      ensures dist == len == 0
              || (dist == 1 && len >= MIN_MATCH && TrueMatch(window.input, window.lookaheadPos, 1, len))
    {
      hide Parsed, TrueMatch, Holds, Chained;
      dist := 0;
      len := RunLength();
      Shorter(window.input, window.lookaheadPos, len);
      if len < MIN_MATCH {
        len := 0;
      } else {
        dist := 1;
      }
    }

    /** The match for the current position, filtered. */
    method Search() returns (dist: nat, len: nat, ghost d0: nat, ghost l0: nat)
      requires Valid() && window.lookaheadSize >= 1
      ensures Found(dist, len) && window.next.Length == DICT_SIZE && Best(d0, l0)
      ensures if Filtered(d0, l0) then dist == len == 0 else dist == d0 && len == l0
    {
      hide Parsed, TrueMatch, Holds, Chained, Window.Candidates, Sent, CodeBuffer.Valid;
      SavedRange(Records(), window.input, window.lookaheadPos, savedLen, savedDist, savedLit);
      dist, len := 0, if savedLen != 0 then savedLen else MIN_MATCH - 1;
      if options.rle || options.raw {
        if window.dictSize != 0 && !options.raw {
          dist, len := SearchRun();
        }
      } else {
        dist, len := window.FindMatch(options.maxProbes0, options.maxProbes1, dist, len);
      }
      d0, l0 := dist, len;
      if (len == MIN_MATCH && dist >= FAR) || window.lookaheadPos % DICT_SIZE == dist || (options.filter && len <= 5) {
        dist, len := 0, 0;
      }
    }

    /** Everything but how far the records have come. */
    ghost predicate Ready()
      reads Memory()
    {
      Separate() && window.Valid() && codes.Valid() && codeBufDictPos == Size(flushed)
    }

    ghost predicate ParsedTo(p: nat)
      reads this, window, codes
    {
      Parsed(Records(), window.input, p, savedLen, savedDist, savedLit)
    }

    ghost predicate LastIs(r: Record)
      reads this, codes
    {
      Records() != [] && Records()[|Records()| - 1] == r
    }

    method EmitLiteral(lit: nat)
      requires Ready() && lit < 256 && codes.pos + 2 <= BUF_SIZE
      modifies codes, codes.buf, codes.litCounts
      ensures Ready() && Records() == old(Records()) + [Literal(lit)] && codes.pos <= old(codes.pos) + 2
    {
      hide Holds, CountsOk;
      ghost var rs := codes.Records();
      codes.RecordLiteral(lit);
      assert flushed + (rs + [Literal(lit)]) == flushed + rs + [Literal(lit)];
    }

    method EmitMatch(len: nat, dist: nat)
      requires Ready() && RecordOk(Match(len, dist)) && codes.pos + 4 <= BUF_SIZE
      modifies codes, codes.buf, codes.litCounts, codes.distCounts
      ensures Ready() && Records() == old(Records()) + [Match(len, dist)] && codes.pos <= old(codes.pos) + 4
    {
      hide Holds, CountsOk;
      ghost var rs := codes.Records();
      codes.RecordMatch(len, dist);
      assert flushed + (rs + [Match(len, dist)]) == flushed + rs + [Match(len, dist)];
    }

    /** The match saved one byte earlier gives way to a longer one. */
    method EmitLonger(dist: nat, len: nat) returns (lenToMove: nat)
      requires Ready() && ParsedTo(window.lookaheadPos) && Found(dist, len) && 0 < savedLen < len
      requires window.lookaheadSize >= 1 && codes.pos <= BUF_SIZE - 8
      modifies this`savedLen, this`savedDist, this`savedLit, codes, codes.buf, codes.litCounts, codes.distCounts
      ensures Ready() && 1 <= lenToMove <= window.lookaheadSize && ParsedTo(window.lookaheadPos + lenToMove)
      ensures codes.pos <= BUF_SIZE - 2
      ensures if len >= LONG_MATCH then LastIs(Match(len, dist)) && savedLen == 0
              else LastIs(Literal(old(savedLit))) && savedLen == len && savedDist == dist
    {
      hide Parsed, TrueMatch, Holds, CountsOk, Stored, CodeBuffer.Valid;
      ParseLonger(Records(), window.input, window.lookaheadPos, savedLen, savedDist, savedLit, dist, len);
      EmitLiteral(savedLit);
      lenToMove := 1;
      if len >= LONG_MATCH {
        EmitMatch(len, dist);
        savedLen := 0;
        lenToMove := len;
      } else {
        SaveByte(dist, len);
      }
    }

    /** The current byte and match are put off by one round. */
    method SaveByte(dist: nat, len: nat)
      requires window.Valid() && window.lookaheadSize >= 1
      modifies this`savedLen, this`savedDist, this`savedLit
      ensures savedLit == window.input[window.lookaheadPos] && savedDist == dist && savedLen == len
    {
      ReadAhead(window.dict[..], window.input, window.lookaheadPos - window.dictSize, |window.input|,
        window.lookaheadPos, 0);
      savedLit := window.dict[window.lookaheadPos % DICT_SIZE];
      savedDist, savedLen := dist, len;
    }

    /** The saved match stands. */
    method EmitKept() returns (lenToMove: nat)
      requires Ready() && ParsedTo(window.lookaheadPos) && savedLen > 0 && codes.pos <= BUF_SIZE - 8
      modifies this`savedLen, codes, codes.buf, codes.litCounts, codes.distCounts
      ensures Ready() && 1 <= lenToMove <= window.lookaheadSize && ParsedTo(window.lookaheadPos + lenToMove)
      ensures codes.pos <= BUF_SIZE - 2
      ensures LastIs(Match(old(savedLen), old(savedDist))) && savedLen == 0
    {
      hide Expand, RecordsOk, TrueMatch, Holds, CountsOk, Stored;
      ghost var (rs, input, p) := (Records(), window.input, window.lookaheadPos);
      SavedRange(rs, input, p, savedLen, savedDist, savedLit);
      ParseSavedMatch(rs, input, p, savedLen, savedDist, savedLit);
      EmitMatch(savedLen, savedDist);
      lenToMove := savedLen - 1;
      savedLen := 0;
    }

    /** No match was saved. */
    method EmitFresh(dist: nat, len: nat) returns (lenToMove: nat)
      requires Ready() && ParsedTo(window.lookaheadPos) && Found(dist, len) && savedLen == 0
      requires window.lookaheadSize >= 1 && codes.pos <= BUF_SIZE - 8
      modifies this`savedLen, this`savedDist, this`savedLit, codes, codes.buf, codes.litCounts, codes.distCounts
      ensures Ready() && 1 <= lenToMove <= window.lookaheadSize && ParsedTo(window.lookaheadPos + lenToMove)
      ensures codes.pos <= BUF_SIZE - 2
      ensures if dist == 0 then LastIs(Literal(window.input[window.lookaheadPos])) && savedLen == 0
              else if options.greedy || options.rle || len >= LONG_MATCH then LastIs(Match(len, dist)) && savedLen == 0
              else Records() == old(Records()) && savedLen == len && savedDist == dist
    {
      hide Expand, RecordsOk, TrueMatch, Holds, CountsOk, Stored, CodeBuffer.Valid;
      ghost var (rs, input, p) := (Records(), window.input, window.lookaheadPos);
      assert Parsed(rs, input, p, 0, 0, 0);
      lenToMove := 1;
      if dist == 0 {
        ReadAhead(window.dict[..], input, p - window.dictSize, |input|, p, 0);
        ParseLiteral(rs, input, p);
        EmitLiteral(window.dict[window.lookaheadPos % DICT_SIZE]);
      } else if options.greedy || options.rle || len >= LONG_MATCH {
        ParseMatch(rs, input, p, dist, len);
        EmitMatch(len, dist);
        lenToMove := len;
      } else {
        ParseSave(rs, input, p, len, dist);
        SaveByte(dist, len);
      }
    }

    /** Of the match saved and the one found, the longer is written down or saved for the next round, and a literal is
        written only when there is neither or the longer one is still to come. */
    twostate predicate NothingLost(dist: nat, len: nat)
      reads this, window, codes
    {
      if old(savedLen) > 0 && len <= old(savedLen) then
        LastIs(Match(old(savedLen), old(savedDist))) && savedLen == 0
      else if old(savedLen) == 0 && dist == 0 then
        && old(window.lookaheadPos) < |window.input| && LastIs(Literal(window.input[old(window.lookaheadPos)]))
        && savedLen == 0
      else
        || (LastIs(Match(len, dist)) && savedLen == 0 && (len >= LONG_MATCH || options.greedy || options.rle))
        || (savedLen == len < LONG_MATCH && savedDist == dist)
    }

    /** The state machine: what is written now, and how far the lookahead moves. */
    method Emit(dist: nat, len: nat) returns (lenToMove: nat)
      requires Ready() && ParsedTo(window.lookaheadPos) && Found(dist, len)
      requires window.lookaheadSize >= 1 && codes.pos <= BUF_SIZE - 8
      modifies this`savedLen, this`savedDist, this`savedLit, codes, codes.buf, codes.litCounts, codes.distCounts
      ensures Ready() && 1 <= lenToMove <= window.lookaheadSize && ParsedTo(window.lookaheadPos + lenToMove)
      ensures codes.pos <= BUF_SIZE - 2
      ensures NothingLost(dist, len)
    {
      hide TrueMatch, Holds, CountsOk, Parsed, Found, Window.Valid, CodeBuffer.Valid;
      InputSize(window);
      if savedLen != 0 {
        if len > savedLen {
          lenToMove := EmitLonger(dist, len);
        } else {
          lenToMove := EmitKept();
        }
      } else {
        lenToMove := EmitFresh(dist, len);
      }
    }

    // ---- Sending a block ----

    /** What is known while a block is sent: the records of the block are in the finished code buffer. */
    ghost predicate Sending(gs: seq<seq<Record>>)
      reads Memory()
    {
      && Separate() && window.Valid() && writer.Valid() && Finished(codes, lits, dists, gs)
      && ParsedTo(window.lookaheadPos) && codeBufDictPos == Size(flushed)
      && Flatten(gs) == codes.Records() && codes.totalBytes == Size(codes.Records())
    }

    /** The block still is in the dictionary. */
    predicate InDictionary()
      reads this`codeBufDictPos, window
    {
      window.lookaheadPos - codeBufDictPos <= window.dictSize
    }

    /** The bytes of the block. */
    ghost function BlockBytes(): seq<nat>
      reads this, codes
      requires codeBufDictPos <= |Expand(Records())|
    {
      Expand(Records())[codeBufDictPos..]
    }

    /** Bytes of the dictionary, from `start` on. */
    method PutRaw(start: nat, n: nat, ghost data: seq<nat>)
      requires window.Valid() && writer.Valid()
      requires window.lookaheadPos - window.dictSize <= start && start + n <= |window.input|
      requires data == window.input[start..start + n]
      modifies writer
      ensures writer.Valid() && writer.sent == old(writer.sent) + ByteFields(data)
              && old(writer.output) <= writer.output
    {
      hide Stream, Width, Bytes, Fit, ByteFields, Pow2;
      ghost var before := writer.sent;
      StoredBlock.SmallPowers();
      NoBytes(data[..0], []);
      assert ByteFields(data[..0]) == [] && before + [] == before;
      for i := 0 to n
        invariant window.Valid() && writer.Valid() && old(writer.output) <= writer.output
        invariant writer.sent == before + ByteFields(data[..i])
      {
        ReadAhead(window.dict[..], window.input, window.lookaheadPos - window.dictSize, |window.input|, start + i, 0);
        MoreBytes(data, i);
        writer.PutBits(window.dict[(start + i) % DICT_SIZE], 8);
      }
      assert data[..n] == data;
    }

    /** The bytes of a stored block, taken from the dictionary. */
    method SendRaw(ghost gs: seq<seq<Record>>) returns (ghost form: Form)
      requires Sending(gs) && InDictionary()
      modifies writer
      ensures Sending(gs) && Faithful(form, flushed, codes.Records()) && old(writer.output) <= writer.output
      ensures form.Plain?
      ensures writer.sent == old(writer.sent) + FormFields(form, codes.Records(), Width(old(writer.sent)))
    {
      hide Expand, TrueMatch, Stored, RecordsOk, Stream, Width, Bytes, Fit, ByteFields, Padding, LengthWords, GroupsOk,
           Groups, Flatten, Pow2;
      BlockOfInput(flushed, codes.Records(), window.input, window.lookaheadPos, savedLen, savedDist, savedLit);
      ghost var (data, before) := (BlockBytes(), writer.sent);
      PutStoredHeader(writer, codes.totalBytes);
      PutRaw(codeBufDictPos, codes.totalBytes, data);
      form := Plain(data);
      assert writer.sent == before + StoredFields(data, Width(before));
    }

    /** Back to where the output was before an attempt. */
    method TakeBack(output: seq<nat>, bitBuffer: nat, bitsIn: nat, ghost sent: seq<Field>, ghost gs: seq<seq<Record>>)
      requires Sending(gs) && output <= writer.output
      requires BufferHolds(sent, output, bitBuffer, bitsIn) && bitsIn < 8
      modifies writer
      ensures Sending(gs) && writer.sent == sent && writer.output == output
    {
      hide Stream, Width, Bytes, Fit, Pow2, Groups, GroupsOk, Flatten, Expand, Parsed;
      writer.output, writer.bitBuffer, writer.bitsIn, writer.sent := output, bitBuffer, bitsIn, sent;
    }

    /** Whole bytes of the output once `more` has been sent behind `sent`, beyond those of before. */
    ghost function Grown(sent: seq<Field>, more: seq<Field>): int {
      (Width(sent) + Width(more)) / 8 - Width(sent) / 8
    }

    /** The choice between the forms of a block. `first` is the form that is tried first. */
    method SendForm(ghost gs: seq<seq<Record>>) returns (ghost form: Form, ghost first: Form)
      requires Sending(gs) && CountsOk(Flatten(gs), lits.freqs[..], dists.freqs[..]) && |Flatten(gs)| < 65535
      modifies writer, lits.freqs, lits.codeSizes, lits.codes, dists.codeSizes, dists.codes
      ensures Sending(gs) && Faithful(form, flushed, codes.Records()) && old(writer.output) <= writer.output
      ensures writer.sent == old(writer.sent) + FormFields(form, codes.Records(), Width(old(writer.sent)))
      ensures options.raw && InDictionary() ==> form.Plain?
      ensures !(options.raw && InDictionary()) ==>
                && Sendable(first, codes.Records()) && !first.Plain?
                && (first.Fixed? <==> options.fixed || codes.totalBytes < 48)
                && var growth := Grown(old(writer.sent), FormFields(first, codes.Records(), 0));
                   (form.Plain? <==> InDictionary() && codes.totalBytes > 0 && growth + 1 >= codes.totalBytes)
      ensures !form.Plain? ==> if options.output.fits(blockIndex) then form == first else form.Fixed?
    {
      hide Stream, Width, Bytes, Fit, Pow2, Groups, GroupsOk, Flatten, Expand, CountsOk, TrueMatch, RecordsOk, RecordOk,
           Sendable, FormFields, BlockOk;
      BlockRecords(flushed, codes.Records(), window.input, window.lookaheadPos, savedLen, savedDist, savedLit);
      var output, bitBuffer, bitsIn := writer.output, writer.bitBuffer, writer.bitsIn;
      ghost var sent := writer.sent;
      var useRaw, fits := options.raw && InDictionary(), true;
      first := Fixed;
      if !useRaw {
        first := Compressed(options.fixed || codes.totalBytes < 48, gs);
        form, fits := first, options.output.fits(blockIndex);
        GrownBytes(sent, FormFields(first, codes.Records(), 0), |output|, bitsIn, |writer.output|, writer.bitsIn);
      }
      var expanded := codes.totalBytes > 0 && |writer.output| - |output| + 1 >= codes.totalBytes;
      if (useRaw || expanded) && InDictionary() {
        TakeBack(output, bitBuffer, bitsIn, sent, gs);
        form := SendRaw(gs);
      } else if !fits {
        TakeBack(output, bitBuffer, bitsIn, sent, gs);
        form := Compressed(true, gs);
      }
    }

    lemma GrownBytes(sent: seq<Field>, more: seq<Field>, bytes0: nat, bits0: nat, bytes: nat, bits: nat)
      requires Width(sent) == 8 * bytes0 + bits0 && bits0 < 8 && Width(sent + more) == 8 * bytes + bits && bits < 8
      ensures Grown(sent, more) == bytes - bytes0
    {
      hide Width, Stream;
      StreamConcat(sent, more);
    }

    method Compressed(staticBlock: bool, ghost gs: seq<seq<Record>>) returns (ghost form: Form)
      requires Sending(gs) && forall i :: 0 <= i < |Flatten(gs)| ==> RecordOk(Flatten(gs)[i])
      requires !staticBlock ==> CountsOk(Flatten(gs), lits.freqs[..], dists.freqs[..]) && |Flatten(gs)| < 65535
      modifies writer, lits.freqs, lits.codeSizes, lits.codes, dists.codeSizes, dists.codes
      ensures Sending(gs) && Faithful(form, flushed, codes.Records()) && old(writer.output) <= writer.output
      ensures writer.sent == old(writer.sent) + FormFields(form, codes.Records(), Width(old(writer.sent)))
      ensures (form.Fixed? <==> staticBlock) && !form.Plain? && Sendable(form, codes.Records())
      ensures FormFields(form, codes.Records(), Width(old(writer.sent))) == FormFields(form, codes.Records(), 0)
    {
      hide Stream, Width, Bytes, Fit, Pow2, Groups, GroupsOk, Flatten, Expand, CountsOk, Parsed, RecordOk, Sendable,
           Window.Valid, Size;
      form := CompressBlock(writer, codes, lits, dists, staticBlock, gs);
    }

    /** The bits of a block, from its final bit on. */
    method SendFields(final: bool, ghost gs: seq<seq<Record>>) returns (ghost b: Block)
      requires Sending(gs) && CountsOk(Flatten(gs), lits.freqs[..], dists.freqs[..]) && |Flatten(gs)| < 65535
      modifies writer, lits.freqs, lits.codeSizes, lits.codes, dists.codeSizes, dists.codes
      ensures Sending(gs) && b.final == final && b.rs == codes.Records()
      ensures Faithful(b.form, flushed, b.rs) && Sendable(b.form, b.rs)
      ensures writer.sent == old(writer.sent) + BlockFields(b, Width(old(writer.sent)))
    {
      hide Parsed, Expand, CountsOk, Groups, GroupsOk, Flatten, Stream, Width, Bytes, Fit, Faithful, FormFields,
           Sendable, Pow2;
      ghost var sent := writer.sent;
      FinalPower();
      writer.PutBits(if final then 1 else 0, 1);
      StreamAppend(sent, FinalField(final));
      ghost var form, first := SendForm(gs);
      b := Block(final, form, codes.Records());
      FaithfulSends(form, flushed, b.rs);
      assert writer.sent == sent + BlockFields(b, Width(sent));
    }

    /** The end of a block: an empty buffer, and the records on the other side of it. */
    method NextBuffer(ghost b: Block)
      requires Separate() && window.Valid() && writer.Valid() && ParsedTo(window.lookaheadPos)
      requires codeBufDictPos == Size(flushed) && codes.totalBytes == Size(codes.Records()) && b.rs == codes.Records()
      requires AllFaithful(blocks) && RecordsOf(blocks) == flushed && Faithful(b.form, flushed, b.rs)
      requires blockIndex == |blocks| && Sendable(b.form, b.rs)
      requires var before := Header(options.format) + AllFields(blocks);
               writer.sent == before + BlockFields(b, Width(before))
      requires codes.litCounts.Length == 288 && codes.distCounts.Length == 32 && codes.buf.Length == BUF_SIZE
      requires forall i :: 0 <= i < BUF_SIZE ==> codes.buf[i] < 256
      modifies this`codeBufDictPos, this`blockIndex, this`flushed, this`blocks, codes, codes.litCounts, codes.distCounts
      ensures Ready() && Sent() && ParsedTo(window.lookaheadPos) && Records() == old(Records()) && codes.Records() == []
      ensures codes.pos == 1 && flushed == Records() && blocks == old(blocks) + [b]
      ensures blockIndex == old(blockIndex) + 1
    {
      hide Parsed, Expand, CountsOk, Groups, Stream, Width, Bytes, Fit, Faithful, FormFields, Sendable, AllFields,
           AllFaithful, RecordsOf, Size, Pow2;
      AddBlock(blocks, b);
      HeaderShift(options.format, blocks, b);
      SizeConcat(flushed, b.rs);
      codeBufDictPos := codeBufDictPos + codes.totalBytes;
      flushed := flushed + b.rs;
      blocks := blocks + [b];
      blockIndex := blockIndex + 1;
      codes.Reset();
      assert flushed + [] == flushed;
    }

    /** `tdefl_flush_block` up to its end for `TDEFL_FINISH`: the records leave the buffer as one block. */
    method SendBlock(final: bool)
      requires Ready() && Sent() && ParsedTo(window.lookaheadPos) && codes.pos <= BUF_SIZE - 2
      modifies this`codeBufDictPos, this`blockIndex, this`flushed, this`blocks
      modifies writer, codes, codes.buf, lits.freqs, lits.codeSizes, lits.codes
      modifies dists.freqs, dists.codeSizes, dists.codes
      ensures Ready() && Sent() && ParsedTo(window.lookaheadPos) && Records() == old(Records()) && codes.Records() == []
      ensures codes.pos == 1 && flushed == Records() && blockIndex == old(blockIndex) + 1
      ensures exists b :: blocks == old(blocks) + [b] && b.final == final
    {
      hide Parsed, Expand, CountsOk, Groups, GroupsOk, Flatten, Stream, Width, Bytes, Fit, Faithful, FormFields,
           Sendable, AllFields, AllFaithful, RecordsOf, BlockFields, Size, Pow2, Holds, FlagsAbove, Payloads;
      codes.Finish();
      ghost var gs := codes.AllGroups();
      if blockIndex == 0 {
        NothingSent(options.format, blocks);
        PutHeader(writer, options.format);
      }
      ghost var b := SendFields(final, gs);
      NextBuffer(b);
    }

    /** `tdefl_flush_block` from within the parsing loop. It returns 0 to go on, a number of bytes that have not been
        taken, or a negative error. */
    method FlushBlock() returns (n: int)
      requires Ready() && Sent() && NoneFinal() && ParsedTo(window.lookaheadPos) && codes.pos <= BUF_SIZE - 2
      modifies this`codeBufDictPos, this`blockIndex, this`flushed, this`blocks
      modifies writer, codes, codes.buf, lits.freqs, lits.codeSizes, lits.codes
      modifies dists.freqs, dists.codeSizes, dists.codes
      ensures Valid() && Records() == old(Records()) && codes.Records() == []
      ensures blockIndex == old(blockIndex) + 1 && n == options.output.answer(old(blockIndex))
    {
      hide Expand, RecordsOk, TrueMatch, Holds, CountsOk, Parsed, Sent;
      SendBlock(false);
      n := options.output.answer(blockIndex - 1);
    }

    /** `tdefl_flush_block` with `TDEFL_FINISH`: the final block, the bits up to the end of the last byte, and the
        checksum. */
    method Finish(adler: nat) returns (n: int)
      requires Valid() && adler < Adler32.WORD
      modifies this`codeBufDictPos, this`blockIndex, this`flushed, this`blocks
      modifies writer, codes, codes.buf, lits.freqs, lits.codeSizes, lits.codes
      modifies dists.freqs, dists.codeSizes, dists.codes
      ensures AllFaithful(blocks) && LastIsFinal(blocks) && RecordsOf(blocks) == old(Records())
      ensures writer.Valid() && writer.bitsIn == 0 && writer.sent == StreamFields(options.format, blocks, adler)
      ensures n == options.output.answer(old(blockIndex)) && |blocks| == old(blockIndex) + 1
    {
      hide Expand, RecordsOk, TrueMatch, Holds, CountsOk, Parsed, AllFields, AllFaithful, RecordsOf, Stream, Width,
           Bytes, Fit, Padding, Pow2, Header, Trailer;
      SendBlock(true);
      ghost var before := writer.sent;
      PutPadding(writer);
      PutTrailer(writer, options.format, adler);
      AfterHeader(options.format, AllFields(blocks));
      RegroupFour(Header(options.format), AllFields(blocks), Padding(Width(before)), Trailer(options.format, adler));
      n := options.output.answer(blockIndex - 1);
    }

    /** One round of the parsing loop after the dictionary update. */
    method Step() returns (n: int, ghost dist: nat, ghost len: nat, ghost d0: nat, ghost l0: nat)
      requires Valid() && window.lookaheadSize >= 1
      modifies this`savedLen, this`savedDist, this`savedLit, this`codeBufDictPos, this`blockIndex
      modifies this`flushed, this`blocks
      modifies window`lookaheadPos, window`lookaheadSize, window`dictSize
      modifies writer, codes, codes.buf, lits.freqs, lits.codeSizes, lits.codes
      modifies dists.freqs, dists.codeSizes, dists.codes
      ensures Valid() && window.input == old(window.input) && window.lookaheadPos > old(window.lookaheadPos)
      ensures old(window.next.Length == DICT_SIZE && Best(d0, l0))
      ensures if old(Filtered(d0, l0)) then dist == len == 0 else dist == d0 && len == l0
      ensures NothingLost(dist, len) && Answered(old(blockIndex), n)
    {
      hide Sent, NoneFinal, Expand, RecordsOk, TrueMatch, Holds, CountsOk, Parsed, CodeBuffer.Valid, Window.Valid, Best,
           Filtered;
      dist, len, d0, l0 := ParseNext();
      n := FlushIfFull();
    }

    /** The search, what is written down, and the move of the lookahead. */
    method ParseNext() returns (ghost dist: nat, ghost len: nat, ghost d0: nat, ghost l0: nat)
      requires Valid() && window.lookaheadSize >= 1
      modifies this`savedLen, this`savedDist, this`savedLit
      modifies window`lookaheadPos, window`lookaheadSize, window`dictSize
      modifies codes, codes.buf, codes.litCounts, codes.distCounts
      ensures Ready() && ParsedTo(window.lookaheadPos) && Sent() && NoneFinal() && codes.pos <= BUF_SIZE - 2
      ensures window.input == old(window.input) && window.lookaheadPos > old(window.lookaheadPos)
      ensures old(window.next.Length == DICT_SIZE && Best(d0, l0))
      ensures if old(Filtered(d0, l0)) then dist == len == 0 else dist == d0 && len == l0
      ensures NothingLost(dist, len)
    {
      hide Sent, NoneFinal, Expand, RecordsOk, TrueMatch, Holds, CountsOk, Parsed, CodeBuffer.Valid, Found, Best,
           Filtered, Chained;
      var bestDist, bestLen;
      bestDist, bestLen, d0, l0 := Search();
      dist, len := bestDist, bestLen;
      var lenToMove := Emit(bestDist, bestLen);
      window.Advance(lenToMove);
    }

    /** The blocks from `from` on have been taken, all but perhaps the last, which has been answered by `n`. */
    ghost predicate Answered(from: nat, n: int)
      reads `blockIndex
    {
      && from <= blockIndex
      && (forall k :: from <= k < blockIndex - 1 ==> options.output.answer(k) == 0)
      && n == if from < blockIndex then options.output.answer(blockIndex - 1) else 0
    }

    /** The code buffer is full, or the block is long and compresses badly. */
    method FlushIfFull() returns (n: int)
      requires Ready() && Sent() && NoneFinal() && ParsedTo(window.lookaheadPos) && codes.pos <= BUF_SIZE - 2
      modifies this`codeBufDictPos, this`blockIndex, this`flushed, this`blocks
      modifies writer, codes, codes.buf, lits.freqs, lits.codeSizes, lits.codes
      modifies dists.freqs, dists.codeSizes, dists.codes
      ensures Valid() && Records() == old(Records()) && Answered(old(blockIndex), n)
      ensures blockIndex == old(blockIndex) + 1 <==>
                || old(codes.pos) > BUF_SIZE - 8
                || (old(codes.totalBytes) > 31 * 1024
                    && (old(codes.pos) * 115 / 128 >= old(codes.totalBytes) || options.raw))
    {
      hide Sent, NoneFinal, Expand, RecordsOk, TrueMatch, Holds, CountsOk, Parsed, Window.Valid, CodeBuffer.Valid;
      n := 0;
      if codes.pos > BUF_SIZE - 8
         || (codes.totalBytes > 31 * 1024 && (codes.pos * 115 / 128 >= codes.totalBytes || options.raw)) {
        n := FlushBlock();
      }
    }

    /** Source bytes enter the lookahead. */
    method TakeIn(src: array<nat>, pos0: nat) returns (pos: nat)
      requires Valid() && pos0 <= src.Length && (forall i :: 0 <= i < src.Length ==> src[i] < 256)
      requires src !in Memory()
      modifies window, window.dict, window.next, window.hash
      ensures Valid() && pos0 <= pos <= src.Length && window.input == old(window.input) + src[pos0..pos]
      ensures window.lookaheadSize == old(window.lookaheadSize) + pos - pos0
              && window.lookaheadPos == old(window.lookaheadPos)
      ensures window.lookaheadSize == MAX_MATCH || pos == src.Length
    {
      hide Sent, NoneFinal, Expand, RecordsOk, TrueMatch, Holds, CountsOk, Parsed;
      ghost var was := window.input;
      var n := window.Fill(src, pos0, src.Length - pos0);
      pos := pos0 + n;
      ParsedLater(Records(), was, window.lookaheadPos, savedLen, savedDist, savedLit, src[pos0..pos]);
    }

    /** One round: `starved` when the lookahead is not full and no flush is asked for. */
    method Round(src: array<nat>, pos0: nat, flush: bool) returns (pos: nat, starved: bool, n: int)
      requires Valid() && pos0 <= src.Length && (forall i :: 0 <= i < src.Length ==> src[i] < 256)
      requires src !in Memory() && (pos0 < src.Length || (flush && window.lookaheadSize > 0))
      modifies this`savedLen, this`savedDist, this`savedLit, this`codeBufDictPos, this`blockIndex
      modifies this`flushed, this`blocks
      modifies window, window.dict, window.next, window.hash
      modifies writer, codes, codes.buf, lits.freqs, lits.codeSizes, lits.codes
      modifies dists.freqs, dists.codeSizes, dists.codes
      ensures Valid() && pos0 <= pos <= src.Length && window.input == old(window.input) + src[pos0..pos]
      ensures starved ==> !flush && pos == src.Length && n == 0
      ensures Answered(old(blockIndex), n)
      ensures !starved ==> src.Length - pos + window.lookaheadSize < src.Length - pos0 + old(window.lookaheadSize)
    {
      hide Sent, NoneFinal, Expand, RecordsOk, TrueMatch, Holds, CountsOk, Parsed;
      pos := TakeIn(src, pos0);
      starved, n := !flush && window.lookaheadSize < MAX_MATCH, 0;
      if !starved {
        ghost var dist, len, d0, l0;
        n, dist, len, d0, l0 := Step();
      }
    }

    /** `tdefl_compress_normal`: consumes source bytes from `pos0` on. Once all input is in and a flush is asked
        for, the records expand to all of it. */
    method Compress(src: array<nat>, pos0: nat, flush: bool) returns (pos: nat, n: int)
      requires Valid() && pos0 <= src.Length && (forall i :: 0 <= i < src.Length ==> src[i] < 256)
      requires src !in Memory()
      modifies this`savedLen, this`savedDist, this`savedLit, this`codeBufDictPos, this`blockIndex
      modifies this`flushed, this`blocks
      modifies window, window.dict, window.next, window.hash
      modifies writer, codes, codes.buf, lits.freqs, lits.codeSizes, lits.codes
      modifies dists.freqs, dists.codeSizes, dists.codes
      ensures Valid() && pos0 <= pos <= src.Length && window.input == old(window.input) + src[pos0..pos]
      ensures Answered(old(blockIndex), n) && (n == 0 ==> pos == src.Length)
      ensures n != 0 ==> src.Length - pos + window.lookaheadSize < src.Length - pos0 + old(window.lookaheadSize)
      ensures n == 0 && flush ==> Expand(Records()) == old(window.input) + src[pos0..]
    {
      hide Sent, NoneFinal, Expand, RecordsOk, TrueMatch, Window.Valid, CodeBuffer.Valid, Parsed;
      ghost var (input, bytes) := (window.input, src[..]);
      pos, n := pos0, 0;
      while pos < src.Length || (flush && window.lookaheadSize > 0)
        invariant Valid() && pos0 <= pos <= src.Length && window.input == input + bytes[pos0..pos] && src[..] == bytes
        invariant n == 0 && Answered(old(blockIndex), 0)
        invariant src.Length - pos + window.lookaheadSize <= src.Length - pos0 + old(window.lookaheadSize)
        decreases src.Length - pos + window.lookaheadSize
      {
        var next, starved;
        next, starved, n := Round(src, pos, flush);
        Onward(bytes, pos0, pos, next);
        assert src[..][pos..next] == src[pos..next];
        pos := next;
        if starved {
          break;
        }
        if n != 0 {
          return;
        }
      }
      assert bytes[pos0..pos] == src[pos0..pos];
      if flush {
        assert window.lookaheadPos == |window.input| by { InputSize(window); }
        AllParsed(Records(), window.input, savedLen, savedDist, savedLit);
        assert src[pos0..pos] == src[pos0..];
      }
    }
  }

  lemma InputSize(w: Window)
    requires w.Valid()
    ensures |w.input| == w.lookaheadPos + w.lookaheadSize
  {
  }

  lemma Onward(bytes: seq<nat>, a: nat, b: nat, c: nat)
    requires a <= b <= c <= |bytes|
    ensures bytes[a..c] == bytes[a..b] + bytes[b..c]
  {
  }

  lemma {:induction false} SizeConcat(rs: seq<Record>, more: seq<Record>)
    ensures Size(rs + more) == Size(rs) + Size(more)
  {
    if more == [] {
      assert rs + more == rs;
    } else {
      assert (rs + more)[..|rs + more| - 1] == rs + more[..|more| - 1];
      SizeConcat(rs, more[..|more| - 1]);
    }
  }

  /** No match can be saved at the end of the input. */
  lemma AllParsed(rs: seq<Record>, input: seq<nat>, savedLen: nat, savedDist: nat, savedLit: nat)
    requires Parsed(rs, input, |input|, savedLen, savedDist, savedLit)
    ensures savedLen == 0 && Expand(rs) == input
  {
    assert input[..|input|] == input;
  }

  /** The records of the current block stand for the input from the start of the block on. */
  lemma BlockOfInput(flushed: seq<Record>, block: seq<Record>, input: seq<nat>, p: nat, savedLen: nat, savedDist: nat,
                     savedLit: nat)
    requires Parsed(flushed + block, input, p, savedLen, savedDist, savedLit)
    ensures |Expand(flushed + block)| == Size(flushed) + Size(block) <= p && |Expand(flushed)| == Size(flushed)
    ensures Expand(flushed + block) <= input
    ensures Expand(flushed + block) == Expand(flushed) + Expand(flushed + block)[Size(flushed)..]
    ensures AreBytes(Expand(flushed + block)[Size(flushed)..])
  {
    hide Expand, TrueMatch, RecordsOk;
    SizeConcat(flushed, block);
    assert RecordsOk(flushed + block);
    ExpandSize(flushed + block);
    ExpandPrefix(flushed + block, |flushed|);
    assert (flushed + block)[..|flushed|] == flushed;
    OkPrefix(flushed + block, |flushed|);
    ExpandSize(flushed);
  }

  lemma BlockRecords(flushed: seq<Record>, block: seq<Record>, input: seq<nat>, p: nat, savedLen: nat, savedDist: nat,
                     savedLit: nat)
    requires Parsed(flushed + block, input, p, savedLen, savedDist, savedLit)
    ensures forall i :: 0 <= i < |block| ==> RecordOk(block[i])
  {
    hide Expand, TrueMatch, RecordOk;
    forall i | 0 <= i < |block| ensures RecordOk(block[i]) {
      assert (flushed + block)[|flushed| + i] == block[i];
    }
  }

  lemma OkPrefix(rs: seq<Record>, k: nat)
    requires RecordsOk(rs) && k <= |rs|
    ensures RecordsOk(rs[..k])
  {
    hide Expand, RecordOk;
    forall i | 0 <= i < k ensures rs[..k][..i] == rs[..i] && rs[..k][i] == rs[i] {
    }
  }

  lemma {:induction false} CopyPrefix(out: seq<nat>, len: nat, dist: nat)
    requires 1 <= dist <= |out|
    ensures out <= Copy(out, len, dist)
  {
    if len > 0 {
      CopyPrefix(out, len - 1, dist);
    }
  }

  lemma {:induction false} ExpandPrefix(rs: seq<Record>, k: nat)
    requires k <= |rs|
    ensures Expand(rs[..k]) <= Expand(rs)
  {
    if k == |rs| {
      assert rs[..k] == rs;
    } else {
      var front := rs[..|rs| - 1];
      ExpandPrefix(front, k);
      assert front[..k] == rs[..k];
      var r := rs[|rs| - 1];
      if r.Match? && 1 <= r.dist <= |Expand(front)| {
        CopyPrefix(Expand(front), r.len, r.dist);
      }
    }
  }

  lemma FinalPower()
    ensures Pow2(1) == 2
  {
  }

  /** A run that ends before three bytes is none of three, and one that does not has three. */
  lemma Shorter(input: seq<nat>, p: nat, len: nat)
    requires TrueMatch(input, p, 1, len) && p <= |input|
    ensures len >= MIN_MATCH ==> TrueMatch(input, p, 1, MIN_MATCH)
    ensures len < MIN_MATCH && !TrueMatch(input, p, 1, len + 1) ==> !TrueMatch(input, p, 1, MIN_MATCH)
  {
  }

  lemma SavedRange(rs: seq<Record>, input: seq<nat>, p: nat, savedLen: nat, savedDist: nat, savedLit: nat)
    requires Parsed(rs, input, p, savedLen, savedDist, savedLit)
    ensures savedLen == 0 || MIN_MATCH <= savedLen < LONG_MATCH
  {
  }

  /** Everything sent so far; the header goes out with the first block. */
  ghost function SentFields(format: Format, blocks: seq<Block>): seq<Field>
    requires FormatOk(format) && AllFaithful(blocks)
  {
    if blocks == [] then [] else Header(format) + AllFields(blocks)
  }

  lemma NothingSent(format: Format, blocks: seq<Block>)
    requires FormatOk(format) && blocks == []
    ensures AllFaithful(blocks) && SentFields(format, blocks) == []
            && Header(format) + AllFields(blocks) == [] + Header(format)
  {
  }

  /** The header is whole bytes, so padding is the same behind it. */
  lemma AfterHeader(format: Format, fs: seq<Field>)
    requires FormatOk(format)
    ensures Padding(Width(Header(format) + fs)) == Padding(Width(fs))
    ensures Width(Header(format) + fs) % 8 == Width(fs) % 8
  {
    hide Stream, Width, Header, Padding;
    StreamConcat(Header(format), fs);
    HeaderWidth(format);
    PaddingMod(Width(Header(format) + fs), Width(fs));
  }

  lemma PaddingMod(a: nat, b: nat)
    requires a % 8 == b % 8
    ensures Padding(a) == Padding(b) && Padding(a + 3) == Padding(b + 3)
  {
    assert (a + 3) % 8 == (a % 8 + 3) % 8 && (b + 3) % 8 == (b % 8 + 3) % 8;
  }

  lemma HeaderWidth(format: Format)
    requires FormatOk(format)
    ensures Width(Header(format)) % 8 == 0
  {
    WidthNone();
    if format.Zlib? {
      var flg := Field(Flg(format.level), 8);
      assert Header(format)[1..] == [flg];
      WidthOne(flg);
    }
  }

  lemma HeaderShift(format: Format, blocks: seq<Block>, b: Block)
    requires FormatOk(format) && AllFaithful(blocks) && Sendable(b.form, b.rs)
    ensures BlockFields(b, Width(Header(format) + AllFields(blocks))) == BlockFields(b, Width(AllFields(blocks)))
  {
    hide Stream, Width, AllFields, Header, Padding, Sendable, FormFields;
    AfterHeader(format, AllFields(blocks));
    FormShift(b.form, b.rs, Width(Header(format) + AllFields(blocks)), Width(AllFields(blocks)));
  }

  lemma FormShift(form: Form, rs: seq<Record>, x: nat, y: nat)
    requires Sendable(form, rs) && x % 8 == y % 8
    ensures FormFields(form, rs, x + 1) == FormFields(form, rs, y + 1)
  {
    hide Padding, ByteFields, LengthWords, AllCoded, BlockOk, BodyFields, EndField;
    PaddingMod(x, y);
    assert form.Plain? ==> StoredFields(form.data, x + 1) == StoredFields(form.data, y + 1);
  }

  lemma RegroupFour(a: seq<Field>, b: seq<Field>, c: seq<Field>, d: seq<Field>)
    ensures a + b + c + d == a + (b + (c + d))
  {
  }
}
