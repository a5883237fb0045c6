/** From input bytes to output bytes and back: `tdefl_compress` as its callers drive it to the end of the stream, and
    `tinfl_decompress` on what comes out. */
module Deflate {
  import opened Bits
  import opened BitStream
  import opened LzRecords
  import opened LzWindow
  import opened LzCodeBuffer
  import opened LzParser
  import opened DeflateStream
  import opened StoredBlock
  import opened ZlibContainer
  import Adler32

  ghost predicate OptionsOk(options: Options) {
    options.maxProbes0 >= 1 && options.maxProbes1 >= 1 && FormatOk(options.format)
  }

  /** What `packed` is: the bytes of a stream that stands for `data`. */
  ghost predicate Packs(packed: seq<nat>, format: Format, blocks: seq<Block>, data: seq<nat>) {
    && FormatOk(format) && AllFaithful(blocks) && LastIsFinal(blocks)
    && RecordsOk(RecordsOf(blocks)) && Expand(RecordsOf(blocks)) == data && AreBytes(data)
    && Adler32.Checksum(Adler32.INIT, data) < Adler32.WORD
    && Input(Bytes(packed), 8 * |packed|) == InputOf(StreamFields(format, blocks, Adler32.Checksum(Adler32.INIT, data)))
  }

  /** The checksum of the bytes that one call has consumed is added to that of those before. */
  method AddToChecksum(adler: nat, src: array<nat>, from: nat, to: nat) returns (sum: nat)
    requires from <= to <= src.Length && AreBytes(src[..]) && adler == Adler32.Checksum(Adler32.INIT, src[..from])
    requires adler < Adler32.WORD
    ensures sum == Adler32.Checksum(Adler32.INIT, src[..to]) && sum < Adler32.WORD
  {
    hide Adler32.Checksum, Adler32.AreBytes;
    ghost var (front, middle, all) := (src[..from], src[..][from..to], src[..to]);
    BytesFrom(src[..], from, to);
    assert all == front + middle && middle == src[from..to];
    var chunk := new nat[to - from];
    forall i | 0 <= i < to - from { chunk[i] := src[from + i]; }
    assert chunk[..] == middle && chunk[..to - from] == chunk[..];
    sum := Adler32.Update(adler, chunk, to - from);
    Adler32.ChecksumConcat(Adler32.INIT, front, middle);
    ChecksumWord(all);
    assert src[..to] == all;
  }

  lemma BytesFrom(b: seq<nat>, from: nat, to: nat)
    requires AreBytes(b) && from <= to <= |b|
    ensures Adler32.AreBytes(b[from..to])
  {
  }

  lemma ChecksumWord(b: seq<nat>)
    ensures Adler32.Checksum(Adler32.INIT, b) < Adler32.WORD
  {
    if b != [] {
      Adler32.DefinedBelow(Adler32.Sums(1, 0), b);
    }
  }

  /** One call of `tdefl_compress` up to the final block. */
  method CompressMore(p: Parser, src: array<nat>, pos: nat, adler: nat) returns (next: nat, sum: nat, n: int)
    requires p.Valid() && src !in p.Memory() && AreBytes(src[..]) && pos <= src.Length && p.window.input == src[..pos]
    requires adler == Adler32.Checksum(Adler32.INIT, src[..pos]) < Adler32.WORD
    modifies p.Memory()
    ensures p.Valid() && pos <= next <= src.Length && p.window.input == src[..next]
    ensures sum == Adler32.Checksum(Adler32.INIT, src[..next]) < Adler32.WORD
    ensures n != 0 ==> src.Length - next + p.window.lookaheadSize < src.Length - pos + old(p.window.lookaheadSize)
    ensures n == 0 ==> next == src.Length && Expand(p.Records()) == src[..]
    ensures p.Answered(old(p.blockIndex), n)
  {
    hide Adler32.Checksum, AreBytes, Expand, Parser.Valid, LzParser.Parser.Records;
    TablesOf(p);
    ByteArray(src);
    next, n := p.Compress(src, pos, true);
    assert src[..next] == src[..pos] + src[pos..next] && src[..] == src[..pos] + src[pos..];
    sum := AddToChecksum(adler, src, pos, next);
  }

  /** All blocks have been taken, at once or later; none has been answered by an error. */
  ghost predicate NoneFailed(output: Output, count: nat) {
    forall k :: 0 <= k < count ==> output.answer(k) >= 0
  }

  /** `tdefl_compress` with `TDEFL_FINISH`, called until all is done. It fails exactly when the output callback fails
      for one of the blocks. */
  method Compress(src: array<nat>, options: Options) returns (ok: bool, packed: seq<nat>, ghost blocks: seq<Block>)
    requires AreBytes(src[..]) && OptionsOk(options)
    ensures ok ==> Packs(packed, options.format, blocks, src[..])
    ensures ok <==> forall k :: 0 <= k < |blocks| ==> options.output.answer(k) >= 0
    ensures AllFaithful(blocks) && Expand(RecordsOf(blocks)) <= src[..]
  {
    hide Adler32.Checksum, AreBytes, Expand, Parser.Valid, Packs, LzParser.Parser.Records, Window.Valid,
         CodeBuffer.Valid, NoneFailed;
    var window := new Window();
    var codes := new CodeBuffer();
    var p := new Parser(window, codes, options);
    TablesOf(p);
    EmptyChecksum(src[..0]);
    NothingFailed(options.output);
    var pos, adler, n := 0, Adler32.INIT, 1;
    while n != 0
      invariant p.Valid() && fresh(p.Memory()) && pos <= src.Length && p.window.input == src[..pos]
      invariant adler == Adler32.Checksum(Adler32.INIT, src[..pos]) < Adler32.WORD
      invariant n == 0 ==> Expand(p.Records()) == src[..] && pos == src.Length
      invariant NoneFailed(options.output, p.blockIndex) && p.options == options
      decreases n != 0, src.Length - pos + p.window.lookaheadSize
    {
      ghost var before := p.blockIndex;
      pos, adler, n := CompressMore(p, src, pos, adler);
      MoreAnswered(p, before, n);
      SoFar(p);
      if n < 0 {
        Failing(options.output, p.blockIndex);
        return false, [], p.blocks;
      }
    }
    assert src[..pos] == src[..];
    ok, packed, blocks := FinishStream(p, adler, src[..]);
  }

  lemma NothingFailed(output: Output)
    ensures NoneFailed(output, 0)
  {
  }

  lemma MoreAnswered(p: Parser, before: nat, n: int)
    requires NoneFailed(p.options.output, before) && p.Answered(before, n)
    ensures n >= 0 ==> NoneFailed(p.options.output, p.blockIndex)
    ensures n < 0 ==> p.blockIndex > 0 && p.options.output.answer(p.blockIndex - 1) < 0
  {
  }

  lemma Failing(output: Output, count: nat)
    requires count > 0 && output.answer(count - 1) < 0
    ensures !forall k :: 0 <= k < count ==> output.answer(k) >= 0
  {
  }

  /** What has been sent at any time stands for a part of the input. */
  lemma SoFar(p: Parser)
    requires p.Valid()
    ensures AllFaithful(p.blocks) && |p.blocks| == p.blockIndex && Expand(RecordsOf(p.blocks)) <= p.window.input
  {
    hide Expand, Window.Valid, CodeBuffer.Valid, AllFaithful, AllFields;
    var all := p.Records();
    ExpandPrefix(all, |p.flushed|);
    assert all[..|p.flushed|] == p.flushed;
  }

  /** The last block. */
  method FinishStream(p: Parser, adler: nat, ghost data: seq<nat>)
    returns (ok: bool, packed: seq<nat>, ghost blocks: seq<Block>)
    requires p.Valid() && AreBytes(data) && Expand(p.Records()) == data
    requires adler == Adler32.Checksum(Adler32.INIT, data) < Adler32.WORD
    requires NoneFailed(p.options.output, p.blockIndex)
    modifies p, p.writer, p.codes, p.codes.buf, p.lits.freqs, p.lits.codeSizes, p.lits.codes
    modifies p.dists.freqs, p.dists.codeSizes, p.dists.codes
    ensures Packs(packed, p.options.format, blocks, data)
    ensures ok <==> forall k :: 0 <= k < |blocks| ==> p.options.output.answer(k) >= 0
    ensures AllFaithful(blocks) && Expand(RecordsOf(blocks)) == data
  {
    hide Adler32.Checksum, AreBytes, Expand, Parsed, Window.Valid, CodeBuffer.Valid, Bytes, AllFields, AllFaithful,
         RecordsOf, RecordsOk, BufferHolds, Stream, Width, StreamFields, LastIsFinal;
    RecordsFine(p);
    var n := p.Finish(adler);
    ok, packed, blocks := n >= 0, p.writer.output, p.blocks;
    OutputIsStream(p.writer);
  }

  lemma ByteArray(src: array<nat>)
    requires AreBytes(src[..])
    ensures forall i :: 0 <= i < src.Length ==> src[i] < 256
  {
    forall i | 0 <= i < src.Length ensures src[i] < 256 {
      assert src[..][i] == src[i];
    }
  }

  lemma EmptyChecksum(b: seq<nat>)
    requires b == []
    ensures Adler32.Checksum(Adler32.INIT, b) == Adler32.INIT
  {
  }

  lemma TablesOf(p: Parser)
    requires p.Valid()
    ensures p.lits.freqs == p.codes.litCounts && p.dists.freqs == p.codes.distCounts
  {
  }

  lemma RecordsFine(p: Parser)
    requires p.Valid()
    ensures RecordsOk(p.Records())
  {
  }

  /** At the end of a byte all that was sent is in the output. */
  lemma OutputIsStream(w: BitWriter)
    requires w.Valid() && w.bitsIn == 0
    ensures InputOf(w.sent) == Input(Bytes(w.output), 8 * |w.output|)
  {
    hide Stream, Width, Bytes, Fit;
    assert Pow2(0) == 1;
  }

  /** Compressing and decompressing give back every input, in every format and with all options, unless the output
      callback fails. */
  method RoundTrip(src: array<nat>, options: Options) returns (ok: bool, status: Status, out: array<nat>)
    requires AreBytes(src[..]) && OptionsOk(options)
    ensures (forall k :: options.output.answer(k) >= 0) ==> ok
    ensures ok ==> status == Complete && out[..] == src[..]
  {
    hide Adler32.Checksum, AreBytes, Expand, AllFaithful, LastIsFinal, RecordsOf, RecordsOk, Bytes, InputOf,
         StreamFields;
    out, status := new nat[src.Length], Failed;
    var packed;
    ghost var blocks;
    ok, packed, blocks := Compress(src, options);
    if !ok {
      return;
    }
    ghost var adler := Adler32.Checksum(Adler32.INIT, src[..]);
    var pos;
    var bitBuf := Input(Bytes(packed), 8 * |packed|);
    status, pos := Decompress(bitBuf, options.format.Zlib?, out, options.format, blocks, adler);
    assert |out[..pos]| == |src[..]|;
    assert out[..pos] == out[..];
  }
}
