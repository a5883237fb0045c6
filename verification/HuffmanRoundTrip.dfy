/** A Huffman table made by the compressor, used on both sides: what is sent with it is what the decompressor reads. */
module HuffmanRoundTrip {
  import opened Bits
  import opened BitStream
  import opened CanonicalCode
  import opened HuffmanTable
  import InflateTable

  /** The fields that the compressor sends for `message`. */
  function CodeFields(sizes: seq<nat>, message: seq<nat>): seq<Field>
    requires forall j :: 0 <= j < |message| ==> message[j] < |sizes|
  {
    if message == [] then []
    else CodeFields(sizes, message[..|message| - 1]) + [Field(Packed(sizes, Last(message)), sizes[Last(message)])]
  }

  function Last(message: seq<nat>): nat
    requires message != []
  {
    message[|message| - 1]
  }

  lemma {:induction false} EncodeAppend(sizes: seq<nat>, message: seq<nat>, s: nat)
    requires s < |sizes| && forall j :: 0 <= j < |message| ==> message[j] < |sizes|
    ensures InflateTable.Encode(sizes, message + [s])
         == InflateTable.Encode(sizes, message) + Pow2(Width(CodeFields(sizes, message))) * Packed(sizes, s)
  {
    hide Packed;
    if message == [] {
      assert (message + [s])[1..] == [];
    } else {
      var (x, rest) := (message[0], message[1..]);
      assert (message + [s])[1..] == rest + [s];
      EncodeAppend(sizes, rest, s);
      FieldsFirst(sizes, message);
      Pow2Add(sizes[x], Width(CodeFields(sizes, rest)));
      Nest(Packed(sizes, x), Pow2(sizes[x]), InflateTable.Encode(sizes, rest), Pow2(Width(CodeFields(sizes, rest))),
           Packed(sizes, s));
    }
  }

  lemma {:induction false} FieldsFirst(sizes: seq<nat>, message: seq<nat>)
    requires message != [] && forall j :: 0 <= j < |message| ==> message[j] < |sizes|
    ensures var x := message[0];
            CodeFields(sizes, message) == [Field(Packed(sizes, x), sizes[x])] + CodeFields(sizes, message[1..])
  {
    hide Packed;
    if |message| > 1 {
      FieldsFirst(sizes, message[..|message| - 1]);
      assert message[..|message| - 1][1..] == message[1..][..|message| - 2];
    }
  }

  /** Sending the codes one by one is encoding the message. */
  lemma {:induction false} FieldsEncode(sizes: seq<nat>, message: seq<nat>)
    requires forall j :: 0 <= j < |message| ==> message[j] < |sizes|
    ensures Stream(CodeFields(sizes, message)) == InflateTable.Encode(sizes, message)
  {
    hide Packed;
    if message != [] {
      var (front, s) := (message[..|message| - 1], Last(message));
      FieldsEncode(sizes, front);
      StreamAppend(CodeFields(sizes, front), Field(Packed(sizes, s), sizes[s]));
      EncodeAppend(sizes, front, s);
      assert front + [s] == message;
    }
  }

  /** The codes of the message go through the bit buffer. */
  method Send(codeSizes: array<nat>, codes: array<nat>, message: seq<nat>) returns (stream: nat)
    requires codes.Length == codeSizes.Length && Fits(codeSizes[..])
    requires InflateTable.Encodable(codeSizes[..], message)
    requires forall i :: 0 <= i < codeSizes.Length && codeSizes[i] > 0 ==> codes[i] == Packed(codeSizes[..], i)
    ensures stream == Stream(CodeFields(codeSizes[..], message))
  {
    hide Pow2, Packed, Bytes, Stream, Fit;
    var w := new BitWriter();
    ghost var sizes := codeSizes[..];
    assert w.sent == CodeFields(sizes, message[..0]);
    for i := 0 to |message|
      invariant w.Valid() && w.sent == CodeFields(sizes, message[..i]) && fresh(w)
    {
      var s := message[i];
      CodeBound(sizes, s);
      assert message[..i + 1][..i] == message[..i];
      w.PutBits(codes[s], codeSizes[s]);
    }
    assert message[..|message|] == message;
    stream := Bytes(w.output) + Pow2(8 * |w.output|) * w.bitBuffer;
  }

  /** From frequencies to a code, with the code to bits, and from the bits and the code lengths alone back: every
      message of symbols that were counted survives. */
  method SendAndDecode(freqs: array<nat>, tableLen: nat, limit: nat, message: seq<nat>) returns (received: seq<int>)
    requires tableLen <= freqs.Length && tableLen <= MAX_SYMBOLS && Frequencies16(freqs[..tableLen])
    requires 1 <= limit <= MAX_BITS && tableLen <= Pow2(limit)
    requires forall j :: 0 <= j < |message| ==> message[j] < tableLen && freqs[message[j]] > 0
    ensures received == message
  {
    hide Pow2, Frequencies16, Packed, Fits, Suits, RankedWell, Complete, InflateTable.Holds, KeepsShort, Ranked,
         InflateTable.Accepted, InflateTable.Encode, CodeFields, Bytes, Stream;
    var codeSizes, codes := new nat[tableLen], new nat[tableLen];
    OptimizeHuffmanTable(freqs, codeSizes, codes, tableLen, limit, false);
    ghost var (f, sizes) := (freqs[..tableLen], codeSizes[..tableLen]);
    assert codeSizes[..] == sizes;
    TableEncodes(f, sizes, limit, message);
    assert sizes[..|f|] == sizes;
    SizesWithin(f, sizes, limit);
    hide DynamicTable;
    var stream := Send(codeSizes, codes, message);
    FieldsEncode(sizes, message);
    var look, tree := new int[InflateTable.FAST_SIZE], new int[2 * tableLen + 10];
    var ok, paths := InflateTable.BuildTable(codeSizes, tableLen, look, tree);
    received := InflateTable.DecodeAll(look, tree, stream, |message|, sizes, paths, message);
  }
}
