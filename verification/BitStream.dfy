/** The bit buffers on both sides: fields of a given width, first field in the lowest bits. */
module BitStream {
  import opened Bits

  datatype Field = Field(bits: nat, len: nat)

  ghost predicate Fit(fs: seq<Field>) {
    forall i :: 0 <= i < |fs| ==> fs[i].bits < Pow2(fs[i].len)
  }

  function Width(fs: seq<Field>): nat {
    if fs == [] then 0 else fs[0].len + Width(fs[1..])
  }

  /** The bits of all fields as one number. */
  function Stream(fs: seq<Field>): nat {
    if fs == [] then 0 else fs[0].bits + Pow2(fs[0].len) * Stream(fs[1..])
  }

  lemma {:induction false} StreamConcat(fs: seq<Field>, gs: seq<Field>)
    ensures Width(fs + gs) == Width(fs) + Width(gs)
    ensures Stream(fs + gs) == Stream(fs) + Pow2(Width(fs)) * Stream(gs)
  {
    if fs == [] {
      assert fs + gs == gs;
    } else {
      var (f, rest) := (fs[0], fs[1..]);
      assert (fs + gs)[1..] == rest + gs;
      StreamConcat(rest, gs);
      Pow2Add(f.len, Width(rest));
      Nest(f.bits, Pow2(f.len), Stream(rest), Pow2(Width(rest)), Stream(gs));
    }
  }

  lemma Nest(b: nat, p: nat, s: nat, q: nat, t: nat)
    ensures b + p * (s + q * t) == b + p * s + (p * q) * t
  {
    assert p * (s + q * t) == p * s + p * (q * t);
    assert p * (q * t) == (p * q) * t;
  }

  /** What the decompressor still has to read: the bits as one number, and how many they are. */
  datatype Input = Input(bits: nat, count: nat)

  function InputOf(fs: seq<Field>): Input {
    Input(Stream(fs), Width(fs))
  }

  /** The input without its first `n` bits. */
  function Skip(b: Input, n: nat): Input
    requires n <= b.count
  {
    Input(Shift(b.bits, n), b.count - n)
  }

  /** Reading the first field leaves the others. */
  lemma ReadField(fs: seq<Field>)
    requires fs != [] && Fit(fs)
    ensures Low(InputOf(fs).bits, fs[0].len) == fs[0].bits && fs[0].len <= InputOf(fs).count
    ensures Skip(InputOf(fs), fs[0].len) == InputOf(fs[1..])
  {
    hide Stream, Low, Pow2, Shift;
    StreamFront(fs);
    FrontOf(fs[0].bits, fs[0].len, Stream(fs[1..]));
  }

  lemma CountFront(fs: seq<Field>)
    requires fs != []
    ensures InputOf(fs).count == fs[0].len + InputOf(fs[1..]).count
  {
  }

  lemma StreamFront(fs: seq<Field>)
    requires fs != []
    ensures Stream(fs) == fs[0].bits + Pow2(fs[0].len) * Stream(fs[1..])
  {
  }

  /** The output bytes as one number. */
  function Bytes(out: seq<nat>): nat {
    if out == [] then 0 else Bytes(out[..|out| - 1]) + Pow2(8 * (|out| - 1)) * out[|out| - 1]
  }

  lemma StreamAppend(fs: seq<Field>, f: Field)
    ensures Width(fs + [f]) == Width(fs) + f.len
    ensures Stream(fs + [f]) == Stream(fs) + Pow2(Width(fs)) * f.bits
  {
    StreamConcat(fs, [f]);
    assert [f][1..] == [];
    assert Width([f]) == f.len && Stream([f]) == f.bits;
  }

  /** The fields in `sent` are in the bytes of `output` and, above them, in the `bitsIn` bits of `bitBuffer`. */
  ghost predicate BufferHolds(sent: seq<Field>, output: seq<nat>, bitBuffer: nat, bitsIn: nat) {
    && Fit(sent)
    && bitBuffer < Pow2(bitsIn)
    && (forall i :: 0 <= i < |output| ==> output[i] < 256)
    && Width(sent) == 8 * |output| + bitsIn
    && Stream(sent) == Bytes(output) + Pow2(8 * |output|) * bitBuffer
  }

  /** The bit buffer of the compressor: `m_bit_buffer`, `m_bits_in` and the bytes already put out. */
  class BitWriter {
    var bitBuffer: nat
    var bitsIn: nat
    var output: seq<nat>
    ghost var sent: seq<Field>

    /** Everything sent is in the output bytes and, above them, in the bit buffer. */
    ghost predicate Valid()
      reads this
    {
      Buffered() && bitsIn < 8
    }

    ghost predicate Buffered()
      reads this
    {
      BufferHolds(sent, output, bitBuffer, bitsIn)
    }

    constructor ()
      ensures Valid() && sent == [] && output == []
    {
      bitBuffer, bitsIn, output, sent := 0, 0, [], [];
    }

    /** `TDEFL_PUT_BITS` */
    method PutBits(bits: nat, len: nat)
      requires Valid() && bits < Pow2(len) && len <= 24
      modifies this
      ensures Valid() && sent == old(sent) + [Field(bits, len)] && old(output) <= output
    {
      hide Stream, Width, Bytes, Pow2, Fit;
      var f := Field(bits, len);
      FieldPut(sent, output, bitBuffer, bitsIn, f);
      bitBuffer := bitBuffer + bits * Pow2(bitsIn);
      bitsIn := bitsIn + len;
      sent := sent + [f];
      while bitsIn >= 8
        invariant Buffered() && sent == old(sent) + [f] && old(output) <= output
      {
        PutByte();
      }
    }

    method PutByte()
      requires Buffered() && bitsIn >= 8
      modifies this
      ensures Buffered() && sent == old(sent) && bitsIn == old(bitsIn) - 8 && old(output) <= output
    {
      var b := bitBuffer % 256;
      ByteMoves(output, bitBuffer, bitsIn);
      output := output + [b];
      bitBuffer := bitBuffer / 256;
      bitsIn := bitsIn - 8;
    }
  }

  lemma FieldPut(sent: seq<Field>, out: seq<nat>, buffer: nat, n: nat, f: Field)
    requires Fit(sent) && buffer < Pow2(n) && f.bits < Pow2(f.len)
    requires Width(sent) == 8 * |out| + n && Stream(sent) == Bytes(out) + Pow2(8 * |out|) * buffer
    ensures var buffer' := buffer + f.bits * Pow2(n);
            && Fit(sent + [f]) && buffer' < Pow2(n + f.len)
            && Width(sent + [f]) == 8 * |out| + n + f.len
            && Stream(sent + [f]) == Bytes(out) + Pow2(8 * |out|) * buffer'
  {
    hide Stream, Width, Bytes, Pow2;
    StreamAppend(sent, f);
    PutFits(buffer, n, f.bits, f.len);
    Pow2Add(8 * |out|, n);
    PutValue(Bytes(out), Pow2(8 * |out|), buffer, Pow2(n), f.bits);
  }

  lemma PutFits(buffer: nat, n: nat, bits: nat, len: nat)
    requires buffer < Pow2(n) && bits < Pow2(len)
    ensures buffer + bits * Pow2(n) < Pow2(n + len)
  {
    Pow2Add(len, n);
    MulGap(Pow2(n), bits, Pow2(len));
    assert bits * Pow2(n) == Pow2(n) * bits && Pow2(len) * Pow2(n) == Pow2(n) * Pow2(len);
  }

  lemma PutValue(bytes: nat, p: nat, buffer: nat, q: nat, bits: nat)
    ensures bytes + p * buffer + (p * q) * bits == bytes + p * (buffer + bits * q)
  {
    assert p * (buffer + bits * q) == p * buffer + p * (bits * q);
    assert p * (bits * q) == (p * q) * bits;
  }

  lemma ByteMoves(out: seq<nat>, buffer: nat, n: nat)
    requires buffer < Pow2(n) && n >= 8
    ensures buffer / 256 < Pow2(n - 8)
    ensures Bytes(out + [buffer % 256]) + Pow2(8 * (|out| + 1)) * (buffer / 256)
         == Bytes(out) + Pow2(8 * |out|) * buffer
  {
    var (p, b, h) := (Pow2(8 * |out|), buffer % 256, buffer / 256);
    Pow2Add(n - 8, 8);
    assert Pow2(5) == 32 && Pow2(8) == 8 * Pow2(5);
    Pow2Add(8 * |out|, 8);
    assert (out + [b])[..|out|] == out;
    assert p * (b + 256 * h) == p * b + (p * 256) * h;
  }
}
