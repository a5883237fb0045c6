/** Stored blocks, section 3.2.4 of RFC 1951: bytes as they are, at a byte boundary, behind their number. */
module StoredBlock {
  import opened Bits
  import opened BitStream
  import DynamicHeader

  /** The bits up to the next byte boundary, `at` bits into the stream. */
  function Padding(at: nat): seq<Field> {
    if at % 8 == 0 then [] else [Field(0, 8 - at % 8)]
  }

  function ByteFields(data: seq<nat>): seq<Field> {
    if data == [] then [] else ByteFields(data[..|data| - 1]) + [Field(data[|data| - 1], 8)]
  }

  /** The number of bytes and its complement. */
  function LengthWords(n: nat): seq<Field>
    requires n < 65536
  {
    [Field(n, 16), Field(65535 - n, 16)]
  }

  /** A stored block after its final bit, which ends `at` bits into the stream. */
  function StoredFields(data: seq<nat>, at: nat): seq<Field>
    requires |data| < 65536
  {
    [Field(0, 2)] + Padding(at + 2) + LengthWords(|data|) + ByteFields(data)
  }

  ghost predicate AreBytes(data: seq<nat>) {
    forall i :: 0 <= i < |data| ==> data[i] < 256
  }

  // ---- Writing ----

  /** Up to the byte boundary. */
  method PutPadding(w: BitWriter)
    requires w.Valid()
    modifies w
    ensures w.Valid() && w.sent == old(w.sent) + Padding(Width(old(w.sent))) && old(w.output) <= w.output
    ensures w.bitsIn == 0
  {
    hide Stream, Bytes, Fit, Pow2;
    if w.bitsIn != 0 {
      w.PutBits(0, 8 - w.bitsIn);
      PaddingWidth(old(w.sent));
    }
  }

  lemma PaddingWidth(sent: seq<Field>)
    ensures Width(sent + Padding(Width(sent))) % 8 == 0
  {
    hide Stream, Width;
    var n := Width(sent);
    StreamConcat(sent, Padding(n));
    if n % 8 != 0 {
      WidthOne(Field(0, 8 - n % 8));
    }
    WidthNone();
  }

  lemma WidthOne(f: Field)
    ensures Width([f]) == f.len
  {
    assert [f][1..] == [];
  }

  lemma WidthNone()
    ensures Width([]) == 0
  {
  }

  /** The part of `tdefl_flush_block` that sends a block as it is, but for its bytes. */
  method PutStoredHeader(w: BitWriter, n: nat)
    requires w.Valid() && n < 65536
    modifies w
    ensures w.Valid() && old(w.output) <= w.output
    ensures w.sent == old(w.sent) + ([Field(0, 2)] + Padding(Width(old(w.sent)) + 2) + LengthWords(n))
  {
    hide Stream, Bytes, Width, Fit, Pow2;
    SmallPowers();
    w.PutBits(0, 2);
    StreamAppend(old(w.sent), Field(0, 2));
    PutPadding(w);
    w.PutBits(n, 16);
    w.PutBits(65535 - n, 16);
  }

  lemma SmallPowers()
    ensures Pow2(0) == 1 && Pow2(2) == 4 && Pow2(8) == 256 && Pow2(16) == 65536
  {
    Pow2Values();
    assert Pow2(2) == 4 && Pow2(5) == 32 && Pow2(8) == 8 * Pow2(5);
  }

  // ---- Reading ----

  /** A word of two bytes is read byte by byte. */
  lemma WordIsBytes(v: nat, rest: seq<Field>)
    requires v < 65536
    ensures InputOf([Field(v, 16)] + rest) == InputOf([Field(v % 256, 8), Field(v / 256, 8)] + rest)
  {
    var (word, bytes) := ([Field(v, 16)], [Field(v % 256, 8), Field(v / 256, 8)]);
    SmallPowers();
    hide Pow2;
    assert word[1..] == [] && bytes[1..][1..] == [];
    assert Stream(bytes[1..]) == v / 256 && Width(bytes[1..]) == 8;
    assert Stream(word) == v && Stream(bytes) == v && Width(word) == Width(bytes) == 16;
    StreamConcat(word, rest);
    StreamConcat(bytes, rest);
  }

  lemma {:induction false} BytesFirst(data: seq<nat>)
    requires data != []
    ensures ByteFields(data) == [Field(data[0], 8)] + ByteFields(data[1..])
  {
    if |data| > 1 {
      BytesFirst(data[..|data| - 1]);
      assert data[..|data| - 1][1..] == data[1..][..|data| - 2];
    }
  }

  lemma MoreBytes(data: seq<nat>, i: nat)
    requires i < |data|
    ensures ByteFields(data[..i + 1]) == ByteFields(data[..i]) + [Field(data[i], 8)]
  {
    assert data[..i + 1][..i] == data[..i];
  }

  lemma {:induction false} BytesFit(data: seq<nat>)
    requires AreBytes(data)
    ensures Fit(ByteFields(data))
  {
    SmallPowers();
    hide Pow2;
    if data != [] {
      BytesFit(data[..|data| - 1]);
    }
  }

  /** `TINFL_SKIP_BITS` to the byte boundary. The input ends at one, so what is left tells where the next one is. */
  method SkipPadding(bitBuf: Input, ghost at: nat, ghost rest: seq<Field>) returns (left: Input)
    requires Fit(Padding(at) + rest) && bitBuf == InputOf(Padding(at) + rest) && (at + bitBuf.count) % 8 == 0
    ensures left == InputOf(rest)
  {
    hide Stream, Fit, Width, Low;
    ToBoundary(at, bitBuf.count);
    left := Skip(bitBuf, bitBuf.count % 8);
    ghost var fs := Padding(at) + rest;
    if at % 8 == 0 {
      assert fs == rest;
      SkipNothing(bitBuf);
    } else {
      assert fs[0] == Field(0, 8 - at % 8) && fs[1..] == rest;
      ReadField(fs);
    }
  }

  lemma ToBoundary(at: nat, left: nat)
    requires (at + left) % 8 == 0
    ensures left % 8 == if at % 8 == 0 then 0 else 8 - at % 8
  {
  }

  lemma SkipNothing(b: Input)
    ensures Skip(b, 0) == b
  {
    assert Pow2(0) == 1;
  }

  /** One byte. */
  method GetByte(bitBuf: Input, ghost b: nat, ghost rest: seq<Field>) returns (v: nat, left: Input)
    requires b < 256 && Fit(rest) && bitBuf == InputOf([Field(b, 8)] + rest)
    ensures v == b && left == InputOf(rest)
  {
    hide InputOf;
    ghost var fs := [Field(b, 8)] + rest;
    SmallPowers();
    assert fs[1..] == rest;
    v, left := DynamicHeader.GetBits(bitBuf, 8, fs);
  }

  /** A word, byte by byte. */
  method GetWord(bitBuf: Input, ghost word: nat, ghost rest: seq<Field>) returns (v: nat, left: Input)
    requires word < 65536 && Fit(rest) && bitBuf == InputOf([Field(word, 16)] + rest)
    ensures v == word && left == InputOf(rest)
  {
    hide InputOf, Fit;
    WordIsBytes(word, rest);
    ghost var (a, b) := (word % 256, word / 256);
    assert [Field(a, 8), Field(b, 8)] + rest == [Field(a, 8)] + ([Field(b, 8)] + rest);
    ByteFits(b, rest);
    var low, high;
    low, left := GetByte(bitBuf, a, [Field(b, 8)] + rest);
    high, left := GetByte(left, b, rest);
    v := low + 256 * high;
  }

  lemma ByteFits(b: nat, rest: seq<Field>)
    requires b < 256 && Fit(rest)
    ensures Fit([Field(b, 8)] + rest)
  {
    SmallPowers();
  }

  /** A stored block, after its type has been read. `ok` is false when the number of bytes and its complement
      disagree. */
  method InflateStored(bitBuf: Input, out: array<nat>, pos0: nat, ghost data: seq<nat>, ghost at: nat,
                       ghost rest: seq<Field>)
    returns (ok: bool, pos: nat, left: Input)
    requires AreBytes(data) && |data| < 65536 && Fit(rest) && (at + bitBuf.count) % 8 == 0
    requires bitBuf == InputOf(Padding(at) + (LengthWords(|data|) + (ByteFields(data) + rest)))
    requires pos0 + |data| <= out.Length
    modifies out
    ensures ok && pos == pos0 + |data| && left == InputOf(rest) && out[..pos] == old(out[..pos0]) + data
  {
    hide InputOf, Fit, ByteFields;
    ghost var fs := LengthWords(|data|) + (ByteFields(data) + rest);
    PaddedFit(data, at, rest);
    left := SkipPadding(bitBuf, at, fs);
    assert fs == [Field(|data|, 16)] + ([Field(65535 - |data|, 16)] + (ByteFields(data) + rest));
    var n, complement;
    n, left := GetWord(left, |data|, [Field(65535 - |data|, 16)] + (ByteFields(data) + rest));
    complement, left := GetWord(left, 65535 - |data|, ByteFields(data) + rest);
    ok, pos := n == 65535 - complement, pos0;
    if !ok {
      return;
    }
    left := CopyBytes(left, out, pos0, n, data, rest);
    pos := pos0 + n;
  }

  /** Both copying loops. */
  method CopyBytes(bitBuf: Input, out: array<nat>, pos0: nat, n: nat, ghost data: seq<nat>, ghost rest: seq<Field>)
    returns (left: Input)
    requires AreBytes(data) && n == |data| && Fit(rest) && bitBuf == InputOf(ByteFields(data) + rest)
    requires pos0 + n <= out.Length
    modifies out
    ensures left == InputOf(rest) && out[..pos0 + n] == old(out[..pos0]) + data
  {
    hide InputOf, Fit, ByteFields;
    left := bitBuf;
    assert data[0..] == data;
    for i := 0 to n
      invariant left == InputOf(ByteFields(data[i..]) + rest) && out[..pos0 + i] == old(out[..pos0]) + data[..i]
    {
      BytesFirst(data[i..]);
      BytesFit(data[i + 1..]);
      DynamicHeader.FitConcat(ByteFields(data[i + 1..]), rest);
      assert data[i..][1..] == data[i + 1..];
      assert [Field(data[i], 8)] + ByteFields(data[i + 1..]) + rest ==
        [Field(data[i], 8)] + (ByteFields(data[i + 1..]) + rest);
      ghost var before := out[..pos0 + i];
      out[pos0 + i], left := GetByte(left, data[i], ByteFields(data[i + 1..]) + rest);
      assert out[..pos0 + i + 1] == before + [data[i]];
    }
    NoBytes(data[n..], rest);
  }

  lemma NoBytes(data: seq<nat>, rest: seq<Field>)
    requires data == []
    ensures ByteFields(data) + rest == rest
  {
  }

  lemma PaddedFit(data: seq<nat>, at: nat, rest: seq<Field>)
    requires AreBytes(data) && |data| < 65536 && Fit(rest)
    ensures var words := LengthWords(|data|);
            && Fit(Padding(at) + (words + (ByteFields(data) + rest)))
            && Fit([words[1]] + (ByteFields(data) + rest)) && Fit(ByteFields(data) + rest)
  {
    hide Pow2, ByteFields;
    SmallPowers();
    BytesFit(data);
    var words := LengthWords(|data|);
    assert Fit(words) && Fit([words[1]]) && Fit(Padding(at));
    hide Fit;
    DynamicHeader.FitConcat(ByteFields(data), rest);
    DynamicHeader.FitConcat([words[1]], ByteFields(data) + rest);
    DynamicHeader.FitConcat(words, ByteFields(data) + rest);
    DynamicHeader.FitConcat(Padding(at), words + (ByteFields(data) + rest));
  }

  lemma StoredSplits(data: seq<nat>, at: nat, rest: seq<Field>)
    requires AreBytes(data) && |data| < 65536 && Fit(rest)
    ensures var after := Padding(at + 2) + (LengthWords(|data|) + (ByteFields(data) + rest));
            Fit(after) && StoredFields(data, at) + rest == [Field(0, 2)] + after
  {
    hide Fit, ByteFields, Padding, LengthWords;
    PaddedFit(data, at + 2, rest);
    Regroup([Field(0, 2)], Padding(at + 2), LengthWords(|data|), ByteFields(data), rest);
  }

  lemma Regroup(a: seq<Field>, b: seq<Field>, c: seq<Field>, d: seq<Field>, e: seq<Field>)
    ensures a + b + c + d + e == a + (b + (c + (d + e)))
  {
  }
}
