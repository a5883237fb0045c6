/** What the zlib format of RFC 1950 puts around a DEFLATE stream: two bytes in front, and the checksum of the data
    behind, at a byte boundary. */
module ZlibContainer {
  import opened Bits
  import opened BitStream
  import opened LzRecords
  import opened StoredBlock
  import opened DeflateStream
  import Adler32
  import DynamicHeader

  const CMF: nat := 0x78

  /** The second byte for a compression level: it makes the header a multiple of 31. */
  function Flg(level: nat): (flg: nat)
    requires level < 4
    ensures flg < 256 && (CMF * 256 + flg) % 31 == 0 && flg / 32 % 2 == 0
  {
    var header := CMF * 256 + level * 64;
    (header + (31 - header % 31)) % 256
  }

  /** No container, or the zlib format with a compression level. */
  datatype Format = Bare | Zlib(level: nat)

  ghost predicate FormatOk(format: Format) {
    format.Zlib? ==> format.level < 4
  }

  function Header(format: Format): seq<Field>
    requires FormatOk(format)
  {
    match format
    case Bare => []
    case Zlib(level) => [Field(CMF, 8), Field(Flg(level), 8)]
  }

  /** The bytes of a checksum, the highest first. */
  function BigEndian(a: nat): (bytes: seq<nat>)
    requires a < Adler32.WORD
    ensures |bytes| == 4 && AreBytes(bytes)
  {
    [a / 0x100_0000, a / 0x1_0000 % 256, a / 256 % 256, a % 256]
  }

  function Trailer(format: Format, adler: nat): seq<Field>
    requires adler < Adler32.WORD
  {
    match format
    case Bare => []
    case Zlib(level) => ByteFields(BigEndian(adler))
  }

  // ---- Writing ----

  method PutHeader(w: BitWriter, format: Format)
    requires w.Valid() && FormatOk(format)
    modifies w
    ensures w.Valid() && w.sent == old(w.sent) + Header(format) && old(w.output) <= w.output
  {
    hide Stream, Width, Bytes, Fit, Pow2;
    StoredBlock.SmallPowers();
    match format {
      case Bare =>
        assert w.sent + [] == w.sent;
      case Zlib(level) =>
        w.PutBits(CMF, 8);
        w.PutBits(Flg(level), 8);
    }
  }

  /** The checksum, shifted out byte by byte. */
  method PutTrailer(w: BitWriter, format: Format, adler: nat)
    requires w.Valid() && adler < Adler32.WORD
    modifies w
    ensures w.Valid() && w.sent == old(w.sent) + Trailer(format, adler) && old(w.output) <= w.output
    ensures w.bitsIn == old(w.bitsIn)
  {
    hide Stream, Bytes, Fit, Pow2, ByteFields;
    StoredBlock.SmallPowers();
    if format.Bare? {
      assert w.sent + [] == w.sent;
      return;
    }
    ghost var (bytes, before) := (BigEndian(adler), w.sent);
    var a := adler;
    NoBytes(bytes[..0], []);
    assert ByteFields(bytes[..0]) == [] && before + [] == before;
    for i := 0 to 4
      invariant w.Valid() && w.sent == before + ByteFields(bytes[..i]) && old(w.output) <= w.output
      invariant a == Shifted(adler, i) && w.bitsIn == old(w.bitsIn)
    {
      ShiftedByte(adler, i);
      MoreBytes(bytes, i);
      w.PutBits(a / 0x100_0000, 8);
      StreamAppend(before + ByteFields(bytes[..i]), Field(bytes[i], 8));
      a := a * 256 % Adler32.WORD;
    }
    assert bytes[..4] == bytes;
  }

  function Shifted(a: nat, i: nat): nat
    requires i <= 4
  {
    if i == 0 then a
    else if i == 1 then a % 0x100_0000 * 256
    else if i == 2 then a % 0x1_0000 * 0x1_0000
    else if i == 3 then a % 256 * 0x100_0000
    else 0
  }

  lemma ShiftedByte(a: nat, i: nat)
    requires a < Adler32.WORD && i < 4
    ensures Shifted(a, i) / 0x100_0000 == BigEndian(a)[i] && Shifted(a, i) * 256 % Adler32.WORD == Shifted(a, i + 1)
  {
    hide *;
    if i == 0 {
      FirstShift(a);
    } else if i == 1 {
      SecondShift(a);
    } else if i == 2 {
      ThirdShift(a);
    } else {
      FourthShift(a);
    }
  }

  lemma FirstShift(a: nat)
    requires a < Adler32.WORD
    ensures Shifted(a, 0) / 0x100_0000 == BigEndian(a)[0] && Shifted(a, 0) * 256 % Adler32.WORD == Shifted(a, 1)
  {
    var (h, l) := (a / 0x100_0000, a % 0x100_0000);
    assert a * 256 == h * 0x1_0000_0000 + l * 256;
  }

  lemma SecondShift(a: nat)
    requires a < Adler32.WORD
    ensures Shifted(a, 1) / 0x100_0000 == BigEndian(a)[1] && Shifted(a, 1) * 256 % Adler32.WORD == Shifted(a, 2)
  {
    var (b0, b1, l) := (a / 0x100_0000, a / 0x1_0000 % 256, a % 0x1_0000);
    assert a % 0x100_0000 == b1 * 0x1_0000 + l;
    assert Shifted(a, 1) * 256 == b1 * 0x1_0000_0000 + l * 0x1_0000;
  }

  lemma ThirdShift(a: nat)
    requires a < Adler32.WORD
    ensures Shifted(a, 2) / 0x100_0000 == BigEndian(a)[2] && Shifted(a, 2) * 256 % Adler32.WORD == Shifted(a, 3)
  {
    var (b2, l) := (a / 256 % 256, a % 256);
    assert a % 0x1_0000 == b2 * 256 + l;
    assert Shifted(a, 2) * 256 == b2 * 0x1_0000_0000 + l * 0x100_0000;
  }

  lemma FourthShift(a: nat)
    requires a < Adler32.WORD
    ensures Shifted(a, 3) / 0x100_0000 == BigEndian(a)[3] && Shifted(a, 3) * 256 % Adler32.WORD == Shifted(a, 4)
  {
  }

  // ---- Reading ----

  /** Both bytes of the header; `ok` when they are those of a zlib header without a preset dictionary. */
  method ReadHeader(bitBuf: Input, zlib: bool, ghost format: Format, ghost rest: seq<Field>)
    returns (ok: bool, left: Input)
    requires FormatOk(format) && zlib == format.Zlib? && Fit(rest) && bitBuf == InputOf(Header(format) + rest)
    ensures ok && left == InputOf(rest) && left.count % 8 == bitBuf.count % 8
  {
    hide Stream, Width, Fit;
    ok, left := true, bitBuf;
    if !zlib {
      assert [] + rest == rest;
      return;
    }
    ghost var flg := Flg(format.level);
    ghost var fs := [Field(flg, 8)] + rest;
    assert Header(format) + rest == [Field(CMF, 8)] + fs;
    ByteFits(flg, rest);
    CountFront([Field(CMF, 8)] + fs);
    CountFront(fs);
    assert ([Field(CMF, 8)] + fs)[1..] == fs && fs[1..] == rest;
    var zhdr0, zhdr1;
    zhdr0, left := GetByte(bitBuf, CMF, fs);
    zhdr1, left := GetByte(left, flg, rest);
    ok := (zhdr0 * 256 + zhdr1) % 31 == 0 && zhdr1 / 32 % 2 == 0 && zhdr0 % 16 == 8;
  }

  /** The checksum behind the data. */
  method ReadTrailer(bitBuf: Input, ghost adler: nat, ghost level: nat, ghost rest: seq<Field>)
    returns (z: nat, left: Input)
    requires adler < Adler32.WORD && Fit(rest) && bitBuf == InputOf(Trailer(Zlib(level), adler) + rest)
    ensures z == adler && left == InputOf(rest)
  {
    hide InputOf, Fit, ByteFields;
    ghost var bytes := BigEndian(adler);
    z, left := 0, bitBuf;
    assert bytes[0..] == bytes;
    for i := 0 to 4
      invariant left == InputOf(ByteFields(bytes[i..]) + rest) && z == Joined(bytes, i)
    {
      BytesFirst(bytes[i..]);
      BytesFit(bytes[i + 1..]);
      DynamicHeader.FitConcat(ByteFields(bytes[i + 1..]), rest);
      assert bytes[i..][1..] == bytes[i + 1..];
      ghost var fs := ByteFields(bytes[i + 1..]) + rest;
      assert [Field(bytes[i], 8)] + ByteFields(bytes[i + 1..]) + rest == [Field(bytes[i], 8)] + fs;
      var s;
      s, left := GetByte(left, bytes[i], fs);
      z := (z * 256) % Adler32.WORD + s;
    }
    JoinedBack(adler);
    NoBytes(bytes[4..], rest);
  }

  function Joined(bytes: seq<nat>, i: nat): nat
    requires i <= |bytes| <= 4
  {
    if i == 0 then 0 else Joined(bytes, i - 1) * 256 % Adler32.WORD + bytes[i - 1]
  }

  lemma JoinedBack(a: nat)
    requires a < Adler32.WORD
    ensures Joined(BigEndian(a), 4) == a
  {
    EndianBack(a);
    hide BigEndian;
    JoinedOf(BigEndian(a));
  }

  lemma JoinedOf(b: seq<nat>)
    requires |b| == 4 && AreBytes(b)
    ensures Joined(b, 4) == 256 * (256 * (256 * b[0] + b[1]) + b[2]) + b[3]
  {
    assert Joined(b, 1) == b[0];
    assert Joined(b, 2) == 256 * b[0] + b[1];
    assert Joined(b, 3) == 256 * (256 * b[0] + b[1]) + b[2];
  }

  lemma EndianBack(a: nat)
    requires a < Adler32.WORD
    ensures var b := BigEndian(a); 256 * (256 * (256 * b[0] + b[1]) + b[2]) + b[3] == a
  {
    var (x, y) := (a / 256, a / 0x1_0000);
    assert a == 256 * x + a % 256 && x == 256 * y + x % 256 && y == 256 * (a / 0x100_0000) + y % 256;
  }

  datatype Status = Complete | Failed | ChecksumMismatch

  /** The fields of a whole stream. */
  ghost function StreamFields(format: Format, blocks: seq<Block>, adler: nat): seq<Field>
    requires FormatOk(format) && AllFaithful(blocks) && adler < Adler32.WORD
  {
    Header(format) + (AllFields(blocks) + (Padding(Width(AllFields(blocks))) + Trailer(format, adler)))
  }

  /** `tinfl_decompress` with and without `TINFL_FLAG_PARSE_ZLIB_HEADER`. */
  method Decompress(bitBuf: Input, zlib: bool, out: array<nat>, ghost format: Format, ghost blocks: seq<Block>,
                    ghost adler: nat)
    returns (status: Status, pos: nat)
    requires FormatOk(format) && zlib == format.Zlib? && adler < Adler32.WORD
    requires AllFaithful(blocks) && LastIsFinal(blocks) && RecordsOk(RecordsOf(blocks))
    requires |Expand(RecordsOf(blocks))| <= out.Length && AreBytes(Expand(RecordsOf(blocks)))
    requires bitBuf == InputOf(StreamFields(format, blocks, adler)) && bitBuf.count % 8 == 0
    modifies out
    ensures pos <= out.Length && out[..pos] == Expand(RecordsOf(blocks))
    ensures var intact := Adler32.Checksum(Adler32.INIT, Expand(RecordsOf(blocks))) == adler;
            status == if zlib && !intact then ChecksumMismatch else Complete
  {
    hide InputOf, Fit, AllFaithful, LastIsFinal, RecordsOk, Expand, RecordsOf, AllFields, Padding, Header, Trailer,
         Adler32.Checksum;
    ghost var (data, at) := (Expand(RecordsOf(blocks)), Width(AllFields(blocks)));
    ghost var tail := Padding(at) + Trailer(format, adler);
    StreamFit(format, blocks, adler);
    status, pos := Failed, 0;
    var ok, left := ReadHeader(bitBuf, zlib, format, AllFields(blocks) + tail);
    if !ok {
      return;
    }
    ok, pos, left := Inflate(left, out, blocks, tail);
    if !ok {
      return;
    }
    TailAligned(blocks, tail);
    left := SkipPadding(left, at, Trailer(format, adler));
    status := Complete;
    if zlib {
      var z;
      EmptyFits();
      assert Trailer(format, adler) + [] == Trailer(format, adler);
      z, left := ReadTrailer(left, adler, format.level, []);
      var check := CheckOf(out, pos);
      if check != z {
        status := ChecksumMismatch;
      }
    }
  }

  /** `m_check_adler32`, over all that has been written. */
  method CheckOf(out: array<nat>, pos: nat) returns (check: nat)
    requires pos <= out.Length && AreBytes(out[..pos])
    ensures check == Adler32.Checksum(Adler32.INIT, out[..pos])
  {
    var written := new nat[pos];
    forall i | 0 <= i < pos { written[i] := out[i]; }
    assert written[..] == out[..pos] && written[..pos] == written[..];
    check := Adler32.Update(Adler32.INIT, written, pos);
  }

  lemma EmptyFits()
    ensures Fit([])
  {
  }

  lemma TrailerFit(format: Format, adler: nat)
    requires adler < Adler32.WORD
    ensures Fit(Trailer(format, adler))
  {
    if format.Zlib? {
      BytesFit(BigEndian(adler));
    }
  }

  lemma StreamFit(format: Format, blocks: seq<Block>, adler: nat)
    requires FormatOk(format) && AllFaithful(blocks) && adler < Adler32.WORD
    ensures var tail := Padding(Width(AllFields(blocks))) + Trailer(format, adler);
            Fit(tail) && Fit(AllFields(blocks) + tail) && Fit(Trailer(format, adler))
  {
    hide AllFaithful, Trailer, Width, Fit;
    var at := Width(AllFields(blocks));
    TrailerFit(format, adler);
    PaddingFits(at);
    var tail := Padding(at) + Trailer(format, adler);
    DynamicHeader.FitConcat(Padding(at), Trailer(format, adler));
    FieldsSplit(blocks, 0, tail);
    FromFit(blocks, 0, tail);
    NoBlocks();
    assert blocks[..0] == [];
    assert [] + FieldsFrom(blocks, 0, tail) == FieldsFrom(blocks, 0, tail);
  }

  lemma PaddingFits(at: nat)
    ensures Fit(Padding(at))
  {
  }

  /** Where the blocks end is as far from a byte boundary as what is left is long. */
  lemma TailAligned(blocks: seq<Block>, tail: seq<Field>)
    requires AllFaithful(blocks) && InputOf(AllFields(blocks) + tail).count % 8 == 0
    ensures (Width(AllFields(blocks)) + InputOf(tail).count) % 8 == 0
  {
    hide Stream, AllFields, AllFaithful, Width;
    StreamConcat(AllFields(blocks), tail);
  }
}
