/** The codes of a static block, section 3.2.6 of RFC 1951: what `tdefl_start_static_block` writes into its tables and
    `tinfl_decompress` into its own. */
module FixedCodes {
  import opened Bits
  import opened BitStream
  import opened CanonicalCode
  import CodeLengthCoding
  import DynamicHeader
  import HuffmanTable
  import InflateTable

  const LITERALS := DynamicHeader.LITERALS
  const DISTANCES := DynamicHeader.DISTANCES

  /** The lengths of the literal and length symbols. */
  function FixedLiterals(): (sizes: seq<nat>)
    ensures |sizes| == LITERALS && forall i :: 0 <= i < LITERALS ==> sizes[i] == FixedLength(i)
  {
    seq(LITERALS, i requires 0 <= i < LITERALS => FixedLength(i))
  }

  function FixedLength(i: nat): (l: nat)
    ensures 7 <= l <= 9
  {
    if i <= 143 then 8 else if i <= 255 then 9 else if i <= 279 then 7 else 8
  }

  function FixedDistances(): (sizes: seq<nat>)
    ensures |sizes| == DISTANCES && forall i :: 0 <= i < DISTANCES ==> sizes[i] == 5
  {
    seq(DISTANCES, i requires 0 <= i < DISTANCES => 5)
  }

  lemma {:induction false} CountRun(sizes: seq<nat>, a: nat, b: nat, v: nat, l: nat)
    requires a <= b <= |sizes| && forall i :: a <= i < b ==> sizes[i] == v
    ensures Count(sizes[..b], l) == Count(sizes[..a], l) + if v == l then b - a else 0
  {
    if a < b {
      CountRun(sizes, a, b - 1, v, l);
      CountPrefix(sizes, b - 1, l);
    }
  }

  lemma LiteralCount(l: nat)
    ensures Count(FixedLiterals(), l) == if l == 7 then 24 else if l == 8 then 152 else if l == 9 then 112 else 0
  {
    hide Count;
    var sizes := FixedLiterals();
    CountRun(sizes, 0, 144, 8, l);
    CountRun(sizes, 144, 256, 9, l);
    CountRun(sizes, 256, 280, 7, l);
    CountRun(sizes, 280, 288, 8, l);
    assert sizes[..288] == sizes;
    CountEmpty(sizes[..0], l);
  }

  lemma CountEmpty(sizes: seq<nat>, l: nat)
    requires sizes == []
    ensures Count(sizes, l) == 0
  {
  }

  lemma DistanceCount(l: nat)
    ensures Count(FixedDistances(), l) == if l == 5 then 32 else 0
  {
    hide Count;
    var sizes := FixedDistances();
    CountEmpty(sizes[..0], l);
    CountRun(sizes, 0, 32, 5, l);
    assert sizes[..32] == sizes;
  }

  /** Codes that end at length `k` double until the sum is compared. */
  lemma {:induction false} FirstDoubles(sizes: seq<nat>, k: nat, l: nat)
    requires 1 <= k < l && forall m :: k < m < l ==> Count(sizes, m) == 0
    ensures First(sizes, l) == End(sizes, k) * Pow2(l - k)
  {
    if k + 1 < l {
      FirstDoubles(sizes, k, l - 1);
      assert Pow2(l - k) == 2 * Pow2(l - k - 1);
      var (e, p) := (End(sizes, k), Pow2(l - k - 1));
      assert 2 * (e * p) == e * (2 * p);
    } else {
      assert Pow2(1) == 2;
    }
  }

  lemma {:induction false} FirstOfLonger(sizes: seq<nat>, l: nat)
    requires l >= 1 && forall m :: 1 <= m < l ==> Count(sizes, m) == 0
    ensures First(sizes, l) == 0
  {
    if l > 1 {
      FirstOfLonger(sizes, l - 1);
    }
  }

  /** Both codes use up all words. */
  lemma LiteralsComplete()
    ensures Complete(FixedLiterals())
  {
    hide Count, First, End, Pow2;
    var sizes := FixedLiterals();
    forall l ensures Count(sizes, l) == if l == 7 then 24 else if l == 8 then 152 else if l == 9 then 112 else 0 {
      LiteralCount(l);
    }
    FirstOfLonger(sizes, 7);
    EndOf(sizes, 7);
    FirstNext(sizes, 8);
    EndOf(sizes, 8);
    FirstNext(sizes, 9);
    EndOf(sizes, 9);
    FirstDoubles(sizes, 9, 16);
    SmallPowers();
  }

  lemma DistancesComplete()
    ensures Complete(FixedDistances())
  {
    hide Count, First, End, Pow2;
    var sizes := FixedDistances();
    forall l ensures Count(sizes, l) == if l == 5 then 32 else 0 {
      DistanceCount(l);
    }
    FirstOfLonger(sizes, 5);
    EndOf(sizes, 5);
    FirstDoubles(sizes, 5, 16);
    SmallPowers();
  }

  lemma EndOf(sizes: seq<nat>, l: nat)
    ensures End(sizes, l) == First(sizes, l) + Count(sizes, l)
  {
  }

  lemma FirstNext(sizes: seq<nat>, l: nat)
    requires l >= 2
    ensures First(sizes, l) == 2 * End(sizes, l - 1)
  {
  }

  lemma SmallPowers()
    ensures Pow2(7) == 128 && Pow2(11) == 2048
  {
    assert Pow2(5) == 32 && Pow2(9) == 16 * Pow2(5) && Pow2(11) == 4 * Pow2(9);
  }

  /** The loops that write the lengths, on either side. */
  method FillLiterals(sizes: array<nat>)
    requires sizes.Length == LITERALS
    modifies sizes
    ensures sizes[..] == FixedLiterals()
  {
    for i := 0 to LITERALS
      invariant forall k :: 0 <= k < i ==> sizes[k] == FixedLength(k)
    {
      sizes[i] := if i <= 143 then 8 else if i <= 255 then 9 else if i <= 279 then 7 else 8;
    }
  }

  method FillDistances(sizes: array<nat>)
    requires sizes.Length == DISTANCES
    modifies sizes
    ensures sizes[..] == FixedDistances()
  {
    for i := 0 to DISTANCES
      invariant forall k :: 0 <= k < i ==> sizes[k] == 5
    {
      sizes[i] := 5;
    }
  }

  /** `tdefl_start_static_block` */
  method StartStaticBlock(w: BitWriter, t0: DynamicHeader.Table, t1: DynamicHeader.Table)
    requires w.Valid() && t0.Rows() && t1.Rows() && t0.Memory() !! t1.Memory()
    requires t0.freqs.Length == LITERALS && t1.freqs.Length == DISTANCES
    modifies w, t0.codeSizes, t0.codes, t1.codeSizes, t1.codes
    ensures t0.codeSizes[..] == FixedLiterals() && DynamicHeader.Codes(t0.codes[..], FixedLiterals())
    ensures t1.codeSizes[..] == FixedDistances() && DynamicHeader.Codes(t1.codes[..], FixedDistances())
    ensures w.Valid() && w.sent == old(w.sent) + [Field(1, 2)] && old(w.output) <= w.output
  {
    hide Packed, Stream, Width, Bytes, Fit, Pow2;
    FillLiterals(t0.codeSizes);
    FillDistances(t1.codeSizes);
    SmallLimits();
    HuffmanTable.OptimizeHuffmanTable(t0.freqs, t0.codeSizes, t0.codes, LITERALS, 15, true);
    assert t0.codeSizes[..LITERALS] == t0.codeSizes[..];
    HuffmanTable.OptimizeHuffmanTable(t1.freqs, t1.codeSizes, t1.codes, DISTANCES, 15, true);
    assert t1.codeSizes[..DISTANCES] == t1.codeSizes[..];
    w.PutBits(1, 2);
  }

  lemma SmallLimits()
    ensures Pow2(15) == 32768 && Pow2(2) == 4
  {
    Pow2Values();
    assert Pow2(1) == 2;
  }

  /** The decompressor's tables for a static block. */
  method FixedTables() returns (look0: array<int>, tree0: array<int>, ghost paths0: seq<InflateTable.Path>,
                                look1: array<int>, tree1: array<int>, ghost paths1: seq<InflateTable.Path>)
    ensures InflateTable.Holds(FixedLiterals(), LITERALS, LITERALS, look0[..], tree0[..], paths0)
    ensures InflateTable.Holds(FixedDistances(), DISTANCES, DISTANCES, look1[..], tree1[..], paths1)
    ensures fresh(look0) && fresh(tree0) && fresh(look1) && fresh(tree1)
  {
    hide InflateTable.Holds, Complete;
    LiteralsComplete();
    DistancesComplete();
    var codeSize0, codeSize1 := new nat[LITERALS], new nat[DISTANCES];
    FillLiterals(codeSize0);
    FillDistances(codeSize1);
    assert codeSize0[..LITERALS] == codeSize0[..] && codeSize1[..DISTANCES] == codeSize1[..];
    look0, tree0 := new int[InflateTable.FAST_SIZE], new int[2 * LITERALS];
    look1, tree1 := new int[InflateTable.FAST_SIZE], new int[2 * DISTANCES];
    var ok;
    ok, paths1 := InflateTable.BuildTable(codeSize1, DISTANCES, look1, tree1);
    ok, paths0 := InflateTable.BuildTable(codeSize0, LITERALS, look0, tree0);
  }
}
