/** The canonical Huffman code of section 3.2.2 of RFC 1951, as both halves of miniz number it. */
module CanonicalCode {
  import opened Bits

  /** How many entries of `sizes` are `l`. */
  function Count(sizes: seq<nat>, l: nat): nat {
    if sizes == [] then 0
    else Count(sizes[..|sizes| - 1], l) + if sizes[|sizes| - 1] == l then 1 else 0
  }

  /** The first code of length `l`: `next_code[l]`. */
  function First(sizes: seq<nat>, l: nat): nat
    decreases l, 0
  {
    if l <= 1 then 0 else 2 * End(sizes, l - 1)
  }

  /** One past the last code of length `l`. */
  function End(sizes: seq<nat>, l: nat): nat
    decreases l, 1
  {
    First(sizes, l) + Count(sizes, l)
  }

  function CodeOf(sizes: seq<nat>, s: nat): nat
    requires s < |sizes|
  {
    First(sizes, sizes[s]) + Count(sizes[..s], sizes[s])
  }

  /** The code as it is packed into the stream, first bit lowest. */
  function Packed(sizes: seq<nat>, s: nat): nat
    requires s < |sizes|
  {
    Rev(CodeOf(sizes, s), sizes[s])
  }

  const MAX_BITS: nat := 15

  ghost predicate Bounded(sizes: seq<nat>) {
    forall s :: 0 <= s < |sizes| ==> sizes[s] <= MAX_BITS
  }

  /** No more codes than there is room for: the Kraft sum is at most one. */
  ghost predicate Fits(sizes: seq<nat>) {
    Bounded(sizes) && First(sizes, 16) <= 65536
  }

  /** The Kraft sum is exactly one. */
  ghost predicate Complete(sizes: seq<nat>) {
    Bounded(sizes) && First(sizes, 16) == 65536
  }

  /** The Kraft sum in units of `2^-16`. */
  function KraftSum(sizes: seq<nat>): nat {
    if sizes == [] then 0
    else KraftSum(sizes[..|sizes| - 1])
         + var x := sizes[|sizes| - 1]; if 0 < x < 16 then Pow2(16 - x) else 0
  }

  lemma {:induction false} FirstOfMore(sizes: seq<nat>, m: nat)
    requires |sizes| > 0
    ensures var (rest, x) := (sizes[..|sizes| - 1], sizes[|sizes| - 1]);
            First(sizes, m) == First(rest, m) + if 0 < x < m then Pow2(m - x) else 0
  {
    if m > 1 {
      FirstOfMore(sizes, m - 1);
    }
  }

  lemma {:induction false} FirstOfNone(m: nat)
    ensures First([], m) == 0
  {
    if m > 1 {
      FirstOfNone(m - 1);
    }
  }

  /** `next_code[16]`, which the decoder checks, is the Kraft sum. */
  lemma {:induction false} FirstIsKraftSum(sizes: seq<nat>)
    ensures First(sizes, 16) == KraftSum(sizes)
  {
    if sizes == [] {
      FirstOfNone(16);
    } else {
      FirstOfMore(sizes, 16);
      FirstIsKraftSum(sizes[..|sizes| - 1]);
    }
  }

  lemma {:induction false} CountPrefix(sizes: seq<nat>, s: nat, l: nat)
    requires s < |sizes|
    ensures Count(sizes[..s], l) + (if sizes[s] == l then 1 else 0) == Count(sizes[..s + 1], l)
    ensures Count(sizes[..s + 1], l) <= Count(sizes, l)
  {
    assert sizes[..s + 1][..s] == sizes[..s];
    if s + 1 == |sizes| {
      assert sizes[..s + 1] == sizes;
    } else {
      var rest := sizes[..|sizes| - 1];
      assert rest[..s] == sizes[..s] && rest[..s + 1] == sizes[..s + 1];
      CountPrefix(rest, s, l);
    }
  }

  lemma {:induction false} RankGrows(sizes: seq<nat>, s: nat, t: nat, l: nat)
    requires s < t < |sizes| && sizes[s] == l
    ensures Count(sizes[..s], l) < Count(sizes[..t], l)
  {
    var p := sizes[..t];
    assert p[..s] == sizes[..s];
    CountPrefix(p, s, l);
  }

  lemma {:induction false} RankOnto(sizes: seq<nat>, l: nat, r: nat) returns (s: nat)
    requires r < Count(sizes, l)
    ensures s < |sizes| && sizes[s] == l && Count(sizes[..s], l) == r
  {
    var rest := sizes[..|sizes| - 1];
    if r < Count(rest, l) {
      s := RankOnto(rest, l, r);
      assert rest[..s] == sizes[..s];
    } else {
      s := |sizes| - 1;
    }
  }

  /** The codes of length `l` lie from `First` up to `End`. */
  lemma {:induction false} CodeRange(sizes: seq<nat>, s: nat)
    requires s < |sizes|
    ensures First(sizes, sizes[s]) <= CodeOf(sizes, s) < End(sizes, sizes[s])
  {
    CountPrefix(sizes, s, sizes[s]);
  }

  lemma {:induction false} EndBound(sizes: seq<nat>, l: nat)
    requires First(sizes, 16) <= 65536 && 1 <= l <= 15
    ensures End(sizes, l) <= Pow2(l)
    decreases 15 - l
  {
    Pow2Values();
    if l < 15 {
      EndBound(sizes, l + 1);
    }
    assert First(sizes, l + 1) == 2 * End(sizes, l);
  }

  /** A value no smaller than the first code of length `m` starts with no code of length `l`. */
  lemma {:induction false} PrefixAbove(sizes: seq<nat>, v: nat, l: nat, m: nat)
    requires 1 <= l < m && First(sizes, m) <= v
    ensures End(sizes, l) <= Shift(v, m - l)
  {
    assert First(sizes, m) == 2 * End(sizes, m - 1);
    if l + 1 < m {
      PrefixAbove(sizes, v / 2, l, m - 1);
    } else {
      assert Shift(v, 1) == Shift(v / 2, 0);
    }
  }

  lemma {:induction false} ShiftBound(v: nat, n: nat, d: nat)
    requires v < Pow2(n) && d <= n
    ensures Shift(v, n - d) < Pow2(d)
  {
    if d < n {
      ShiftBound(v / 2, n - 1, d);
    }
  }

  lemma {:induction false} CodeBound(sizes: seq<nat>, s: nat)
    requires Fits(sizes) && s < |sizes| && sizes[s] > 0
    ensures CodeOf(sizes, s) < Pow2(sizes[s]) && Packed(sizes, s) < Pow2(sizes[s])
  {
    CodeRange(sizes, s);
    EndBound(sizes, sizes[s]);
    RevBound(CodeOf(sizes, s), sizes[s]);
  }

  /** No code begins with another. */
  lemma {:induction false} PrefixFree(sizes: seq<nat>, s: nat, t: nat)
    requires Fits(sizes) && s < |sizes| && t < |sizes| && s != t && 0 < sizes[s] <= sizes[t]
    ensures Low(Packed(sizes, t), sizes[s]) != Packed(sizes, s)
  {
    var (l, m, v) := (sizes[s], sizes[t], CodeOf(sizes, t));
    CodeBound(sizes, s);
    CodeBound(sizes, t);
    CodeRange(sizes, s);
    CodeRange(sizes, t);
    RevPrefix(v, m, l);
    ShiftBound(v, m, l);
    if l < m {
      PrefixAbove(sizes, v, l, m);
    } else if s < t {
      RankGrows(sizes, s, t, l);
    } else {
      RankGrows(sizes, t, s, l);
    }
    if Low(Packed(sizes, t), l) == Packed(sizes, s) {
      RevInjective(Shift(v, m - l), CodeOf(sizes, s), l);
    }
  }

  lemma {:induction false} RevTop(v: nat, n: nat)
    requires n > 0
    ensures Rev(v, n) == 2 * Rev(v, n - 1) + Bit(v, n - 1)
  {
    if n > 1 {
      RevTop(v / 2, n - 1);
      Double(v % 2, Pow2(n - 2));
    }
  }

  lemma {:induction false} RevLow(v: nat, n: nat, d: nat)
    requires n <= d
    ensures Rev(Low(v, d), n) == Rev(v, n)
  {
    if n > 0 {
      assert Low(v, d) / 2 == Low(v / 2, d - 1) && Low(v, d) % 2 == v % 2;
      RevLow(v / 2, n - 1, d - 1);
    }
  }

  lemma {:induction false} BitAbove(r: nat, b: nat, d: nat)
    requires r < Pow2(d) && b < 2
    ensures Bit(r + b * Pow2(d), d) == b
  {
    LowIsMod(r + b * Pow2(d), d);
    DivModUnique(r + b * Pow2(d), Pow2(d), b, r);
  }

  /** Reversing twice. */
  lemma {:induction false} RevRev(v: nat, n: nat)
    ensures Rev(Rev(v, n), n) == Low(v, n)
  {
    if n > 0 {
      var w := Rev(v / 2, n - 1);
      RevBound(v / 2, n - 1);
      RevTop(Rev(v, n), n);
      BitAbove(w, v % 2, n - 1);
      TopBitAbove(w, v % 2, n - 1, n - 1);
      LowBound(w, n - 1);
      RevLow(Rev(v, n), n - 1, n - 1);
      RevRev(v / 2, n - 1);
    }
  }

  /** In a complete code every 15 bits begin with a code. */
  lemma {:induction false} EveryInputHasCode(sizes: seq<nat>, x: nat) returns (s: nat)
    requires Complete(sizes)
    ensures s < |sizes| && 0 < sizes[s] <= MAX_BITS && Low(x, sizes[s]) == Packed(sizes, s)
  {
    hide Low, Rev, Shift, Pow2, Count;
    var v := Rev(x, 15);
    RevBound(x, 15);
    Pow2Values();
    assert First(sizes, 16) == 2 * End(sizes, 15);
    ShiftNone(v);
    var l := FindLength(sizes, v, 15);
    s := RankOnto(sizes, l, Shift(v, 15 - l) - First(sizes, l));
    RevRev(x, 15);
    RevPrefix(v, 15, l);
    LowLow(x, 15, l);
  }

  lemma {:induction false} FindLength(sizes: seq<nat>, v: nat, l: nat) returns (m: nat)
    requires 1 <= l <= 15 && Shift(v, 15 - l) < End(sizes, l)
    ensures 1 <= m <= 15 && First(sizes, m) <= Shift(v, 15 - m) < End(sizes, m)
  {
    if First(sizes, l) <= Shift(v, 15 - l) {
      return l;
    }
    ShiftMore(v, 15 - l);
    m := FindLength(sizes, v, l - 1);
  }

  lemma {:induction false} ShiftMore(v: nat, k: nat)
    ensures Shift(v, k + 1) == Shift(v, k) / 2
  {
    if k > 0 {
      ShiftMore(v / 2, k - 1);
    }
  }
}
