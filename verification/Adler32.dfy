/** `mz_adler32`: the checksum of section 2.2 of RFC 1950, computed in blocks with one reduction each. */
module Adler32 {

  const BASE: nat := 65521
  const BLOCK: nat := 5552
  const WORD: nat := 0x1_0000_0000
  const HALF: nat := 65536
  const INIT: nat := 1

  /** The two sums of the definition, reduced after every byte. */
  datatype Sums = Sums(s1: nat, s2: nat)

  ghost predicate AreBytes(b: seq<nat>) {
    forall i :: 0 <= i < |b| ==> b[i] < 256
  }

  function Defined(s: Sums, b: seq<nat>): Sums {
    if b == [] then s
    else
      var before := Defined(s, b[..|b| - 1]);
      var s1 := (before.s1 + b[|b| - 1]) % BASE;
      Sums(s1, (before.s2 + s1) % BASE)
  }

  /** The checksum carried on from `adler`. */
  function Checksum(adler: nat, b: seq<nat>): nat {
    if b == [] then adler
    else
      var s := Defined(Sums(adler % HALF, adler / HALF), b);
      s.s2 * HALF + s.s1
  }

  lemma {:induction false} DefinedConcat(s: Sums, b: seq<nat>, c: seq<nat>)
    ensures Defined(s, b + c) == Defined(Defined(s, b), c)
  {
    if c == [] {
      assert b + c == b;
    } else {
      assert (b + c)[..|b + c| - 1] == b + c[..|c| - 1];
      DefinedConcat(s, b, c[..|c| - 1]);
    }
  }

  lemma DefinedBelow(s: Sums, b: seq<nat>)
    requires b != []
    ensures Defined(s, b).s1 < BASE && Defined(s, b).s2 < BASE
  {
  }

  /** Checksumming `b` and then `c` from the value carried over is checksumming both at once. */
  lemma ChecksumConcat(adler: nat, b: seq<nat>, c: seq<nat>)
    ensures Checksum(Checksum(adler, b), c) == Checksum(adler, b + c)
  {
    if b == [] {
      assert b + c == c;
    } else if c == [] {
      assert b + c == b;
    } else {
      var s := Sums(adler % HALF, adler / HALF);
      DefinedBelow(s, b);
      DefinedConcat(s, b, c);
      var d := Defined(s, b);
      assert Checksum(adler, b) % HALF == d.s1 && Checksum(adler, b) / HALF == d.s2;
      assert b + c != [];
    }
  }

  // ---- One block without reductions ----

  function Running(s: Sums, b: seq<nat>): Sums {
    if b == [] then s
    else
      var before := Running(s, b[..|b| - 1]);
      Sums(before.s1 + b[|b| - 1], before.s2 + before.s1 + b[|b| - 1])
  }

  function Reduced(s: Sums): Sums {
    Sums(s.s1 % BASE, s.s2 % BASE)
  }

  /** Reducing at the end is the same as reducing at every byte. */
  lemma {:induction false} ReduceLate(s: Sums, b: seq<nat>)
    ensures Reduced(Running(s, b)) == Reduced(Defined(s, b))
  {
    hide Reduced;
    if b != [] {
      ReduceLate(s, b[..|b| - 1]);
      ReduceStep(Running(s, b[..|b| - 1]), Defined(s, b[..|b| - 1]), b[|b| - 1]);
    }
  }

  /** One byte, added with and without reductions. */
  lemma ReduceStep(r: Sums, d: Sums, c: nat)
    requires Reduced(r) == Reduced(d)
    ensures Reduced(Sums(r.s1 + c, r.s2 + r.s1 + c)) ==
            Reduced(Sums((d.s1 + c) % BASE, (d.s2 + (d.s1 + c) % BASE) % BASE))
  {
    ModAdd(r.s1, d.s1, c);
    ModAddTwo(r.s2, d.s2, r.s1 + c, (d.s1 + c) % BASE);
  }

  lemma ModAdd(x: nat, y: nat, c: nat)
    requires x % BASE == y % BASE
    ensures (x + c) % BASE == (y + c) % BASE
  {
  }

  lemma ModAddTwo(x: nat, y: nat, a: nat, b: nat)
    requires x % BASE == y % BASE && a % BASE == b % BASE
    ensures (x + a) % BASE == (y + b) % BASE
  {
    ModAdd(x, y, a);
    ModAdd(a, b, y);
  }

  /** Reducing the start makes no difference once a byte has been added. */
  lemma {:induction false} DefinedReduced(s: Sums, b: seq<nat>)
    ensures Reduced(Defined(Reduced(s), b)) == Reduced(Defined(s, b))
    ensures b != [] ==> Defined(Reduced(s), b) == Defined(s, b)
  {
    if b != [] {
      DefinedReduced(s, b[..|b| - 1]);
      var (r, d) := (Defined(Reduced(s), b[..|b| - 1]), Defined(s, b[..|b| - 1]));
      ModAdd(r.s1, d.s1, b[|b| - 1]);
      ModAddTwo(r.s2, d.s2, (r.s1 + b[|b| - 1]) % BASE, (d.s1 + b[|b| - 1]) % BASE);
    }
  }

  /** How large the sums of a block of `n` bytes can get. */
  function Limit1(n: nat): nat { 65535 + 255 * n }

  function Limit2(n: nat): nat { if n == 0 then 65535 else Limit2(n - 1) + Limit1(n) }

  lemma {:induction false} RunningBound(s: Sums, b: seq<nat>)
    requires AreBytes(b) && s.s1 < HALF && s.s2 < HALF
    ensures Running(s, b).s1 <= Limit1(|b|) && Running(s, b).s2 <= Limit2(|b|)
  {
    if b != [] {
      RunningBound(s, b[..|b| - 1]);
    }
  }

  lemma {:induction false} Limit2Closed(n: nat)
    ensures 2 * Limit2(n) == 131070 * (n + 1) + 255 * (n * (n + 1))
  {
    if n > 0 {
      Limit2Closed(n - 1);
      assert n * (n + 1) == (n - 1) * n + 2 * n;
    }
  }

  lemma {:induction false} LimitsGrow(m: nat, n: nat)
    requires m <= n
    ensures Limit1(m) <= Limit1(n) && Limit2(m) <= Limit2(n)
  {
    if m < n {
      LimitsGrow(m, n - 1);
    }
  }

  /** No sum of a block exceeds 32 bits, whatever 16-bit halves it starts from. */
  lemma NoOverflow(s: Sums, b: seq<nat>)
    requires AreBytes(b) && s.s1 < HALF && s.s2 < HALF && |b| <= BLOCK
    ensures Running(s, b).s1 < WORD && Running(s, b).s2 < WORD
  {
    RunningBound(s, b);
    LimitsGrow(|b|, BLOCK);
    Limit2Closed(BLOCK);
  }

  type uint32 = x: nat | x < WORD

  /** One byte into both sums. */
  method AddByte(s1: uint32, s2: uint32, c: nat, ghost s: Sums, ghost b: seq<nat>) returns (t1: uint32, t2: uint32)
    requires AreBytes(b) && c < 256 && s.s1 < HALF && s.s2 < HALF && |b| < BLOCK && Running(s, b) == Sums(s1, s2)
    ensures Running(s, b + [c]) == Sums(t1, t2)
  {
    assert (b + [c])[..|b|] == b;
    NoOverflow(s, b + [c]);
    t1 := s1 + c;
    t2 := s2 + t1;
  }

  /** Eight bytes, as the loop is unrolled. */
  method AddEight(s1: uint32, s2: uint32, p: array<nat>, at: nat, ghost s: Sums, ghost from: nat)
    returns (t1: uint32, t2: uint32)
    requires AreBytes(p[..]) && from <= at && at + 8 <= p.Length && at + 8 - from <= BLOCK
    requires s.s1 < HALF && s.s2 < HALF && Running(s, p[from..at]) == Sums(s1, s2)
    ensures Running(s, p[from..at + 8]) == Sums(t1, t2)
  {
    hide Running;
    t1, t2 := s1, s2;
    for k := 0 to 8
      invariant Running(s, p[from..at + k]) == Sums(t1, t2)
    {
      assert p[..][at + k] < 256;
      assert p[from..at + k + 1] == p[from..at + k] + [p[at + k]];
      t1, t2 := AddByte(t1, t2, p[at + k], s, p[from..at + k]);
    }
  }

  /** One block. */
  method AddBlock(s1: uint32, s2: uint32, p: array<nat>, from: nat, blockLen: nat) returns (t1: uint32, t2: uint32)
    requires AreBytes(p[..]) && from + blockLen <= p.Length && blockLen <= BLOCK && s1 < HALF && s2 < HALF
    ensures Sums(t1, t2) == Reduced(Running(Sums(s1, s2), p[from..from + blockLen]))
  {
    ghost var s := Sums(s1, s2);
    t1, t2 := s1, s2;
    var i := 0;
    while i + 7 < blockLen
      invariant 0 <= i <= blockLen && Running(s, p[from..from + i]) == Sums(t1, t2)
    {
      t1, t2 := AddEight(t1, t2, p, from + i, s, from);
      i := i + 8;
    }
    while i < blockLen
      invariant 0 <= i <= blockLen && Running(s, p[from..from + i]) == Sums(t1, t2)
    {
      assert p[..][from + i] < 256;
      assert p[from..from + i + 1] == p[from..from + i] + [p[from + i]];
      t1, t2 := AddByte(t1, t2, p[from + i], s, p[from..from + i]);
      i := i + 1;
    }
    t1, t2 := t1 % BASE, t2 % BASE;
  }

  /** `mz_adler32`, for an `adler` of 32 bits. */
  method Update(adler: nat, p: array?<nat>, bufLen: nat) returns (r: nat)
    requires adler < WORD && (p != null ==> bufLen <= p.Length && AreBytes(p[..]))
    ensures p == null ==> r == INIT
    ensures p != null ==> r == Checksum(adler, p[..bufLen])
  {
    hide Defined, Running, AreBytes;
    var s1: nat, s2: nat := adler % HALF, adler / HALF;
    ghost var s := Sums(s1, s2);
    var left: nat, blockLen: nat := bufLen, bufLen % BLOCK;
    if p == null {
      return INIT;
    }
    var at: nat := 0;
    assert p[..0] == [];
    Nothing(s);
    while left > 0
      invariant at + left == bufLen && (left > 0 ==> blockLen <= left) && s1 < HALF && s2 < HALF
      invariant blockLen <= BLOCK && (left > 0 ==> (left - blockLen) % BLOCK == 0)
      invariant bufLen == 0 ==> Sums(s1, s2) == s
      invariant at == 0 ==> Sums(s1, s2) == s || Sums(s1, s2) == Reduced(s)
      invariant at > 0 ==> Sums(s1, s2) == Defined(s, p[..at])
      decreases left, blockLen == 0
    {
      BlockDone(s, Sums(s1, s2), p[..at], p[at..at + blockLen]);
      assert p[..at + blockLen] == p[..at] + p[at..at + blockLen];
      s1, s2 := AddBlock(s1, s2, p, at, blockLen);
      left := left - blockLen;
      at := at + blockLen;
      blockLen := BLOCK;
    }
    r := s2 * HALF + s1;
  }

  lemma Nothing(s: Sums)
    ensures Defined(s, []) == s
  {
  }

  /** A block carries the definition on. */
  lemma BlockDone(s: Sums, t: Sums, done: seq<nat>, block: seq<nat>)
    requires if done == [] then t == s || t == Reduced(s) else t == Defined(s, done)
    ensures done + block == [] ==> Reduced(Running(t, block)) == Reduced(s)
    ensures done + block != [] ==> Reduced(Running(t, block)) == Defined(s, done + block)
  {
    hide Running, Defined;
    ReduceLate(t, block);
    ReducedTwice(s);
    if block == [] {
      NoBlock(t);
      assert done + block == done;
      if done != [] {
        DefinedBelow(s, done);
      }
    } else if done == [] {
      assert done + block == block;
      DefinedReduced(s, block);
      DefinedBelow(s, block);
    } else {
      DefinedConcat(s, done, block);
      DefinedBelow(s, done + block);
    }
  }

  lemma ReducedTwice(s: Sums)
    ensures Reduced(Reduced(s)) == Reduced(s)
  {
  }

  lemma NoBlock(t: Sums)
    ensures Running(t, []) == t && Defined(t, []) == t
  {
  }
}
