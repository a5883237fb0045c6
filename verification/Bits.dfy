/** Natural numbers read as bit strings, lowest bit first, the way DEFLATE packs them
    (section 3.1.1 of RFC 1951). */
module Bits {

  function Pow2(n: nat): (p: nat)
    ensures p > 0
  {
    if n == 0 then 1 else 2 * Pow2(n - 1)
  }

  /** The lowest `d` bits of `r`. */
  function Low(r: nat, d: nat): nat {
    if d == 0 then 0 else r % 2 + 2 * Low(r / 2, d - 1)
  }

  /** Bit number `d` of `r`. */
  function Bit(r: nat, d: nat): (b: nat)
    ensures b < 2
  {
    if d == 0 then r % 2 else Bit(r / 2, d - 1)
  }

  /** `r` shifted right by `d`. */
  function Shift(r: nat, d: nat): nat {
    if d == 0 then r else Shift(r / 2, d - 1)
  }

  /** The lowest `n` bits of `v` in the opposite order. */
  function Rev(v: nat, n: nat): nat {
    if n == 0 then 0 else Rev(v / 2, n - 1) + (v % 2) * Pow2(n - 1)
  }

  lemma {:induction false} Pow2Add(a: nat, b: nat)
    ensures Pow2(a + b) == Pow2(a) * Pow2(b)
  {
    if a > 0 {
      Pow2Add(a - 1, b);
    }
  }

  lemma {:induction false} Pow2Values()
    ensures Pow2(5) == 32 && Pow2(9) == 512 && Pow2(10) == 1024 && Pow2(15) == 32768 && Pow2(16) == 65536
  {
    assert Pow2(5) == 32;
    Pow2Add(5, 5);
    Pow2Add(10, 5);
  }

  lemma {:induction false} LowLow(r: nat, a: nat, b: nat)
    requires b <= a
    ensures Low(Low(r, a), b) == Low(r, b)
  {
    if b > 0 {
      LowLow(r / 2, a - 1, b - 1);
      assert Low(r, a) / 2 == Low(r / 2, a - 1);
    }
  }

  lemma {:induction false} LowStep(r: nat, d: nat)
    ensures Low(r, d + 1) == Low(r, d) + Bit(r, d) * Pow2(d)
  {
    if d > 0 {
      LowStep(r / 2, d - 1);
      var (b, p) := (Bit(r, d), Pow2(d - 1));
      assert Low(r, d + 1) == r % 2 + 2 * Low(r / 2, d) && Low(r, d) == r % 2 + 2 * Low(r / 2, d - 1);
      hide Low, Bit, Pow2;
      Double(b, p);
    }
  }

  lemma Double(b: nat, p: nat)
    ensures 2 * (b * p) == b * (2 * p)
  {
  }

  lemma {:induction false} LowBound(r: nat, d: nat)
    ensures Low(r, d) < Pow2(d)
    ensures r < Pow2(d) ==> Low(r, d) == r
  {
    if d > 0 {
      LowBound(r / 2, d - 1);
    }
  }

  /** Bits `d` and up of `m * 2^d + r` do not reach the low bits. */
  lemma {:induction false} LowAdd(r: nat, m: nat, d: nat)
    ensures Low(r + m * Pow2(d), d) == Low(r, d)
  {
    if d > 0 {
      var x := m * Pow2(d - 1);
      assert m * Pow2(d) == 2 * x;
      assert (r + 2 * x) / 2 == r / 2 + x && (r + 2 * x) % 2 == r % 2;
      LowAdd(r / 2, m, d - 1);
    }
  }

  /** What the masks and shifts of the C code compute. */
  lemma {:induction false} LowIsMod(r: nat, d: nat)
    ensures Low(r, d) == r % Pow2(d)
    ensures Shift(r, d) == r / Pow2(d)
    ensures Bit(r, d) == Shift(r, d) % 2
  {
    if d > 0 {
      LowIsMod(r / 2, d - 1);
      HalfDivMod(r, Pow2(d - 1));
    }
  }

  lemma HalfDivMod(r: nat, p: nat)
    requires p > 0
    ensures r % (2 * p) == r % 2 + 2 * ((r / 2) % p)
    ensures r / (2 * p) == (r / 2) / p
  {
    var q, m := (r / 2) / p, (r / 2) % p;
    assert r == (2 * p) * q + (r % 2 + 2 * m) by {
      assert r / 2 == p * q + m;
      assert (2 * p) * q == 2 * (p * q);
    }
    DivModUnique(r, 2 * p, q, r % 2 + 2 * m);
  }

  lemma DivModUnique(r: nat, p: nat, q: nat, m: nat)
    requires p > 0 && r == p * q + m && m < p
    ensures r / p == q && r % p == m
  {
    var q', m' := r / p, r % p;
    assert p * q' + m' == p * q + m;
    if q' < q {
      MulGap(p, q', q);
    } else if q < q' {
      MulGap(p, q, q');
    }
  }

  /** What lies below bit `n`, and what lies above. */
  lemma FrontOf(r: nat, n: nat, rest: nat)
    requires r < Pow2(n)
    ensures Low(r + Pow2(n) * rest, n) == r && (r + Pow2(n) * rest) / Pow2(n) == rest
    ensures Shift(r + Pow2(n) * rest, n) == rest
  {
    hide Pow2, Low, Shift, Bit;
    LowIsMod(r + Pow2(n) * rest, n);
    LowBound(r, n);
    assert Pow2(n) * rest == rest * Pow2(n);
    LowAdd(r, rest, n);
    DivModUnique(r + Pow2(n) * rest, Pow2(n), rest, r);
  }

  lemma MulGap(p: nat, a: nat, b: nat)
    requires a < b
    ensures p * a + p <= p * b
  {
    if a + 1 < b {
      MulGap(p, a, b - 1);
    }
    assert p * b == p * (b - 1) + p;
  }

  lemma {:induction false} RevBound(v: nat, n: nat)
    ensures Rev(v, n) < Pow2(n)
  {
    if n > 0 {
      RevBound(v / 2, n - 1);
      assert v % 2 == 0 || v % 2 == 1;
      assert (v % 2) * Pow2(n - 1) <= Pow2(n - 1);
    }
  }

  /** The first `d` bits of a reversed code are its reversed `d`-bit prefix. */
  lemma RevStep(v: nat, n: nat)
    requires n > 0
    ensures Rev(v, n) == Rev(v / 2, n - 1) + v % 2 * Pow2(n - 1)
  {
  }

  lemma ShiftNone(r: nat)
    ensures Shift(r, 0) == r
  {
  }

  lemma ShiftStep(r: nat, d: nat)
    requires d > 0
    ensures Shift(r, d) == Shift(r / 2, d - 1)
  {
  }

  lemma {:induction false} RevPrefix(v: nat, n: nat, d: nat)
    requires d <= n
    ensures Low(Rev(v, n), d) == Rev(Shift(v, n - d), d)
  {
    hide Rev, Shift, Low, Pow2;
    if d == n {
      ShiftNone(v);
      RevBound(v, n);
      LowBound(Rev(v, n), n);
    } else {
      RevStep(v, n);
      ShiftStep(v, n - d);
      TopBitAbove(Rev(v / 2, n - 1), v % 2, n - 1, d);
      RevPrefix(v / 2, n - 1, d);
    }
  }

  lemma TopBitAbove(r: nat, b: nat, n: nat, d: nat)
    requires d <= n
    ensures Low(r + b * Pow2(n), d) == Low(r, d)
  {
    Pow2Add(n - d, d);
    assert b * Pow2(n) == (b * Pow2(n - d)) * Pow2(d);
    LowAdd(r, b * Pow2(n - d), d);
  }

  lemma SplitDigit(x: nat, b: nat, y: nat, c: nat, p: nat)
    requires x < p && y < p && b < 2 && c < 2 && x + b * p == y + c * p
    ensures x == y && b == c
  {
  }

  lemma {:induction false} RevInjective(v: nat, w: nat, n: nat)
    requires v < Pow2(n) && w < Pow2(n) && Rev(v, n) == Rev(w, n)
    ensures v == w
  {
    if n > 0 {
      RevBound(v / 2, n - 1);
      RevBound(w / 2, n - 1);
      SplitDigit(Rev(v / 2, n - 1), v % 2, Rev(w / 2, n - 1), w % 2, Pow2(n - 1));
      RevInjective(v / 2, w / 2, n - 1);
    }
  }
}
