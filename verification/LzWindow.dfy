/** The dictionary of the compressor: a ring of 32 KB with its first bytes mirrored behind it, and hash chains. */
module LzWindow {
  import opened Bits
  import opened LzRecords

  const MIRROR: nat := MAX_MATCH - 1
  const HASH_SIZE: nat := 32768
  const HASH_SHIFT: nat := 32
  const WORD: nat := 65536

  /** Byte `b` of input position `p` is where the compressor will look for it. */
  ghost predicate Stored(dict: seq<nat>, p: nat, b: nat) {
    |dict| == DICT_SIZE + MIRROR
    && dict[p % DICT_SIZE] == b
    && (p % DICT_SIZE < MIRROR ==> dict[DICT_SIZE + p % DICT_SIZE] == b)
  }

  ghost predicate Holds(dict: seq<nat>, input: seq<nat>, from: nat, to: nat) {
    |dict| == DICT_SIZE + MIRROR && from <= to <= |input| && to - from <= DICT_SIZE
    && forall p :: from <= p < to ==> Stored(dict, p, input[p])
  }

  /** Reading on from a position needs no wrap-around test. */
  lemma ReadAhead(dict: seq<nat>, input: seq<nat>, from: nat, to: nat, p: nat, k: nat)
    requires Holds(dict, input, from, to) && from <= p && p + k < to && k <= MIRROR
    ensures p % DICT_SIZE + k < |dict| && dict[p % DICT_SIZE + k] == input[p + k]
  {
    var q := p + k;
    assert Stored(dict, q, input[q]);
  }

  lemma Residues(p: nat, q: nat)
    requires p < q < p + DICT_SIZE
    ensures p % DICT_SIZE != q % DICT_SIZE
  {
  }

  /** A new byte drives out the one that is 32 KB older. */
  lemma StoreByte(dict: seq<nat>, dict': seq<nat>, input: seq<nat>, from: nat, from': nat, b: nat)
    requires Holds(dict, input, from, |input|) && from <= from' && |input| + 1 - from' <= DICT_SIZE && from' <= |input|
    requires |dict'| == |dict|
    requires var d := |input| % DICT_SIZE;
             forall i :: 0 <= i < |dict| ==>
               dict'[i] == if i == d || (d < MIRROR && i == DICT_SIZE + d) then b else dict[i]
    ensures Holds(dict', input + [b], from', |input| + 1)
  {
    var more := input + [b];
    forall p | from' <= p < |more| ensures Stored(dict', p, more[p]) {
      if p < |input| {
        assert Stored(dict, p, input[p]);
        Residues(p, |input|);
      }
    }
  }

  function Min(a: nat, b: nat): nat {
    if a < b then a else b
  }

  function Xor(a: nat, b: nat): nat {
    if a == 0 && b == 0 then 0 else (a % 2 + b % 2) % 2 + 2 * Xor(a / 2, b / 2)
  }

  /** The rolling hash over three bytes. */
  function Hash(h: nat, c: nat): (r: nat)
    ensures r < HASH_SIZE
  {
    Xor(h * HASH_SHIFT, c) % HASH_SIZE
  }

  // ---- Hash chains ----

  /** The hash of the three bytes at `p`. */
  function HashAt(input: seq<nat>, p: nat): nat
    requires p + 2 < |input|
  {
    Xor(Xor(input[p] * (HASH_SHIFT * HASH_SHIFT), input[p + 1] * HASH_SHIFT), input[p + 2]) % HASH_SIZE
  }

  lemma HashOf(input: seq<nat>, p: nat)
    requires p + 2 < |input|
    ensures HashAt(input, p) ==
            Xor(Xor(input[p] * (HASH_SHIFT * HASH_SHIFT), input[p + 1] * HASH_SHIFT), input[p + 2]) % HASH_SIZE
  {
    hide Xor;
  }

  /** The last position before `n` whose hash is `h`, as the chains hold it; 0 when there is none. */
  function Latest(input: seq<nat>, h: nat, n: nat): (q: nat)
    requires n + 1 < |input| || n == 0
  {
    if n == 0 then 0
    else if HashAt(input, n - 1) == h then (n - 1) % WORD
    else Latest(input, h, n - 1)
  }

  /** How many positions have been entered: all with three bytes. */
  function Entered(input: seq<nat>): nat {
    if |input| < 3 then 0 else |input| - 2
  }

  /** The head of every chain is the latest position with that hash, and every entry of the last 32 KB leads to the
      one before. */
  ghost predicate Chained(next: seq<nat>, hash: seq<nat>, input: seq<nat>) {
    && |next| == DICT_SIZE && |hash| == HASH_SIZE
    && (forall h :: 0 <= h < HASH_SIZE ==> hash[h] == Latest(input, h, Entered(input)))
    && (forall p :: 0 <= p < Entered(input) && Entered(input) <= p + DICT_SIZE ==>
          next[p % DICT_SIZE] == Latest(input, HashAt(input, p), p))
  }

  lemma {:induction false} LatestPrefix(input: seq<nat>, c: nat, h: nat, n: nat)
    requires n + 1 < |input| || n == 0
    ensures Latest(input + [c], h, n) == Latest(input, h, n)
  {
    hide Xor;
    if n > 0 {
      LatestPrefix(input, c, h, n - 1);
    }
  }

  /** A byte that does not complete the first three. */
  lemma ChainNothing(next: seq<nat>, hash: seq<nat>, input: seq<nat>, c: nat)
    requires Chained(next, hash, input) && |input| < 2
    ensures Chained(next, hash, input + [c])
  {
  }

  /** The position whose third byte has come is entered in front of its chain. */
  lemma ChainOne(next: seq<nat>, hash: seq<nat>, input: seq<nat>, c: nat)
    requires Chained(next, hash, input) && |input| >= 2
    ensures var (p, more) := (|input| - 2, input + [c]);
            var h := HashAt(more, p);
            Chained(next[p % DICT_SIZE := hash[h]], hash[h := p % WORD], more)
  {
    hide Xor, Latest;
    var (p, more) := (|input| - 2, input + [c]);
    var h := HashAt(more, p);
    assert Entered(more) == p + 1 && Entered(input) == p;
    var hash' := hash[h := p % WORD];
    forall g | 0 <= g < HASH_SIZE ensures hash'[g] == Latest(more, g, p + 1) {
      LatestStep(more, g, p + 1);
      LatestPrefix(input, c, g, p);
    }
    var next' := next[p % DICT_SIZE := hash[h]];
    forall q | 0 <= q < p + 1 && p + 1 <= q + DICT_SIZE
      ensures next'[q % DICT_SIZE] == Latest(more, HashAt(more, q), q)
    {
      if q < p {
        Residues(q, p);
        assert HashAt(more, q) == HashAt(input, q);
        LatestPrefix(input, c, HashAt(input, q), q);
      } else {
        LatestPrefix(input, c, h, p);
      }
    }
  }

  lemma SameHash(input: seq<nat>, p: nat, d: nat)
    requires TrueMatch(input, p, d, MIN_MATCH)
    ensures HashAt(input, p - d) == HashAt(input, p)
  {
    hide Xor;
    assert input[p] == input[p - d];
    assert input[p + 1] == input[p + 1 - d];
    assert input[p + 2] == input[p + 2 - d];
  }

  lemma LinkAt(next: seq<nat>, hash: seq<nat>, input: seq<nat>, p: nat)
    requires Chained(next, hash, input) && p < Entered(input) <= p + DICT_SIZE
    ensures |next| == DICT_SIZE && next[p % DICT_SIZE] == Latest(input, HashAt(input, p), p)
  {
    hide HashAt, Latest;
  }

  lemma {:induction false} LatestIs(input: seq<nat>, h: nat, n: nat, q: nat)
    requires q < n && n + 1 < |input| && HashAt(input, q) == h
    requires forall r :: q < r < n ==> HashAt(input, r) != h
    ensures Latest(input, h, n) == q % WORD
  {
    hide HashAt;
    if q < n - 1 {
      LatestIs(input, h, n - 1, q);
    }
  }

  lemma LatestStep(input: seq<nat>, h: nat, n: nat)
    requires 0 < n && n + 1 < |input|
    ensures Latest(input, h, n) == if HashAt(input, n - 1) == h then (n - 1) % WORD else Latest(input, h, n - 1)
  {
    hide Xor;
  }

  // ---- The rolling hash ----

  lemma {:induction false} XorMod(a: nat, b: nat, k: nat)
    ensures Xor(a, b) % Pow2(k) == Xor(a % Pow2(k), b % Pow2(k)) % Pow2(k)
  {
    if k > 0 {
      var p := Pow2(k - 1);
      XorMod(a / 2, b / 2, k - 1);
      Halves(a, p);
      Halves(b, p);
      Halves(Xor(a, b), p);
      Halves(Xor(a % (2 * p), b % (2 * p)), p);
      XorHalf(a, b);
      XorHalf(a % (2 * p), b % (2 * p));
    }
  }

  lemma Halves(a: nat, p: nat)
    requires p > 0
    ensures a % (2 * p) == a % 2 + 2 * (a / 2 % p) && a % (2 * p) / 2 == a / 2 % p && a % (2 * p) % 2 == a % 2
  {
    HalfDivMod(a, p);
  }

  lemma XorHalf(a: nat, b: nat)
    ensures Xor(a, b) % 2 == (a % 2 + b % 2) % 2 && Xor(a, b) / 2 == Xor(a / 2, b / 2)
  {
  }

  lemma XorDouble(a: nat, b: nat)
    ensures Xor(2 * a, 2 * b) == 2 * Xor(a, b)
  {
    XorHalf(2 * a, 2 * b);
  }

  lemma XorShift(a: nat, b: nat)
    ensures Xor(HASH_SHIFT * a, HASH_SHIFT * b) == HASH_SHIFT * Xor(a, b)
  {
    hide Xor;
    XorDouble(a, b);
    XorDouble(2 * a, 2 * b);
    XorDouble(4 * a, 4 * b);
    XorDouble(8 * a, 8 * b);
    XorDouble(16 * a, 16 * b);
  }

  /** The hash register knows the last two bytes, and with the next one becomes the hash of all three. */
  ghost predicate Rolling(h: nat, b: nat, c: nat) {
    h % 1024 == Xor(b * HASH_SHIFT, c) % 1024
  }

  lemma RollOn(h: nat, a: nat, b: nat, c: nat)
    requires Rolling(h, a, b)
    ensures Hash(h, c) == Xor(Xor(a * (HASH_SHIFT * HASH_SHIFT), b * HASH_SHIFT), c) % HASH_SIZE
    ensures Rolling(Hash(h, c), b, c)
  {
    hide Xor;
    var ab := Xor(a * 32, b);
    XorShift(a * 32, b);
    XorCut(h * 32, c);
    XorCut(ab * 32, c);
    ShiftedOut(h, ab);
    XorShort(a, b, c);
  }

  lemma XorCut(a: nat, c: nat)
    ensures Xor(a, c) % HASH_SIZE == Xor(a % HASH_SIZE, c % HASH_SIZE) % HASH_SIZE
  {
    Pow2Values();
    XorMod(a, c, 15);
  }

  lemma ShiftedOut(h: nat, g: nat)
    requires h % 1024 == g % 1024
    ensures h * 32 % HASH_SIZE == g * 32 % HASH_SIZE
  {
  }

  /** The first of three bytes is shifted out of the last ten bits. */
  lemma XorShort(a: nat, b: nat, c: nat)
    ensures Xor(Xor(a * 1024, b * 32), c) % HASH_SIZE % 1024 == Xor(b * 32, c) % 1024
  {
    hide Xor;
    Pow2Values();
    var ab := Xor(a * 1024, b * 32);
    XorMod(ab, c, 10);
    XorMod(a * 1024, b * 32, 10);
    XorNone(b * 32 % 1024);
    XorMod(b * 32, c, 10);
    assert a * 1024 % 1024 == 0;
    Coarser(Xor(ab, c));
  }

  lemma Coarser(x: nat)
    ensures x % HASH_SIZE % 1024 == x % 1024
  {
  }

  lemma {:induction false} XorNone(b: nat)
    ensures Xor(0, b) == b
    decreases b
  {
    if b > 0 {
      XorNone(b / 2);
    }
  }

  // ---- The walk along a chain ----

  /** The distances of the first `n` positions that the chain from slot `at` leads to, seen from position `p`: it ends
      at an empty link, beyond the dictionary, and where 16 bits do not tell a position from `p`. */
  function Walk(next: seq<nat>, p: nat, at: nat, most: nat, n: nat): (ds: seq<nat>)
    requires |next| == DICT_SIZE && at < DICT_SIZE
    ensures forall i :: 0 <= i < |ds| ==> 1 <= ds[i] <= most
    decreases n
  {
    if n == 0 then []
    else
      var q := next[at];
      var d := (p - q) % WORD;
      if q == 0 || d > most || d == 0 then [] else [d] + Walk(next, p, q % DICT_SIZE, most, n - 1)
  }

  lemma {:induction false} WalkMore(next: seq<nat>, p: nat, at: nat, most: nat, n: nat, d: nat)
    requires |next| == DICT_SIZE && at < DICT_SIZE && d in Walk(next, p, at, most, n)
    ensures d in Walk(next, p, at, most, n + 1)
    decreases n
  {
    var q := next[at];
    var e := (p - q) % WORD;
    if d != e {
      WalkMore(next, p, q % DICT_SIZE, most, n - 1, d);
    }
  }

  /** The position is not a longer repeat than `len` bytes, or the lookahead ends there. */
  ghost predicate Beaten(input: seq<nat>, p: nat, d: nat, len: nat) {
    p + len >= |input| || !TrueMatch(input, p, d, len + 1)
  }

  lemma StillBeaten(input: seq<nat>, p: nat, d: nat, len: nat, longer: nat)
    requires Beaten(input, p, d, len) && len <= longer
    ensures Beaten(input, p, d, longer)
  {
  }

  class Window {
    const dict: array<nat>
    const next: array<nat>
    const hash: array<nat>
    var lookaheadPos: nat
    var lookaheadSize: nat
    var dictSize: nat
    ghost var input: seq<nat>

    constructor ()
      ensures Valid() && fresh(dict) && fresh(next) && fresh(hash)
      ensures lookaheadPos == lookaheadSize == dictSize == 0 && input == []
    {
      dict := new nat[DICT_SIZE + MIRROR](_ => 0);
      next := new nat[DICT_SIZE](_ => 0);
      hash := new nat[HASH_SIZE](_ => 0);
      lookaheadPos, lookaheadSize, dictSize := 0, 0, 0;
      input := [];
    }

    ghost predicate Arrays()
      reads `input, dict, next, hash
    {
      && dict.Length == DICT_SIZE + MIRROR && next.Length == DICT_SIZE && hash.Length == HASH_SIZE
      && dict != next && dict != hash && next != hash
      && (forall i :: 0 <= i < next.Length ==> next[i] < WORD)
      && (forall i :: 0 <= i < hash.Length ==> hash[i] < WORD)
      && (forall i :: 0 <= i < |input| ==> input[i] < 256)
    }

    /** The dictionary holds the last `dictSize` bytes and the lookahead. */
    ghost predicate Valid()
      reads this, dict, next, hash
    {
      && Arrays()
      && |input| == lookaheadPos + lookaheadSize && dictSize <= lookaheadPos
      && lookaheadSize <= MAX_MATCH && dictSize + lookaheadSize <= DICT_SIZE
      && Holds(dict[..], input, lookaheadPos - dictSize, |input|)
      && Chained(next[..], hash[..], input) && (dictSize < DICT_SIZE - MAX_MATCH ==> dictSize == lookaheadPos)
    }

    /** One byte into the ring, and into the mirror when it is one of the first. The window will start at `from`. */
    method Store(c: nat, dstPos: nat, ghost from: nat)
      requires Arrays() && c < 256 && dstPos == |input| % DICT_SIZE
      requires Holds(dict[..], input, from, |input|) && |input| + 1 - from <= DICT_SIZE
      modifies dict, this`input
      ensures Arrays() && input == old(input) + [c] && Holds(dict[..], input, from, |input|)
    {
      ghost var (before, was) := (dict[..], input);
      hide Holds;
      dict[dstPos] := c;
      if dstPos < MIRROR {
        dict[DICT_SIZE + dstPos] := c;
      }
      input := input + [c];
      StoreByte(before, dict[..], was, from, from, c);
    }

    /** A new head of the chain for `h`, the hash of the three bytes that the last one completes. */
    method Chain(h: nat, insPos: nat)
      requires Arrays() && |input| >= 3 && insPos == |input| - 3 && h == HashAt(input, insPos) < HASH_SIZE
      requires Chained(next[..], hash[..], input[..|input| - 1])
      modifies next, hash
      ensures Arrays() && Chained(next[..], hash[..], input)
    {
      hide Chained, HashAt;
      ghost var (n, g, was) := (next[..], hash[..], input[..|input| - 1]);
      assert was + [input[|input| - 1]] == input;
      ChainOne(n, g, was, input[|input| - 1]);
      next[insPos % DICT_SIZE] := hash[h];
      hash[h] := insPos % WORD;
      assert next[..] == n[insPos % DICT_SIZE := g[h]] && hash[..] == g[h := insPos % WORD];
    }

    /** Where the window starts once the lookahead holds `look` bytes. */
    ghost function Start(look: nat): nat
      reads this
      requires look <= MAX_MATCH && dictSize <= lookaheadPos
    {
      lookaheadPos - Min(dictSize, DICT_SIZE - look)
    }

    /** The hash register before the first loop, from the last two bytes. */
    method Register() returns (insPos: nat, h: nat)
      requires Valid() && lookaheadSize + dictSize >= MIN_MATCH - 1
      ensures |input| >= 2 && insPos == |input| - 2 && Rolling(h, input[insPos], input[insPos + 1])
    {
      hide Chained, Xor;
      insPos := lookaheadPos + lookaheadSize - 2;
      ReadAhead(dict[..], input, lookaheadPos - dictSize, |input|, insPos, 0);
      ReadAhead(dict[..], input, lookaheadPos - dictSize, |input|, insPos + 1, 0);
      h := Xor(dict[insPos % DICT_SIZE] * HASH_SHIFT, dict[(insPos + 1) % DICT_SIZE]);
    }

    /** The first loop: all bytes that fit the lookahead, with a rolling hash. */
    method FillRolling(src: array<nat>, pos0: nat, n: nat)
      requires Valid() && lookaheadSize + dictSize >= MIN_MATCH - 1 && lookaheadSize + n <= MAX_MATCH
      requires pos0 + n <= src.Length && (forall i :: pos0 <= i < pos0 + n ==> src[i] < 256)
      requires src != dict && src != next && src != hash
      modifies this`input, this`lookaheadSize, dict, next, hash
      ensures Arrays() && input == old(input) + src[pos0..pos0 + n] && lookaheadSize == old(lookaheadSize) + n
      ensures Holds(dict[..], input, Start(lookaheadSize), |input|) && Chained(next[..], hash[..], input)
    {
      hide Hash, Xor, Chained, Rolling, Arrays;
      Lengths();
      ghost var (was, from) := (input, Start(lookaheadSize + n));
      HoldsFrom(dict[..], input, lookaheadPos - dictSize, from);
      var dstPos := (lookaheadPos + lookaheadSize) % DICT_SIZE;
      var insPos, h := Register();
      lookaheadSize := lookaheadSize + n;
      for i := 0 to n
        invariant Arrays() && input == was + src[pos0..pos0 + i] && dstPos == |input| % DICT_SIZE
        invariant Holds(dict[..], input, from, |input|) && lookaheadSize == old(lookaheadSize) + n
        invariant |input| >= 2 && insPos == |input| - 2 && Rolling(h, input[insPos], input[insPos + 1])
        invariant Chained(next[..], hash[..], input)
      {
        hide Holds, Arrays, Rolling;
        dstPos, insPos, h := Roll(src[pos0 + i], dstPos, insPos, h, from);
        assert src[pos0..pos0 + i + 1] == src[pos0..pos0 + i] + [src[pos0 + i]];
      }
    }

    /** The body of that loop. */
    method Roll(c: nat, dstPos: nat, insPos: nat, h: nat, ghost from: nat) returns (dstPos': nat, insPos': nat, h': nat)
      requires Arrays() && c < 256 && dstPos == |input| % DICT_SIZE
      requires Holds(dict[..], input, from, |input|) && |input| + 1 - from <= DICT_SIZE
      requires |input| >= 2 && insPos == |input| - 2 && Rolling(h, input[insPos], input[insPos + 1])
      requires Chained(next[..], hash[..], input)
      modifies dict, next, hash, this`input
      ensures Arrays() && input == old(input) + [c] && Holds(dict[..], input, from, |input|)
      ensures dstPos' == |input| % DICT_SIZE && insPos' == insPos + 1
      ensures Rolling(h', input[insPos'], input[insPos' + 1]) && Chained(next[..], hash[..], input)
    {
      hide Holds, Xor, Hash, Rolling, Chained;
      NextResidue(|input|);
      RollOn(h, input[insPos], input[insPos + 1], c);
      ghost var was := input;
      Store(c, dstPos, from);
      assert input[..|input| - 1] == was;
      h' := Hash(h, c);
      Chain(h', insPos);
      dstPos' := (dstPos + 1) % DICT_SIZE;
      insPos' := insPos + 1;
    }

    /** The body of the second loop. */
    method FirstByte(c: nat, ghost from: nat)
      requires Arrays() && c < 256 && |input| == lookaheadPos + lookaheadSize && dictSize == lookaheadPos
      requires Holds(dict[..], input, from, |input|) && |input| + 1 - from <= DICT_SIZE && from == 0
      requires Chained(next[..], hash[..], input)
      modifies this`input, this`lookaheadSize, dict, next, hash
      ensures Arrays() && input == old(input) + [c] && lookaheadSize == old(lookaheadSize) + 1
      ensures Holds(dict[..], input, from, |input|) && Chained(next[..], hash[..], input)
    {
      hide Holds, Chained, HashAt, Xor;
      ghost var before := input;
      Store(c, (lookaheadPos + lookaheadSize) % DICT_SIZE, from);
      assert input[..|input| - 1] == before;
      lookaheadSize := lookaheadSize + 1;
      if lookaheadSize + dictSize >= MIN_MATCH {
        var insPos: nat := lookaheadPos + (lookaheadSize - 1) - 2;
        var c0, c1 := dict[insPos % DICT_SIZE], dict[(insPos + 1) % DICT_SIZE];
        ReadAhead(dict[..], input, from, |input|, insPos, 0);
        ReadAhead(dict[..], input, from, |input|, insPos + 1, 0);
        var h := Xor(Xor(c0 * (HASH_SHIFT * HASH_SHIFT), c1 * HASH_SHIFT), c);
        HashOf(input, insPos);
        Chain(h % HASH_SIZE, insPos);
      } else {
        ChainNothing(next[..], hash[..], before, c);
      }
    }

    /** The second loop, near the start of the stream: the chain is entered once three bytes are there. */
    method FillFirst(src: array<nat>, pos0: nat, n: nat)
      requires Valid() && lookaheadSize + n <= MAX_MATCH && lookaheadSize + dictSize < MIN_MATCH - 1
      requires pos0 + n <= src.Length && (forall i :: pos0 <= i < pos0 + n ==> src[i] < 256)
      requires src != dict && src != next && src != hash
      modifies this`input, this`lookaheadSize, dict, next, hash
      ensures Arrays() && input == old(input) + src[pos0..pos0 + n] && lookaheadSize == old(lookaheadSize) + n
      ensures Holds(dict[..], input, Start(lookaheadSize), |input|) && Chained(next[..], hash[..], input)
    {
      hide Hash, Xor, Chained;
      ghost var (was, from) := (input, Start(lookaheadSize + n));
      HoldsFrom(dict[..], input, lookaheadPos - dictSize, from);
      for i := 0 to n
        invariant Arrays() && input == was + src[pos0..pos0 + i] && |input| == lookaheadPos + lookaheadSize
        invariant Holds(dict[..], input, from, |input|) && from <= |input| && lookaheadSize == old(lookaheadSize) + i
        invariant Chained(next[..], hash[..], input)
      {
        hide Holds, Chained, HashAt, Arrays;
        var c := src[pos0 + i];
        FirstByte(c, from);
        assert src[pos0..pos0 + i + 1] == src[pos0..pos0 + i] + [c];
      }
    }

    /** The update of the dictionary at the head of the parsing loop: as much of the `left` source bytes as the
        lookahead has room for. */
    method Fill(src: array<nat>, pos0: nat, left: nat) returns (n: nat)
      requires Valid() && pos0 + left <= src.Length && (forall i :: pos0 <= i < pos0 + left ==> src[i] < 256)
      requires src != dict && src != next && src != hash
      modifies this`input, this`lookaheadSize, this`dictSize, dict, next, hash
      ensures n == Min(left, MAX_MATCH - old(lookaheadSize))
      ensures Valid() && input == old(input) + src[pos0..pos0 + n] && lookaheadSize == old(lookaheadSize) + n
      ensures dictSize <= old(dictSize)
    {
      n := Min(left, MAX_MATCH - lookaheadSize);
      if lookaheadSize + dictSize >= MIN_MATCH - 1 {
        FillRolling(src, pos0, n);
      } else {
        FillFirst(src, pos0, n);
      }
      dictSize := Min(DICT_SIZE - lookaheadSize, dictSize);
    }

    /** One `TDEFL_PROBE`: the next position of the chain. */
    method Probe(probePos: nat) returns (stop: bool, dist: nat, next': nat)
      requires Valid() && probePos < DICT_SIZE
      ensures var q := next[probePos];
              var d := (lookaheadPos - q) % WORD;
              && (stop <==> q == 0 || d > dictSize)
              && (!stop ==> dist == d && next' == q % DICT_SIZE == (lookaheadPos - d) % DICT_SIZE)
    {
      var nextProbePos := next[probePos];
      stop, dist, next' := true, 0, 0;
      if nextProbePos == 0 {
        return;
      }
      dist := (lookaheadPos - nextProbePos) % WORD;
      if dist > dictSize {
        return;
      }
      stop, next' := false, nextProbePos % DICT_SIZE;
      ChainPosition(lookaheadPos, nextProbePos, dist);
    }

    /** All positions of `walk` are beaten but those that a walk of `n` steps from slot `at` leads to, and `but`. */
    ghost predicate BeatenBut(walk: seq<nat>, at: nat, n: nat, len: nat, but: nat)
      reads this, next
    {
      && next.Length == DICT_SIZE && at < DICT_SIZE
      && forall d :: d in walk && d != but && d !in Walk(next[..], lookaheadPos, at, dictSize, n) ==>
           Beaten(input, lookaheadPos, d, len)
    }

    /** A chain that has come to its end leaves nothing. */
    lemma WalkEnds(walk: seq<nat>, at: nat, n: nat, len: nat)
      requires BeatenBut(walk, at, n, len, 0) && (forall i :: 0 <= i < |walk| ==> walk[i] > 0)
      requires n == 0 || next[at] == 0
               || (lookaheadPos - next[at]) % WORD > dictSize || (lookaheadPos - next[at]) % WORD == 0
      ensures forall d :: d in walk ==> Beaten(input, lookaheadPos, d, len)
    {
      hide Beaten;
      assert Walk(next[..], lookaheadPos, at, dictSize, n) == [];
      forall d | d in walk ensures Beaten(input, lookaheadPos, d, len) {
        assert d > 0;
      }
    }

    /** One step of the walk: only the position it leads to is still to be dealt with. */
    lemma WalkOn(walk: seq<nat>, at: nat, n: nat, len: nat)
      requires BeatenBut(walk, at, n, len, 0) && next[at] != 0 && 0 < (lookaheadPos - next[at]) % WORD <= dictSize
      requires forall i :: 0 <= i < |walk| ==> walk[i] > 0
      ensures BeatenBut(walk, next[at] % DICT_SIZE, if n == 0 then 0 else n - 1, len, (lookaheadPos - next[at]) % WORD)
    {
      hide Beaten;
      var d := (lookaheadPos - next[..][at]) % WORD;
      if n > 0 {
        var more := Walk(next[..], lookaheadPos, next[at] % DICT_SIZE, dictSize, n - 1);
        assert Walk(next[..], lookaheadPos, at, dictSize, n) == [d] + more;
      }
    }

    /** Walking further than asked for does no harm. */
    lemma WalkLonger(walk: seq<nat>, at: nat, n: nat, len: nat, but: nat)
      requires BeatenBut(walk, at, n, len, but)
      ensures BeatenBut(walk, at, n + 1, len, but)
    {
      hide Beaten, Walk;
      forall d | d in walk && d != but && d !in Walk(next[..], lookaheadPos, at, dictSize, n + 1)
        ensures Beaten(input, lookaheadPos, d, len)
      {
        if d in Walk(next[..], lookaheadPos, at, dictSize, n) {
          WalkMore(next[..], lookaheadPos, at, dictSize, n, d);
        }
      }
    }

    /** The two bytes at the end of a longer match tell a position that is no better. */
    lemma EndsDiffer(d: nat, len: nat)
      requires Valid() && 1 <= d <= dictSize && 1 <= len < lookaheadSize && len <= MIRROR
      requires var at := (lookaheadPos - d) % DICT_SIZE;
               dict[at + len] != input[lookaheadPos + len] || dict[at + len - 1] != input[lookaheadPos + len - 1]
      ensures Beaten(input, lookaheadPos, d, len)
    {
      hide Holds, Chained;
      ReadAhead(dict[..], input, lookaheadPos - dictSize, |input|, lookaheadPos - d, len);
      ReadAhead(dict[..], input, lookaheadPos - dictSize, |input|, lookaheadPos - d, len - 1);
    }

    /** A position whose end bytes differ needs no comparison. */
    lemma Skipped(walk: seq<nat>, at: nat, n: nat, len: nat, d: nat)
      requires Valid() && 0 < d <= dictSize && BeatenBut(walk, at, n, len, d) && at == (lookaheadPos - d) % DICT_SIZE
      requires 1 <= len < lookaheadSize && len <= MIRROR
      requires dict[at + len] != input[lookaheadPos + len] || dict[at + len - 1] != input[lookaheadPos + len - 1]
      ensures BeatenBut(walk, at, n, len, 0)
    {
      EndsDiffer(d, len);
      hide Beaten, Walk, Holds, Chained;
    }

    /** A position that has been compared is no longer than the longest match now. */
    lemma Compared(walk: seq<nat>, at: nat, n: nat, before: nat, len: nat, d: nat, probeLen: nat)
      requires BeatenBut(walk, at, n, before, d) && before <= len && probeLen <= len && probeLen <= lookaheadSize
      requires |input| == lookaheadPos + lookaheadSize
      requires probeLen < lookaheadSize ==> !TrueMatch(input, lookaheadPos, d, probeLen + 1)
      ensures BeatenBut(walk, at, n, len, 0)
    {
      hide Walk;
      assert Beaten(input, lookaheadPos, d, len);
      hide TrueMatch;
      forall e | e in walk && Beaten(input, lookaheadPos, e, before) ensures Beaten(input, lookaheadPos, e, len) {
        StillBeaten(input, lookaheadPos, e, before, len);
      }
    }

    lemma WalkStarts(walk: seq<nat>, at: nat, n: nat, len: nat)
      requires next.Length == DICT_SIZE && at < DICT_SIZE && walk == Walk(next[..], lookaheadPos, at, dictSize, n)
      ensures BeatenBut(walk, at, n, len, 0) && forall i :: 0 <= i < |walk| ==> walk[i] > 0
    {
      hide Beaten;
    }

    lemma Lengths()
      requires Arrays()
      ensures dict.Length == DICT_SIZE + MIRROR && next.Length == DICT_SIZE && hash.Length == HASH_SIZE
      ensures dict != next && dict != hash && next != hash
    {
    }

    lemma EndBytes(len: nat)
      requires Valid() && 1 <= len < lookaheadSize && len <= MIRROR
      ensures dict[lookaheadPos % DICT_SIZE + len] == input[lookaheadPos + len]
      ensures dict[lookaheadPos % DICT_SIZE + len - 1] == input[lookaheadPos + len - 1]
    {
      hide Holds, Chained;
      ReadAhead(dict[..], input, lookaheadPos - dictSize, |input|, lookaheadPos, len);
      ReadAhead(dict[..], input, lookaheadPos - dictSize, |input|, lookaheadPos, len - 1);
    }

    /** Follows the chain to the next position whose bytes at the end of the current match agree; `dist` 0 ends the
        search. */
    method NextCandidate(probes0: nat, probePos: nat, len: nat, c0: nat, c1: nat, ghost walk: seq<nat>)
      returns (found: bool, probes: nat, dist: nat, next': nat)
      requires Valid() && probePos < DICT_SIZE && probes0 >= 1 && 1 <= len < lookaheadSize && len <= MIRROR
      requires c0 == input[lookaheadPos + len] && c1 == input[lookaheadPos + len - 1]
      requires BeatenBut(walk, probePos, probes0 - 1, len, 0) && (forall i :: 0 <= i < |walk| ==> walk[i] > 0)
      ensures found ==> 1 <= probes < probes0 && dist <= dictSize && next' == (lookaheadPos - dist) % DICT_SIZE
      ensures found && dist > 0 ==> BeatenBut(walk, next', probes - 1, len, dist)
      ensures !found || dist == 0 ==> forall d :: d in walk ==> Beaten(input, lookaheadPos, d, len)
    {
      hide Holds, Chained, Beaten, BeatenBut;
      EndBytes(len);
      probes, next', dist, found := probes0, probePos, 0, false;
      while true
        invariant next' < DICT_SIZE && 1 <= probes <= probes0
        invariant BeatenBut(walk, next', probes - 1, len, 0)
        decreases probes
      {
        probes := probes - 1;
        if probes == 0 {
          WalkEnds(walk, next', 0, len);
          return;
        }
        for i := 0 to 3
          invariant next' < DICT_SIZE && BeatenBut(walk, next', if i == 0 then probes else probes - 1, len, 0)
        {
          ghost var (at, n) := (next', if i == 0 then probes else probes - 1);
          var stop;
          stop, dist, next' := Probe(next');
          if stop || dist == 0 {
            WalkEnds(walk, at, n, len);
          }
          if stop {
            return;
          }
          if dist > 0 {
            WalkOn(walk, at, n, len);
            if 0 < n < probes {
              WalkLonger(walk, next', n - 1, len, dist);
            }
          }
          if dict[next' + len] == c0 && dict[next' + len - 1] == c1 {
            found := true;
            return;
          }
          if dist > 0 {
            Skipped(walk, next', probes - 1, len, dist);
          }
        }
      }
    }

    /** How many of the bytes agree. */
    method Compare(pos: nat, probePos: nat, dist: nat, max: nat) returns (len: nat)
      requires Valid() && pos == lookaheadPos % DICT_SIZE && 1 <= dist <= dictSize
               && probePos == (lookaheadPos - dist) % DICT_SIZE
      requires max <= lookaheadSize
      ensures len <= max && TrueMatch(input, lookaheadPos, dist, len)
      ensures len < max ==> !TrueMatch(input, lookaheadPos, dist, len + 1)
    {
      hide Holds, Chained;
      len := 0;
      while len < max
        invariant len <= max && TrueMatch(input, lookaheadPos, dist, len)
      {
        ReadAhead(dict[..], input, lookaheadPos - dictSize, |input|, lookaheadPos, len);
        ReadAhead(dict[..], input, lookaheadPos - dictSize, |input|, lookaheadPos - dist, len);
        if dict[pos + len] != dict[probePos + len] {
          break;
        }
        len := len + 1;
      }
    }

    /** The distances that a search for more than `len0` bytes is sure to look at: one for every probe but one. */
    ghost function Candidates(maxProbes0: nat, maxProbes1: nat, len0: nat): seq<nat>
      reads this, next
      requires next.Length == DICT_SIZE && 1 <= maxProbes0 && 1 <= maxProbes1
    {
      var probes := if len0 >= 32 then maxProbes1 else maxProbes0;
      Walk(next[..], lookaheadPos, lookaheadPos % DICT_SIZE, dictSize, probes - 1)
    }

    /** The chains lead to repeats: the latest earlier position with the same three bytes, unless another position with
        their hash is in between, is looked at first. */
    lemma RecentFound(q: nat, maxProbes0: nat, maxProbes1: nat, len0: nat)
      requires Valid() && maxProbes0 >= 2 && maxProbes1 >= 2 && lookaheadSize >= MIN_MATCH
      requires 0 < q < lookaheadPos <= q + dictSize && q % WORD != 0
      requires TrueMatch(input, lookaheadPos, lookaheadPos - q, MIN_MATCH)
      requires forall r :: q < r < lookaheadPos ==> HashAt(input, r) != HashAt(input, lookaheadPos)
      ensures lookaheadPos - q in Candidates(maxProbes0, maxProbes1, len0)
    {
      hide Holds, HashAt, Chained;
      var p := lookaheadPos;
      SameHash(input, p, p - q);
      LinkAt(next[..], hash[..], input, p);
      LatestIs(input, HashAt(input, p), p, q);
      assert (p - q % WORD) % WORD == p - q;
    }

    /** `tdefl_find_match`: a longer match is reported only where there is one, whatever the chains say; and no position
        that the chain leads to within the probes allowed has a longer one. */
    method FindMatch(maxProbes0: nat, maxProbes1: nat, dist0: nat, len0: nat) returns (dist: nat, len: nat)
      requires Valid() && 1 <= maxProbes0 && 1 <= maxProbes1 && 1 <= len0 <= MIRROR
      ensures (dist, len) == (dist0, len0)
           || (len0 < len <= lookaheadSize && 1 <= dist <= dictSize && TrueMatch(input, lookaheadPos, dist, len))
      ensures forall d :: d in Candidates(maxProbes0, maxProbes1, len0) ==>
                len >= lookaheadSize || !TrueMatch(input, lookaheadPos, d, len + 1)
    {
      hide Holds, TrueMatch, Chained, BeatenBut, Walk, Arrays;
      Lengths();
      dist, len := dist0, len0;
      var pos: nat, max := lookaheadPos % DICT_SIZE, lookaheadSize;
      var probes := if len >= 32 then maxProbes1 else maxProbes0;
      var c0, c1 := dict[pos + len], dict[pos + len - 1];
      if max <= len {
        return;
      }
      var probePos: nat := pos;
      ghost var walk := Walk(next[..], lookaheadPos, pos, dictSize, probes - 1);
      WalkStarts(walk, pos, probes - 1, len);
      EndBytes(len);
      while true
        invariant 1 <= probes && probePos < DICT_SIZE && 1 <= len < max
        invariant (dist, len) == (dist0, len0)
               || (len0 < len <= lookaheadSize && 1 <= dist <= dictSize && TrueMatch(input, lookaheadPos, dist, len))
        invariant c0 == input[lookaheadPos + len] && c1 == input[lookaheadPos + len - 1]
        invariant BeatenBut(walk, probePos, probes - 1, len, 0)
        decreases probes
      {
        var found, d;
        found, probes, d, probePos := NextCandidate(probes, probePos, len, c0, c1, walk);
        if !found {
          return;
        }
        if d == 0 {
          break;
        }
        var probeLen := Compare(pos, probePos, d, max);
        Compared(walk, probePos, probes - 1, len, if probeLen > len then probeLen else len, d, probeLen);
        if probeLen > len {
          dist, len := d, probeLen;
          if len == max {
            return;
          }
          c0, c1 := dict[pos + len], dict[pos + len - 1];
          EndBytes(len);
        }
      }
    }

    /** The lookahead moves on over bytes that have been dealt with. */
    method Advance(n: nat)
      requires Valid() && n <= lookaheadSize
      modifies this`lookaheadPos, this`lookaheadSize, this`dictSize
      ensures Valid() && lookaheadPos == old(lookaheadPos) + n && lookaheadSize == old(lookaheadSize) - n
      ensures dictSize == old(dictSize) + n
    {
      lookaheadPos := lookaheadPos + n;
      lookaheadSize := lookaheadSize - n;
      dictSize := Min(dictSize + n, DICT_SIZE);
    }
  }

  /** Chains hold only the low 16 bits of a position. */
  lemma ChainPosition(p: nat, next: nat, dist: nat)
    requires next < WORD && dist == (p - next) % WORD && dist <= p
    ensures next % DICT_SIZE == (p - dist) % DICT_SIZE
  {
  }

  lemma NextResidue(n: nat)
    ensures (n % DICT_SIZE + 1) % DICT_SIZE == (n + 1) % DICT_SIZE
  {
  }

  lemma HoldsFrom(dict: seq<nat>, input: seq<nat>, from: nat, from': nat)
    requires Holds(dict, input, from, |input|) && from <= from' <= |input|
    ensures Holds(dict, input, from', |input|)
  {
    hide Stored;
  }
}
