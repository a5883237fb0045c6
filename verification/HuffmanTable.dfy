/** `tdefl_optimize_huffman_table`: from symbol frequencies to limited code lengths and the codes to emit. */
module HuffmanTable {
  import opened Bits
  import opened CanonicalCode
  import opened RadixSort
  import InflateTable
  import LengthLimit
  import MinimumRedundancy
  import Optimality
  import PrefixCodes

  const MAX_SYMBOLS: nat := 288
  const SUPPORTED := LengthLimit.SUPPORTED

  // ---- The symbols in use ----

  /** Every symbol that occurs, with its frequency, in ascending order of symbols. */
  function Collected(freqs: seq<nat>): seq<SymFreq> {
    if freqs == [] then []
    else
      var n := |freqs| - 1;
      Collected(freqs[..n]) + if freqs[n] > 0 then [SymFreq(freqs[n], n)] else []
  }

  lemma {:induction false} CollectedSyms(freqs: seq<nat>)
    ensures |Collected(freqs)| <= |freqs| && DistinctSyms(Collected(freqs))
    ensures forall x :: x in Collected(freqs) ==> x.sym < |freqs| && x.key == freqs[x.sym] > 0
  {
    if freqs != [] {
      var n := |freqs| - 1;
      CollectedSyms(freqs[..n]);
      var c := Collected(freqs[..n]);
      forall i | 0 <= i < |c| ensures c[i].sym < n {
        assert c[i] in c;
      }
    }
  }

  lemma {:induction false} CollectedAll(freqs: seq<nat>, s: nat)
    requires s < |freqs| && freqs[s] > 0
    ensures SymFreq(freqs[s], s) in Collected(freqs)
  {
    var n := |freqs| - 1;
    if s < n {
      CollectedAll(freqs[..n], s);
    }
  }

  lemma {:induction false} CollectedMass(freqs: seq<nat>)
    ensures Mass(Collected(freqs)) == Optimality.Sum(freqs)
  {
    if freqs != [] {
      CollectedMass(freqs[..|freqs| - 1]);
      var c := Collected(freqs[..|freqs| - 1]);
      if freqs[|freqs| - 1] == 0 {
        assert Collected(freqs) == c;
      } else {
        assert (c + [SymFreq(freqs[|freqs| - 1], |freqs| - 1)])[..|c|] == c;
      }
    }
  }

  lemma {:induction false} MassIsSum(s: seq<SymFreq>)
    ensures Mass(s) == Optimality.Sum(Keys(s))
  {
    if s != [] {
      MassIsSum(s[..|s| - 1]);
      assert Keys(s)[..|s| - 1] == Keys(s[..|s| - 1]);
    }
  }

  lemma {:induction false} SumAbove(freqs: seq<nat>, s: nat)
    requires s < |freqs|
    ensures freqs[s] <= Optimality.Sum(freqs)
  {
    if s < |freqs| - 1 {
      SumAbove(freqs[..|freqs| - 1], s);
    }
  }

  /** The sorted symbols: `pSyms` after the radix sort. */
  function Ranked(freqs: seq<nat>): seq<SymFreq> {
    Sorted(Collected(freqs))
  }

  /** What is known of them. */
  ghost predicate RankedWell(freqs: seq<nat>, r: seq<SymFreq>) {
    && |r| <= |freqs| && DistinctSyms(r) && Optimality.Frequencies(Keys(r)) && Optimality.Positive(Keys(r))
    && (forall i :: 0 <= i < |r| ==> r[i].sym < |freqs| && r[i].key == freqs[r[i].sym] > 0)
    && (forall s :: 0 <= s < |freqs| && freqs[s] > 0 ==> exists i :: 0 <= i < |r| && r[i].sym == s)
  }

  ghost predicate Frequencies16(freqs: seq<nat>) {
    Optimality.Sum(freqs) < 65536
  }

  lemma RankedIsRanked(freqs: seq<nat>)
    requires Frequencies16(freqs)
    ensures RankedWell(freqs, Ranked(freqs)) && |Ranked(freqs)| == |Collected(freqs)|
  {
    hide Buckets, Keys, Mass, Collected;
    var (c, r) := (Collected(freqs), Ranked(freqs));
    CollectedSyms(freqs);
    SortPermutes(c);
    DistinctAfterSort(c);
    forall x | x in c ensures x.key < 65536 {
      SumAbove(freqs, x.sym);
    }
    SortSorts(c);
    MassOfSort(c);
    CollectedMass(freqs);
    MassIsSum(r);
    forall i | 0 <= i < |r| ensures r[i] in c && Keys(r)[i] == r[i].key {
      assert r[i] in multiset(r);
      KeysAt(r, i);
    }
    forall s | 0 <= s < |freqs| && freqs[s] > 0 ensures exists i :: 0 <= i < |r| && r[i].sym == s {
      CollectedAll(freqs, s);
      assert SymFreq(freqs[s], s) in multiset(c);
      assert SymFreq(freqs[s], s) in r;
    }
  }

  // ---- Counting the lengths ----

  ghost predicate Tallied(counts: seq<int>, ls: seq<nat>) {
    |counts| == SUPPORTED + 1 && forall l :: 0 <= l <= SUPPORTED ==> counts[l] == Count(ls, l)
  }

  lemma {:induction false} TallyCodes(counts: seq<int>, ls: seq<nat>, i: nat)
    requires Tallied(counts, ls) && i <= SUPPORTED
    ensures LengthLimit.Codes(counts, i) == InflateTable.UsedUpTo(ls, i)
  {
    if i > 0 {
      TallyCodes(counts, ls, i - 1);
    }
  }

  lemma {:induction false} AllWithin(ls: seq<nat>, m: nat)
    requires forall k :: 0 <= k < |ls| ==> 1 <= ls[k] <= m
    ensures InflateTable.UsedUpTo(ls, m) == |ls|
  {
    if ls == [] {
      InflateTable.NoneByLength(m);
    } else {
      AllWithin(ls[..|ls| - 1], m);
      InflateTable.UsedByLength(ls, m);
    }
  }

  /** The Kraft sum of the lengths from 1 to `i`, by length. */
  function KraftTo(ls: seq<nat>, m: nat, i: nat): nat
    requires i <= m
  {
    if i == 0 then 0 else KraftTo(ls, m, i - 1) + Count(ls, i) * Pow2(m - i)
  }

  lemma {:induction false} TallyWeight(counts: seq<int>, ls: seq<nat>, m: nat, i: nat)
    requires Tallied(counts, ls) && i <= SUPPORTED && i <= m
    ensures LengthLimit.Weight(counts, m, i) == KraftTo(ls, m, i)
  {
    if i > 0 {
      TallyWeight(counts, ls, m, i - 1);
    }
  }

  lemma {:induction false} KraftOfMore(ls: seq<nat>, m: nat, i: nat)
    requires ls != [] && i <= m
    ensures var x := ls[|ls| - 1];
            KraftTo(ls, m, i) == KraftTo(ls[..|ls| - 1], m, i) + if 0 < x <= i then Pow2(m - x) else 0
  {
    if i > 0 {
      KraftOfMore(ls, m, i - 1);
      LengthLimit.Spread(Count(ls[..|ls| - 1], i), 1, Pow2(m - i));
    }
  }

  lemma {:induction false} KraftOfNone(m: nat, i: nat)
    requires i <= m
    ensures KraftTo([], m, i) == 0
  {
    if i > 0 {
      KraftOfNone(m, i - 1);
    }
  }

  lemma {:induction false} KraftByLength(ls: seq<nat>, m: nat)
    requires forall k :: 0 <= k < |ls| ==> 1 <= ls[k] <= m
    ensures KraftTo(ls, m, m) == Optimality.Kraft(ls, m)
  {
    if ls == [] {
      KraftOfNone(m, m);
    } else {
      KraftOfMore(ls, m, m);
      KraftByLength(ls[..|ls| - 1], m);
    }
  }

  /** The unlimited lengths describe a complete code, so that length limiting may start. */
  lemma LengthsTallied(keys: seq<nat>, counts: seq<int>, limit: nat)
    requires Optimality.Frequencies(keys) && Optimality.Positive(keys) && |keys| >= 2
    requires Tallied(counts, MinimumRedundancy.Lengths(keys)) && 1 <= limit <= SUPPORTED && |keys| <= Pow2(limit)
    ensures LengthLimit.CompleteCounts(counts, limit) && LengthLimit.Codes(counts, SUPPORTED) == |keys|
  {
    hide Pow2, Optimality.Kraft, LengthLimit.Codes, LengthLimit.Weight, Count;
    var ls := MinimumRedundancy.Lengths(keys);
    forall k | 0 <= k < |keys| ensures 1 <= ls[k] <= SUPPORTED {
      Optimality.LengthBound(keys, k);
    }
    TallyCodes(counts, ls, SUPPORTED);
    AllWithin(ls, SUPPORTED);
    TallyWeight(counts, ls, SUPPORTED, SUPPORTED);
    KraftByLength(ls, SUPPORTED);
    KraftAt(keys, SUPPORTED);
  }

  lemma KraftAt(keys: seq<nat>, m: nat)
    requires |keys| >= 2 && Optimality.UpTo(MinimumRedundancy.Lengths(keys), m)
    ensures Optimality.Kraft(MinimumRedundancy.Lengths(keys), m) == Pow2(m)
  {
    hide Pow2, Optimality.Kraft, MinimumRedundancy.Lengths;
    var ls := MinimumRedundancy.Lengths(keys);
    Optimality.LengthsComplete(keys, |keys| + m);
    ScaleDown(ls, |keys| + m, m);
  }

  lemma {:induction false} ScaleDown(ls: seq<nat>, m: nat, k: nat)
    requires Optimality.UpTo(ls, k) && k <= m && Optimality.Kraft(ls, m) == Pow2(m)
    ensures Optimality.Kraft(ls, k) == Pow2(k)
    decreases m
  {
    if k < m {
      Optimality.KraftDouble(ls, m - 1);
      ScaleDown(ls, m - 1, k);
    }
  }

  // ---- Handing out the limited lengths ----

  /** `len` is the length of the symbol that `r` more frequent ones precede. */
  ghost predicate RankLength(counts: seq<int>, len: nat, r: int) {
    1 <= len < |counts| && LengthLimit.Codes(counts, len - 1) <= r < LengthLimit.Codes(counts, len)
  }

  lemma RankLengthUnique(counts: seq<int>, a: nat, b: nat, r: int, q: int)
    requires LengthLimit.NonNegative(counts) && RankLength(counts, a, r) && RankLength(counts, b, q) && r <= q
    ensures a <= b
  {
    if b < a {
      LengthLimit.CodesGrow(counts, b, a - 1);
    }
  }

  lemma {:induction false} CountUpdate(sizes: seq<nat>, p: nat, v: nat, l: nat)
    requires p < |sizes| && sizes[p] == 0 && v > 0 && l > 0
    ensures Count(sizes[p := v], l) == Count(sizes, l) + if l == v then 1 else 0
  {
    var (n, s') := (|sizes| - 1, sizes[p := v]);
    if p < n {
      CountUpdate(sizes[..n], p, v, l);
      assert s'[..n] == sizes[..n][p := v];
    } else {
      assert s'[..n] == sizes[..n];
    }
  }

  lemma {:induction false} CountZeros(sizes: seq<nat>, l: nat)
    requires l > 0 && forall p :: 0 <= p < |sizes| ==> sizes[p] == 0
    ensures Count(sizes, l) == 0
  {
    if sizes != [] {
      CountZeros(sizes[..|sizes| - 1], l);
    }
  }

  /** The symbols from rank `j` on have their lengths, the others none yet; `used - j` is how many have one. */
  ghost predicate Handed(counts: seq<int>, syms: seq<SymFreq>, sizes: seq<nat>, j: nat) {
    && j <= |syms|
    && (forall k :: 0 <= k < |syms| ==> syms[k].sym < |sizes|)
    && (forall k :: 0 <= k < j ==> sizes[syms[k].sym] == 0)
    && (forall k :: j <= k < |syms| ==> RankLength(counts, sizes[syms[k].sym], |syms| - 1 - k))
    && (forall p :: 0 <= p < |sizes| && sizes[p] > 0 ==> exists k :: j <= k < |syms| && syms[k].sym == p)
  }

  /** The next length handed out. */
  lemma HandOne(counts: seq<int>, syms: seq<SymFreq>, sizes: seq<nat>, j: nat, i: nat)
    requires Handed(counts, syms, sizes, j) && j > 0 && DistinctSyms(syms)
    requires RankLength(counts, i, |syms| - j)
    ensures Handed(counts, syms, sizes[syms[j - 1].sym := i], j - 1)
  {
    hide LengthLimit.Codes;
    var sizes' := sizes[syms[j - 1].sym := i];
    forall p | 0 <= p < |sizes'| && sizes'[p] > 0
      ensures exists k :: j - 1 <= k < |syms| && syms[k].sym == p
    {
      if p != syms[j - 1].sym {
        var k :| j <= k < |syms| && syms[k].sym == p;
        assert syms[k].sym == p;
      }
    }
  }

  /** All lengths below `i` and `done` of length `i` have been handed out. */
  ghost predicate CountsTo(counts: seq<int>, sizes: seq<nat>, limit: nat, i: nat, done: int) {
    limit < |counts|
    && forall l :: 1 <= l <= limit ==> Count(sizes, l) == if l < i then counts[l] else if l == i then done else 0
  }

  lemma CountsStep(counts: seq<int>, sizes: seq<nat>, limit: nat, i: nat, done: int, p: nat)
    requires CountsTo(counts, sizes, limit, i, done) && 1 <= i <= limit && p < |sizes| && sizes[p] == 0
    ensures CountsTo(counts, sizes[p := i], limit, i, done + 1)
  {
    hide Count;
    forall l | 1 <= l <= limit
      ensures Count(sizes[p := i], l) == if l < i then counts[l] else if l == i then done + 1 else 0
    {
      CountUpdate(sizes, p, i, l);
    }
  }

  lemma CountsNext(counts: seq<int>, sizes: seq<nat>, limit: nat, i: nat)
    requires limit < |counts| && CountsTo(counts, sizes, limit, i, if 1 <= i <= limit then counts[i] else 0)
    ensures CountsTo(counts, sizes, limit, i + 1, 0)
  {
    hide Count;
  }

  lemma CountsStart(counts: seq<int>, sizes: seq<nat>, limit: nat)
    requires limit < |counts| && forall p :: 0 <= p < |sizes| ==> sizes[p] == 0
    ensures CountsTo(counts, sizes, limit, 1, 0)
  {
    hide Count;
    forall l | 1 <= l <= limit ensures Count(sizes, l) == 0 {
      CountZeros(sizes, l);
    }
  }

  method HandOut(syms: array<SymFreq>, used: nat, numCodes: array<int>, limit: nat, codeSizes: array<nat>)
    requires used <= syms.Length && DistinctSyms(syms[..used]) && numCodes.Length == SUPPORTED + 1 && limit <= SUPPORTED
    requires forall k :: 0 <= k < used ==> syms[k].sym < codeSizes.Length
    requires LengthLimit.NonNegative(numCodes[..]) && LengthLimit.Codes(numCodes[..], limit) == used
    requires forall p :: 0 <= p < codeSizes.Length ==> codeSizes[p] == 0
    requires numCodes as object != codeSizes && syms as object != codeSizes
    modifies codeSizes
    ensures Handed(numCodes[..], syms[..used], codeSizes[..], 0)
    ensures CountsTo(numCodes[..], codeSizes[..], limit, limit + 1, 0)
  {
    hide CountsTo, LengthLimit.Codes, DistinctSyms;
    ghost var (counts, s) := (numCodes[..], syms[..used]);
    CountsStart(counts, codeSizes[..], limit);
    assert LengthLimit.Codes(counts, 0) == 0 by { NoCodes(counts); }
    var j: nat := used;
    for i := 1 to limit + 1
      invariant syms[..used] == s && numCodes[..] == counts
      invariant j == used - LengthLimit.Codes(counts, i - 1) && Handed(counts, s, codeSizes[..], j)
      invariant CountsTo(counts, codeSizes[..], limit, i, 0)
    {
      CodesStep(counts, i, limit);
      j := HandOutLength(syms, used, numCodes, limit, codeSizes, i, j);
      CountsNext(counts, codeSizes[..], limit, i);
    }
  }

  /** The inner loop: the codes of length `i`. */
  method HandOutLength(syms: array<SymFreq>, used: nat, numCodes: array<int>, limit: nat, codeSizes: array<nat>,
                       i: nat, j0: nat)
    returns (j: nat)
    requires used <= syms.Length && DistinctSyms(syms[..used]) && numCodes.Length == SUPPORTED + 1
             && 1 <= i <= limit <= SUPPORTED
    requires numCodes[i] >= 0 && j0 == used - LengthLimit.Codes(numCodes[..], i - 1) >= numCodes[i]
    requires LengthLimit.Codes(numCodes[..], i) == LengthLimit.Codes(numCodes[..], i - 1) + numCodes[i]
    requires Handed(numCodes[..], syms[..used], codeSizes[..], j0)
    requires CountsTo(numCodes[..], codeSizes[..], limit, i, 0)
    requires numCodes as object != codeSizes && syms as object != codeSizes
    modifies codeSizes
    ensures j == used - LengthLimit.Codes(numCodes[..], i)
    ensures Handed(numCodes[..], syms[..used], codeSizes[..], j)
    ensures CountsTo(numCodes[..], codeSizes[..], limit, i, numCodes[i])
  {
    hide CountsTo, LengthLimit.Codes, DistinctSyms;
    ghost var (counts, s) := (numCodes[..], syms[..used]);
    j := j0;
    var l := numCodes[i];
    while l > 0
      invariant syms[..used] == s && numCodes[..] == counts && 0 <= l <= counts[i]
      invariant j == j0 - counts[i] + l && Handed(counts, s, codeSizes[..], j)
      invariant CountsTo(counts, codeSizes[..], limit, i, counts[i] - l)
    {
      ghost var sizes := codeSizes[..];
      HandOne(counts, s, sizes, j, i);
      CountsStep(counts, sizes, limit, i, counts[i] - l, s[j - 1].sym);
      j := j - 1;
      codeSizes[syms[j].sym] := i;
      assert codeSizes[..] == sizes[s[j].sym := i];
      l := l - 1;
    }
  }

  lemma NoCodes(counts: seq<int>)
    requires |counts| > 0
    ensures LengthLimit.Codes(counts, 0) == 0
  {
  }

  lemma CodesStep(counts: seq<int>, i: nat, limit: nat)
    requires LengthLimit.NonNegative(counts) && 1 <= i <= limit < |counts|
    ensures LengthLimit.Codes(counts, i) ==
            LengthLimit.Codes(counts, i - 1) + counts[i] <= LengthLimit.Codes(counts, limit)
  {
    LengthLimit.CodesGrow(counts, i, limit);
  }

  // ---- The codes to emit ----

  /** `next_code` before symbol `i` is numbered. */
  ghost predicate Numbered(nextCode: seq<nat>, sizes: seq<nat>, i: nat, limit: nat) {
    limit < |nextCode| && i <= |sizes|
    && forall l :: 1 <= l <= limit ==> nextCode[l] == First(sizes, l) + Count(sizes[..i], l)
  }

  lemma NumberOne(nextCode: seq<nat>, sizes: seq<nat>, i: nat, limit: nat)
    requires Numbered(nextCode, sizes, i, limit) && i < |sizes| && sizes[i] <= limit
    ensures sizes[i] > 0 ==> nextCode[sizes[i]] == CodeOf(sizes, i)
    ensures sizes[i] == 0 ==> Numbered(nextCode, sizes, i + 1, limit)
    ensures sizes[i] > 0 ==> Numbered(nextCode[sizes[i] := nextCode[sizes[i]] + 1], sizes, i + 1, limit)
  {
    hide First, Count;
    InflateTable.CountStep(sizes, i);
  }

  /** Canonical codes, turned around for the bit buffer. */
  method NumberCodes(numCodes: array<int>, codeSizes: array<nat>, codes: array<nat>, tableLen: nat, limit: nat)
    requires tableLen <= codeSizes.Length && tableLen <= codes.Length && numCodes.Length == SUPPORTED + 1
             && 1 <= limit <= SUPPORTED
    requires forall l :: 1 <= l <= limit ==> numCodes[l] == Count(codeSizes[..tableLen], l)
    requires forall i :: 0 <= i < tableLen ==> codeSizes[i] <= limit
    requires codes != codeSizes && numCodes as object != codes
    modifies codes
    ensures forall i :: 0 <= i < tableLen && codeSizes[i] > 0 ==> codes[i] == Packed(codeSizes[..tableLen], i)
    ensures forall i :: 0 <= i < codes.Length && (i < tableLen ==> codeSizes[i] == 0) ==> codes[i] == old(codes[i])
  {
    hide Count, First, CodeOf, Numbered;
    ghost var sizes := codeSizes[..tableLen];
    var nextCode := NextCodes(numCodes, limit, sizes);
    for i := 0 to tableLen
      invariant codeSizes[..tableLen] == sizes && nextCode.Length == SUPPORTED + 1
      invariant Numbered(nextCode[..], sizes, i, limit)
      invariant forall k :: 0 <= k < i && sizes[k] > 0 ==> codes[k] == Packed(sizes, k)
      invariant forall k :: 0 <= k < codes.Length && (k < i ==> sizes[k] == 0) ==> codes[k] == old(codes[k])
    {
      ghost var before := nextCode[..];
      var size := codeSizes[i];
      NumberOne(before, sizes, i, limit);
      if size != 0 {
        var code := nextCode[size];
        nextCode[size] := nextCode[size] + 1;
        assert nextCode[..] == before[size := before[size] + 1];
        codes[i] := InflateTable.ReverseCode(code, size);
      }
    }
  }

  method NextCodes(numCodes: array<int>, limit: nat, ghost sizes: seq<nat>) returns (nextCode: array<nat>)
    requires numCodes.Length == SUPPORTED + 1 && 1 <= limit <= SUPPORTED
    requires forall l :: 1 <= l <= limit ==> numCodes[l] == Count(sizes, l)
    ensures fresh(nextCode) && nextCode.Length == SUPPORTED + 1 && Numbered(nextCode[..], sizes, 0, limit)
  {
    hide Count;
    nextCode := new nat[SUPPORTED + 1](_ => 0);
    nextCode[1] := 0;
    var j := 0;
    for i := 2 to limit + 1
      invariant numCodes[..] == old(numCodes[..])
      invariant i - 1 <= limit ==> j == First(sizes, i - 1)
      invariant forall l :: 1 <= l < i && l <= limit ==> nextCode[l] == First(sizes, l)
    {
      j := (j + numCodes[i - 1]) * 2;
      nextCode[i] := j;
    }
    forall l | 1 <= l <= limit ensures Count(sizes[..0], l) == 0 {
      CountZeros(sizes[..0], l);
    }
  }

  // ---- The whole table ----

  lemma {:induction false} CountFront(sizes: seq<nat>, n: nat, l: nat)
    requires l > 0 && n <= |sizes| && forall p :: n <= p < |sizes| ==> sizes[p] == 0
    ensures Count(sizes[..n], l) == Count(sizes, l)
  {
    if n < |sizes| {
      CountFront(sizes[..|sizes| - 1], n, l);
      assert sizes[..|sizes| - 1][..n] == sizes[..n];
    } else {
      assert sizes[..n] == sizes;
    }
  }

  /** The Kraft sum in the form in which codes are numbered. */
  lemma {:induction false} FirstIsWeight(counts: seq<int>, sizes: seq<nat>, m: nat)
    requires m < |counts| && forall l :: 1 <= l <= m ==> counts[l] == Count(sizes, l)
    ensures First(sizes, m + 1) == 2 * LengthLimit.Weight(counts, m, m)
  {
    hide Count;
    if m > 0 {
      FirstIsWeight(counts, sizes, m - 1);
      LengthLimit.WeightDouble(counts, m - 1, m - 1);
      assert Pow2(0) == 1;
    }
  }

  lemma {:induction false} FirstAbove(sizes: seq<nat>, limit: nat, m: nat)
    requires limit < m && First(sizes, limit + 1) == Pow2(limit + 1)
    requires forall i :: 0 <= i < |sizes| ==> sizes[i] <= limit
    ensures First(sizes, m) == Pow2(m)
  {
    if limit + 1 < m {
      FirstAbove(sizes, limit, m - 1);
      CountBeyond(sizes, m - 1);
    }
  }

  lemma {:induction false} CountBeyond(sizes: seq<nat>, l: nat)
    requires forall i :: 0 <= i < |sizes| ==> sizes[i] < l
    ensures Count(sizes, l) == 0
  {
    if sizes != [] {
      CountBeyond(sizes[..|sizes| - 1], l);
    }
  }

  lemma LimitedIsComplete(counts: seq<int>, sizes: seq<nat>, limit: nat)
    requires 1 <= limit <= MAX_BITS && limit < |counts| && LengthLimit.Weight(counts, limit, limit) == Pow2(limit)
    requires forall l :: 1 <= l <= limit ==> counts[l] == Count(sizes, l)
    requires forall i :: 0 <= i < |sizes| ==> sizes[i] <= limit
    ensures Complete(sizes)
  {
    hide Count;
    FirstIsWeight(counts, sizes, limit);
    FirstAbove(sizes, limit, 16);
    Pow2Values();
  }

  /** What the handed-out lengths mean for the symbols. */
  ghost predicate Suits(freqs: seq<nat>, sizes: seq<nat>, limit: nat) {
    && |freqs| <= |sizes|
    && (forall i :: 0 <= i < |sizes| ==> sizes[i] <= limit)
    && (forall i :: 0 <= i < |sizes| ==> (sizes[i] > 0 <==> i < |freqs| && freqs[i] > 0))
    && (forall i, j :: 0 <= i < |freqs| && 0 <= j < |freqs| && 0 < freqs[i] < freqs[j] ==> sizes[j] <= sizes[i])
  }

  lemma RankWithin(counts: seq<int>, len: nat, r: int, limit: nat)
    requires LengthLimit.NonNegative(counts) && limit < |counts| && r < LengthLimit.Codes(counts, limit)
    requires RankLength(counts, len, r)
    ensures len <= limit
  {
    if limit < len {
      LengthLimit.CodesGrow(counts, limit, len - 1);
    }
  }

  lemma HandedWithin(freqs: seq<nat>, r: seq<SymFreq>, counts: seq<int>, sizes: seq<nat>, limit: nat, i: nat)
    requires RankedWell(freqs, r) && Handed(counts, r, sizes, 0) && |freqs| <= |sizes|
    requires LengthLimit.NonNegative(counts) && limit < |counts| && LengthLimit.Codes(counts, limit) == |r|
    requires i < |sizes|
    ensures sizes[i] <= limit && (sizes[i] > 0 <==> i < |freqs| && freqs[i] > 0)
  {
    hide LengthLimit.Codes, LengthLimit.NonNegative, RankLength, DistinctSyms, Optimality.Frequencies,
         Optimality.Positive;
    if sizes[i] > 0 {
      var k :| 0 <= k < |r| && r[k].sym == i;
      RankWithin(counts, sizes[i], |r| - 1 - k, limit);
    } else if i < |freqs| && freqs[i] > 0 {
      var k :| 0 <= k < |r| && r[k].sym == i;
      assert RankLength(counts, sizes[i], |r| - 1 - k);
      RankPositive(counts, sizes[i], |r| - 1 - k);
    }
  }

  lemma RankPositive(counts: seq<int>, len: nat, r: int)
    requires RankLength(counts, len, r)
    ensures len >= 1
  {
  }

  /** Of two keys, the smaller one comes first. */
  lemma AscendingBack(keys: seq<nat>, a: nat, b: nat)
    requires MinimumRedundancy.Ascending(keys) && a < |keys| && b < |keys| && keys[a] < keys[b]
    ensures a < b
  {
  }

  lemma HandedOrder(freqs: seq<nat>, r: seq<SymFreq>, counts: seq<int>, sizes: seq<nat>, i: nat, j: nat)
    requires RankedWell(freqs, r) && Handed(counts, r, sizes, 0) && |freqs| <= |sizes|
    requires LengthLimit.NonNegative(counts) && i < |freqs| && j < |freqs| && 0 < freqs[i] < freqs[j]
    ensures sizes[j] <= sizes[i]
  {
    hide LengthLimit.Codes, LengthLimit.NonNegative, RankLength, DistinctSyms, Keys, Optimality.Sum,
         Optimality.Positive;
    var a :| 0 <= a < |r| && r[a].sym == i;
    var b :| 0 <= b < |r| && r[b].sym == j;
    KeysAt(r, a);
    KeysAt(r, b);
    AscendingBack(Keys(r), a, b);
    RankLengthUnique(counts, sizes[j], sizes[i], |r| - 1 - b, |r| - 1 - a);
  }

  lemma HandedSuits(freqs: seq<nat>, r: seq<SymFreq>, counts: seq<int>, sizes: seq<nat>, limit: nat)
    requires RankedWell(freqs, r) && Handed(counts, r, sizes, 0) && |freqs| <= |sizes|
    requires LengthLimit.NonNegative(counts) && limit < |counts| && LengthLimit.Codes(counts, limit) == |r|
    ensures Suits(freqs, sizes, limit)
  {
    hide RankedWell, Handed, LengthLimit.Codes, LengthLimit.NonNegative;
    forall i | 0 <= i < |sizes|
      ensures sizes[i] <= limit && (sizes[i] > 0 <==> i < |freqs| && freqs[i] > 0)
    {
      HandedWithin(freqs, r, counts, sizes, limit, i);
    }
    forall i, j | 0 <= i < |freqs| && 0 <= j < |freqs| && 0 < freqs[i] < freqs[j]
      ensures sizes[j] <= sizes[i]
    {
      HandedOrder(freqs, r, counts, sizes, i, j);
    }
  }

  // ---- When no length has to be limited ----

  lemma {:induction false} AtLeastFrom(ls: seq<nat>, k: nat, l: nat)
    requires k <= |ls| && forall i :: k <= i < |ls| ==> 1 <= ls[i] <= l
    ensures InflateTable.UsedUpTo(ls, l) >= |ls| - k
  {
    if k < |ls| {
      AtLeastFrom(ls[..|ls| - 1], k, l);
      InflateTable.UsedByLength(ls, l);
    }
  }

  lemma {:induction false} AtMostFrom(ls: seq<nat>, m: nat, l: nat)
    requires m <= |ls| && forall i :: 0 <= i < m ==> ls[i] > l
    ensures InflateTable.UsedUpTo(ls, l) <= |ls| - m
  {
    if ls == [] {
      InflateTable.NoneByLength(l);
    } else {
      AtMostFrom(ls[..|ls| - 1], if m < |ls| then m else m - 1, l);
      InflateTable.UsedByLength(ls, l);
    }
  }

  ghost predicate Falling(ls: seq<nat>) {
    forall i, j :: 0 <= i <= j < |ls| ==> ls[i] >= ls[j] >= 1
  }

  /** Falling lengths are their own ranks. */
  lemma FallingRank(counts: seq<int>, ls: seq<nat>, k: nat)
    requires Tallied(counts, ls) && Falling(ls) && k < |ls| && ls[k] <= SUPPORTED
    ensures RankLength(counts, ls[k], |ls| - 1 - k)
  {
    hide Count, LengthLimit.Codes;
    AtLeastFrom(ls, k, ls[k]);
    AtMostFrom(ls, k + 1, ls[k] - 1);
    TallyCodes(counts, ls, ls[k]);
    TallyCodes(counts, ls, ls[k] - 1);
  }

  lemma UnlimitedLengths(keys: seq<nat>, r: seq<SymFreq>, counts: seq<int>, sizes: seq<nat>, k: nat)
    requires keys == Keys(r) && Optimality.Frequencies(keys) && Optimality.Positive(keys)
    requires Tallied(counts, MinimumRedundancy.Lengths(keys)) && Handed(counts, r, sizes, 0) && k < |r|
    ensures sizes[r[k].sym] == MinimumRedundancy.Lengths(keys)[k]
  {
    hide LengthLimit.Codes, Count, MinimumRedundancy.Run, MinimumRedundancy.LeafDepth, Keys;
    var ls := MinimumRedundancy.Lengths(keys);
    forall i, j | 0 <= i <= j < |ls| ensures ls[i] >= ls[j] >= 1 {
      Optimality.LengthsFall(keys, i, j);
    }
    Optimality.LengthBound(keys, k);
    FallingRank(counts, ls, k);
    RankLengthUnique(counts, sizes[r[k].sym], ls[k], |r| - 1 - k, |r| - 1 - k);
    RankLengthUnique(counts, ls[k], sizes[r[k].sym], |r| - 1 - k, |r| - 1 - k);
  }

  // ---- tdefl_optimize_huffman_table ----

  method Collect(freqs: array<nat>, tableLen: nat) returns (syms: array<SymFreq>, used: nat)
    requires tableLen <= freqs.Length && tableLen <= MAX_SYMBOLS
    ensures fresh(syms) && syms.Length == MAX_SYMBOLS && used <= tableLen
    ensures syms[..used] == Collected(freqs[..tableLen])
  {
    syms := new SymFreq[MAX_SYMBOLS](_ => SymFreq(0, 0));
    used := 0;
    for i := 0 to tableLen
      invariant used <= i && syms[..used] == Collected(freqs[..i])
    {
      assert freqs[..i + 1][..i] == freqs[..i];
      if freqs[i] != 0 {
        syms[used] := SymFreq(freqs[i], i);
        used := used + 1;
      }
    }
  }

  /** Counting how many codes have each length. */
  method Tally(keys: array<nat>, n: nat) returns (numCodes: array<int>)
    requires n <= keys.Length && forall i :: 0 <= i < n ==> keys[i] <= SUPPORTED
    ensures fresh(numCodes) && Tallied(numCodes[..], keys[..n])
  {
    numCodes := new int[SUPPORTED + 1](_ => 0);
    for i := 0 to n
      invariant Tallied(numCodes[..], keys[..i])
    {
      assert keys[..i + 1][..i] == keys[..i];
      numCodes[keys[i]] := numCodes[keys[i]] + 1;
    }
  }

  lemma FewSymbols(counts: seq<int>, keys: seq<nat>, limit: nat)
    requires |keys| <= 1 && Tallied(counts, MinimumRedundancy.Lengths(keys)) && 1 <= limit <= SUPPORTED
    ensures LengthLimit.NonNegative(counts) && LengthLimit.Codes(counts, limit) == |keys|
  {
    hide Count;
    var ls := MinimumRedundancy.Lengths(keys);
    TallyCodes(counts, ls, limit);
    AllWithin(ls, limit);
  }

  /** The keys become code lengths. */
  method UnlimitedSizes(syms: array<SymFreq>, used: nat) returns (keys: array<nat>)
    requires used <= syms.Length && used <= MAX_SYMBOLS
    requires Optimality.Frequencies(Keys(syms[..used])) && Optimality.Positive(Keys(syms[..used]))
    ensures fresh(keys) && keys.Length == used && keys[..] == MinimumRedundancy.Lengths(Keys(syms[..used]))
    ensures forall i :: 0 <= i < used ==> keys[i] <= SUPPORTED
  {
    hide MinimumRedundancy.Lengths, Optimality.Sum, MinimumRedundancy.Ascending;
    ghost var keySeq := Keys(syms[..used]);
    keys := new nat[used];
    for i := 0 to used
      invariant keys[..i] == keySeq[..i]
    {
      KeysAt(syms[..used], i);
      keys[i] := syms[i].key;
    }
    assert keys[..] == keySeq;
    forall i | 0 <= i < used ensures keys[i] < 65536 {
      SumAbove(keySeq, i);
    }
    MinimumRedundancy.CalculateMinimumRedundancy(keys);
    forall i | 0 <= i < used ensures keys[i] <= SUPPORTED {
      Optimality.LengthBound(keySeq, i);
      assert keys[i] == keys[..][i];
    }
  }

  /** The unlimited lengths, counted, with those above the limit shortened. */
  method LimitedCounts(syms: array<SymFreq>, used: nat, limit: nat, ghost freqs: seq<nat>)
    returns (numCodes: array<int>)
    requires used <= syms.Length && used <= MAX_SYMBOLS && 1 <= limit < SUPPORTED && used <= Pow2(limit)
    requires RankedWell(freqs, syms[..used])
    ensures fresh(numCodes) && numCodes.Length == SUPPORTED + 1
    ensures LengthLimit.NonNegative(numCodes[..]) && LengthLimit.Codes(numCodes[..], limit) == used
    ensures used >= 2 ==> LengthLimit.Weight(numCodes[..], limit, limit) == Pow2(limit)
    ensures var ls := MinimumRedundancy.Lengths(Keys(syms[..used]));
            Optimality.UpTo(ls, limit) ==> Tallied(numCodes[..], ls)
  {
    hide LengthLimit.Codes, LengthLimit.Weight, MinimumRedundancy.Lengths, Count, Pow2, Optimality.Sum,
         MinimumRedundancy.Ascending;
    ghost var keySeq := Keys(syms[..used]);
    ghost var ls := MinimumRedundancy.Lengths(keySeq);
    var keys := UnlimitedSizes(syms, used);
    assert keys[..used] == keys[..];
    numCodes := Tally(keys, used);
    ghost var counts := numCodes[..];
    if used >= 2 {
      LengthsTallied(keySeq, counts, limit);
    } else {
      FewSymbols(counts, keySeq, limit);
    }
    if Optimality.UpTo(ls, limit) {
      NoneTallied(counts, ls, limit);
    }
    LengthLimit.EnforceMaxCodeSize(numCodes, used, limit);
  }

  lemma NoneTallied(counts: seq<int>, ls: seq<nat>, limit: nat)
    requires Tallied(counts, ls) && Optimality.UpTo(ls, limit)
    ensures LengthLimit.NoneLonger(counts, limit)
  {
    hide Count;
    forall l | limit < l < |counts| ensures counts[l] == 0 {
      CountBeyond(ls, l);
    }
  }

  lemma AtMostOneUsed(freqs: seq<nat>, r: seq<SymFreq>, sizes: seq<nat>, limit: nat)
    requires RankedWell(freqs, r) && |r| <= 1 && Suits(freqs, sizes, limit)
    ensures InflateTable.AtMostOne(sizes)
  {
  }

  method SortedSymbols(freqs: array<nat>, tableLen: nat) returns (syms: array<SymFreq>, used: nat)
    requires tableLen <= freqs.Length && tableLen <= MAX_SYMBOLS && Frequencies16(freqs[..tableLen])
    ensures fresh(syms) && used <= syms.Length && used <= tableLen
    ensures syms[..used] == Ranked(freqs[..tableLen]) && RankedWell(freqs[..tableLen], syms[..used])
  {
    hide Collected, Buckets, RankedWell, Frequencies16;
    var syms0;
    syms0, used := Collect(freqs, tableLen);
    var syms1 := new SymFreq[MAX_SYMBOLS](_ => SymFreq(0, 0));
    syms := RadixSortSyms(used, syms0, syms1);
    RankedIsRanked(freqs[..tableLen]);
  }

  /** What the dynamic branch makes of the frequencies `f`. */
  ghost predicate DynamicTable(f: seq<nat>, sizes: seq<nat>, limit: nat) {
    && Suits(f, sizes, limit)
    && InflateTable.Accepted(sizes[..|f|])
    && (|Ranked(f)| >= 2 ==> Complete(sizes[..|f|]))
    && KeepsShort(Ranked(f), sizes, limit)
  }

  lemma TableMade(f: seq<nat>, counts: seq<int>, sizes: seq<nat>, limit: nat)
    requires RankedWell(f, Ranked(f)) && Handed(counts, Ranked(f), sizes, 0) && |f| <= |sizes|
    requires 1 <= limit <= MAX_BITS && limit < |counts|
    requires LengthLimit.NonNegative(counts) && LengthLimit.Codes(counts, limit) == |Ranked(f)|
    requires |Ranked(f)| >= 2 ==> LengthLimit.Weight(counts, limit, limit) == Pow2(limit)
    requires var ls := MinimumRedundancy.Lengths(Keys(Ranked(f))); Optimality.UpTo(ls, limit) ==> Tallied(counts, ls)
    requires CountsTo(counts, sizes, limit, limit + 1, 0)
    ensures DynamicTable(f, sizes, limit)
    ensures forall l :: 1 <= l <= limit ==> counts[l] == Count(sizes[..|f|], l)
  {
    hide *;
    var r := Ranked(f);
    HandedSuits(f, r, counts, sizes, limit);
    SizesCounted(f, counts, sizes, limit);
    if |r| >= 2 {
      CompleteFront(f, counts, sizes, limit);
    } else {
      AtMostOneUsed(f, r, sizes, limit);
    }
    FrontAccepted(f, sizes, limit);
    Untouched(f, r, counts, sizes, limit);
    TableParts(f, sizes, limit);
  }

  lemma TableParts(f: seq<nat>, sizes: seq<nat>, limit: nat)
    requires Suits(f, sizes, limit) && InflateTable.Accepted(sizes[..|f|])
    requires (|Ranked(f)| >= 2 ==> Complete(sizes[..|f|])) && KeepsShort(Ranked(f), sizes, limit)
    ensures DynamicTable(f, sizes, limit)
  {
    hide Suits, InflateTable.Accepted, Ranked, Complete, KeepsShort;
  }

  /** The dynamic branch: code lengths from frequencies. */
  method DynamicSizes(freqs: array<nat>, tableLen: nat, limit: nat, codeSizes: array<nat>)
    returns (numCodes: array<int>)
    requires tableLen <= freqs.Length && tableLen <= MAX_SYMBOLS && tableLen <= codeSizes.Length
    requires Frequencies16(freqs[..tableLen]) && 1 <= limit <= MAX_BITS && tableLen <= Pow2(limit) && freqs != codeSizes
    modifies codeSizes
    ensures fresh(numCodes) && numCodes.Length == SUPPORTED + 1
    ensures forall l :: 1 <= l <= limit ==> numCodes[l] == Count(codeSizes[..tableLen], l)
    ensures DynamicTable(freqs[..tableLen], codeSizes[..], limit)
  {
    hide Keys, LengthLimit.Codes, LengthLimit.Weight, Count, Pow2, RankedWell, Frequencies16, Handed, Tallied, Ranked,
         DynamicTable, CountsTo, LengthLimit.NonNegative, MinimumRedundancy.Lengths;
    ghost var f := freqs[..tableLen];
    var syms, used := SortedSymbols(freqs, tableLen);
    ghost var r := syms[..used];
    numCodes := LimitedCounts(syms, used, limit, f);
    ghost var counts := numCodes[..];
    forall i | 0 <= i < codeSizes.Length { codeSizes[i] := 0; }
    RankedParts(f, r);
    assert freqs[..tableLen] == f && syms[..used] == r && numCodes[..] == counts;
    assert forall k :: 0 <= k < used ==> r[k] == syms[k];
    HandOut(syms, used, numCodes, limit, codeSizes);
    assert freqs[..tableLen] == f && syms[..used] == r && numCodes[..] == counts;
    ghost var sizes := codeSizes[..];
    TableMade(f, counts, sizes, limit);
    assert codeSizes[..tableLen] == sizes[..tableLen];
  }

  /** Lengths within the limit are used as they are, so that the table has minimum redundancy. */
  ghost predicate KeepsShort(r: seq<SymFreq>, sizes: seq<nat>, limit: nat) {
    var ls := MinimumRedundancy.Lengths(Keys(r));
    |ls| == |r| && (forall k :: 0 <= k < |r| ==> r[k].sym < |sizes|)
    && (Optimality.UpTo(ls, limit) ==> forall k :: 0 <= k < |r| ==> sizes[r[k].sym] == ls[k])
  }

  lemma RankedParts(f: seq<nat>, r: seq<SymFreq>)
    requires RankedWell(f, r)
    ensures DistinctSyms(r) && forall k :: 0 <= k < |r| ==> r[k].sym < |f|
  {
  }

  lemma SizesCounted(f: seq<nat>, counts: seq<int>, sizes: seq<nat>, limit: nat)
    requires Suits(f, sizes, limit) && CountsTo(counts, sizes, limit, limit + 1, 0)
    ensures |f| <= |sizes| && forall l :: 1 <= l <= limit ==> counts[l] == Count(sizes[..|f|], l)
  {
    hide Count;
    forall l | 1 <= l <= limit ensures counts[l] == Count(sizes[..|f|], l) {
      CountFront(sizes, |f|, l);
    }
  }

  lemma CompleteFront(f: seq<nat>, counts: seq<int>, sizes: seq<nat>, limit: nat)
    requires Suits(f, sizes, limit) && 1 <= limit <= MAX_BITS && limit < |counts|
    requires LengthLimit.Weight(counts, limit, limit) == Pow2(limit)
    requires forall l :: 1 <= l <= limit ==> counts[l] == Count(sizes[..|f|], l)
    ensures Complete(sizes[..|f|])
  {
    hide Count, LengthLimit.Weight;
    LimitedIsComplete(counts, sizes[..|f|], limit);
  }

  lemma Untouched(f: seq<nat>, r: seq<SymFreq>, counts: seq<int>, sizes: seq<nat>, limit: nat)
    requires RankedWell(f, r) && Handed(counts, r, sizes, 0) && |f| <= |sizes|
    requires Optimality.UpTo(MinimumRedundancy.Lengths(Keys(r)), limit) ==>
               Tallied(counts, MinimumRedundancy.Lengths(Keys(r)))
    ensures KeepsShort(r, sizes, limit)
  {
    hide Tallied, Keys, Optimality.Frequencies, Optimality.Positive, RankLength;
    var ls := MinimumRedundancy.Lengths(Keys(r));
    if Optimality.UpTo(ls, limit) {
      forall k | 0 <= k < |r| ensures sizes[r[k].sym] == ls[k] {
        UnlimitedLengths(Keys(r), r, counts, sizes, k);
      }
    }
  }

  /** The static branch: the lengths are given. */
  method StaticCounts(codeSizes: array<nat>, tableLen: nat) returns (numCodes: array<int>)
    requires tableLen <= codeSizes.Length && forall i :: 0 <= i < tableLen ==> codeSizes[i] <= MAX_BITS
    ensures fresh(numCodes) && Tallied(numCodes[..], codeSizes[..tableLen])
  {
    numCodes := Tally(codeSizes, tableLen);
  }

  /** `tdefl_optimize_huffman_table` */
  method OptimizeHuffmanTable(freqs: array<nat>, codeSizes: array<nat>, codes: array<nat>, tableLen: nat, limit: nat,
                              staticTable: bool)
    requires tableLen <= freqs.Length && tableLen <= codeSizes.Length == codes.Length && tableLen <= MAX_SYMBOLS
    requires freqs != codeSizes && freqs != codes && codeSizes != codes
    requires 1 <= limit <= MAX_BITS && tableLen <= Pow2(limit)
    requires staticTable ==> forall i :: 0 <= i < tableLen ==> codeSizes[i] <= limit
    requires !staticTable ==> Frequencies16(freqs[..tableLen])
    modifies codeSizes, codes
    ensures staticTable ==> codeSizes[..] == old(codeSizes[..])
    ensures !staticTable ==> DynamicTable(freqs[..tableLen], codeSizes[..], limit)
    ensures forall i :: 0 <= i < tableLen && codeSizes[i] > 0 ==> codes[i] == Packed(codeSizes[..tableLen], i)
  {
    hide Count, Pow2, Frequencies16, DynamicTable, CodeOf;
    var numCodes;
    ghost var f := freqs[..tableLen];
    if staticTable {
      numCodes := StaticCounts(codeSizes, tableLen);
    } else {
      numCodes := DynamicSizes(freqs, tableLen, limit, codeSizes);
      SizesWithin(f, codeSizes[..], limit);
      ghost var (sizes, front) := (codeSizes[..], codeSizes[..tableLen]);
      forall i | 0 <= i < codes.Length { codes[i] := 0; }
      assert freqs[..tableLen] == f && codeSizes[..] == sizes && codeSizes[..tableLen] == front;
    }
    ghost var (sizes, front) := (codeSizes[..], codeSizes[..tableLen]);
    NumberCodes(numCodes, codeSizes, codes, tableLen, limit);
    assert freqs[..tableLen] == f && codeSizes[..] == sizes && codeSizes[..tableLen] == front;
  }

  lemma SizesWithin(f: seq<nat>, sizes: seq<nat>, limit: nat)
    requires DynamicTable(f, sizes, limit)
    ensures forall i :: 0 <= i < |sizes| ==> sizes[i] <= limit
  {
  }

  lemma FrontAccepted(f: seq<nat>, sizes: seq<nat>, limit: nat)
    requires Suits(f, sizes, limit) && limit <= MAX_BITS
    requires Complete(sizes[..|f|]) || InflateTable.AtMostOne(sizes)
    ensures InflateTable.Accepted(sizes[..|f|])
  {
    hide Count, First;
  }

  /** Every message of symbols that were counted can be encoded, and the decoder accepts the table. */
  lemma TableEncodes(f: seq<nat>, sizes: seq<nat>, limit: nat, message: seq<nat>)
    requires DynamicTable(f, sizes, limit)
    requires forall j :: 0 <= j < |message| ==> message[j] < |f| && f[message[j]] > 0
    ensures InflateTable.Accepted(sizes[..|f|]) && Fits(sizes[..|f|])
    ensures InflateTable.Encodable(sizes[..|f|], message)
  {
    hide InflateTable.Accepted, Fits, Complete, KeepsShort;
    InflateTable.AcceptedFits(sizes[..|f|]);
  }

  /** The lengths of the ranked symbols. */
  function SizesOf(r: seq<SymFreq>, sizes: seq<nat>): (ls: seq<nat>)
    requires forall k :: 0 <= k < |r| ==> r[k].sym < |sizes|
  {
    seq(|r|, k requires 0 <= k < |r| => sizes[r[k].sym])
  }

  /** Where the limit does not bite, no prefix code encodes the counted symbols in fewer bits. */
  lemma TableIsShortest(f: seq<nat>, sizes: seq<nat>, limit: nat, code: seq<PrefixCodes.Word>)
    requires Frequencies16(f) && DynamicTable(f, sizes, limit) && |Ranked(f)| >= 2
    requires Optimality.UpTo(MinimumRedundancy.Lengths(Keys(Ranked(f))), limit)
    requires |code| == |Ranked(f)| && PrefixCodes.NonePrefix(code)
    ensures forall k :: 0 <= k < |Ranked(f)| ==> Ranked(f)[k].sym < |sizes|
    ensures Optimality.Cost(Keys(Ranked(f)), SizesOf(Ranked(f), sizes))
         <= Optimality.Cost(Keys(Ranked(f)), PrefixCodes.Sizes(code))
  {
    hide Ranked, Keys, MinimumRedundancy.Lengths, Optimality.Cost, PrefixCodes.NonePrefix, Suits, InflateTable.Accepted,
         Complete;
    RankedIsRanked(f);
    var keys := Keys(Ranked(f));
    PrefixCodes.NoPrefixCodeCheaper(keys, code);
    assert SizesOf(Ranked(f), sizes) == MinimumRedundancy.Lengths(keys);
  }
}
