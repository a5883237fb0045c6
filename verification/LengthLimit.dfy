/** `tdefl_huffman_enforce_max_code_size`: from code lengths of any size to lengths of at most `max`. */
module LengthLimit {
  import opened Bits

  const SUPPORTED: nat := 32

  /** How many codes have a length from 1 to `i`. */
  function Codes(c: seq<int>, i: nat): int
    requires i < |c|
  {
    if i == 0 then 0 else Codes(c, i - 1) + c[i]
  }

  /** What they take, in units of `2^-m`. */
  function Weight(c: seq<int>, m: nat, i: nat): int
    requires i < |c| && i <= m
  {
    if i == 0 then 0 else Weight(c, m, i - 1) + c[i] * Pow2(m - i)
  }

  ghost predicate NonNegative(c: seq<int>) {
    forall i :: 0 <= i < |c| ==> c[i] >= 0
  }

  lemma {:induction false} AddCodes(c: seq<int>, j: nat, d: int, i: nat)
    requires 0 < j < |c| && i < |c|
    ensures Codes(c[j := c[j] + d], i) == Codes(c, i) + if j <= i then d else 0
  {
    if i > 0 {
      AddCodes(c, j, d, i - 1);
    }
  }

  lemma {:induction false} AddWeight(c: seq<int>, m: nat, j: nat, d: int, i: nat)
    requires 0 < j < |c| && i < |c| && i <= m && j <= m
    ensures Weight(c[j := c[j] + d], m, i) == Weight(c, m, i) + if j <= i then d * Pow2(m - j) else 0
  {
    if i > 0 {
      AddWeight(c, m, j, d, i - 1);
      if i == j {
        Spread(c[j], d, Pow2(m - j));
      }
    }
  }

  lemma Spread(x: int, d: int, p: nat)
    ensures (x + d) * p == x * p + d * p
  {
  }

  /** The number of codes longer than `max` that have been folded into `max` so far. */
  function Folded(c: seq<int>, max: nat, i: nat): int
    requires max <= i < |c|
  {
    Codes(c, i) - Codes(c, max)
  }

  lemma {:induction false} CodesGrow(c: seq<int>, i: nat, j: nat)
    requires NonNegative(c) && i <= j < |c|
    ensures 0 <= Codes(c, i) <= Codes(c, j)
  {
    if i < j {
      CodesGrow(c, i, j - 1);
    } else if i > 0 {
      CodesGrow(c, i - 1, i - 1);
    }
  }

  /** Moving one unit up doubles every weight. */
  lemma {:induction false} WeightDouble(c: seq<int>, m: nat, i: nat)
    requires i < |c| && i <= m
    ensures Weight(c, m + 1, i) == 2 * Weight(c, m, i)
  {
    if i > 0 {
      WeightDouble(c, m, i - 1);
      var p := Pow2(m - i);
      assert c[i] * (2 * p) == 2 * (c[i] * p);
    }
  }

  /** Folding the longer codes down costs at most one unit each, and less than that in all. */
  lemma {:induction false} FoldCost(c: seq<int>, max: nat, k: nat)
    requires NonNegative(c) && 1 <= max <= k < |c| && Weight(c, k, k) == Pow2(k)
    ensures var n := Codes(c, k) - Codes(c, max); var over := Weight(c, max, max) + n - Pow2(max);
            0 <= over <= n && (n > 0 ==> over < n)
  {
    FoldStep(c, max, k, 0);
  }

  /** The same with `e` codes already folded from above level `k`. */
  lemma {:induction false} FoldStep(c: seq<int>, max: nat, k: nat, e: nat)
    requires NonNegative(c) && 1 <= max <= k < |c|
    requires Weight(c, k, k) <= Pow2(k) <= Weight(c, k, k) + e && (e > 0 ==> Weight(c, k, k) < Pow2(k))
    ensures var n := Codes(c, k) - Codes(c, max) + e; var over := Weight(c, max, max) + n - Pow2(max);
            0 <= over <= n && (n > 0 ==> over < n)
    decreases k
  {
    if max < k {
      WeightDouble(c, k - 1, k - 1);
      assert Pow2(k) == 2 * Pow2(k - 1);
      assert Weight(c, k, k) == 2 * Weight(c, k - 1, k - 1) + c[k];
      FoldStep(c, max, k - 1, e + c[k]);
    }
  }

  /** The counts describe a complete code of at most `2^max` symbols. */
  ghost predicate CompleteCounts(c: seq<int>, max: nat) {
    && |c| == SUPPORTED + 1 && 1 <= max <= SUPPORTED && NonNegative(c)
    && Weight(c, SUPPORTED, SUPPORTED) == Pow2(SUPPORTED) && Codes(c, SUPPORTED) <= Pow2(max)
  }

  /** In the loop: `total - 2^max` lengthenings are still to be made, and there are that many codes of length `max`. */
  ghost predicate Overshoot(c: seq<int>, max: nat, n: int, total: int) {
    && |c| == SUPPORTED + 1 && 1 <= max <= SUPPORTED && NonNegative(c)
    && Codes(c, max) == n <= Pow2(max) && Weight(c, max, max) == total
    && total >= Pow2(max) && (total > Pow2(max) ==> total - Pow2(max) < c[max])
  }

  /** One code of length `i` becomes two of length `i + 1`, one of which replaces a code of length `max`. */
  function Lengthen(c: seq<int>, max: nat, i: nat): seq<int>
    requires 0 < i < max < |c|
  {
    var c1 := c[max := c[max] - 1];
    var c2 := c1[i := c1[i] - 1];
    c2[i + 1 := c2[i + 1] + 2]
  }

  lemma LengthenKeeps(c: seq<int>, max: nat, n: int, total: int, i: nat)
    requires Overshoot(c, max, n, total) && total > Pow2(max) && 0 < i < max && c[i] > 0
    ensures Overshoot(Lengthen(c, max, i), max, n, total - 1)
  {
    hide Codes, Weight;
    var c1 := c[max := c[max] - 1];
    var c2 := c1[i := c1[i] - 1];
    AddCodes(c, max, -1, max);
    AddWeight(c, max, max, -1, max);
    AddCodes(c1, i, -1, max);
    AddWeight(c1, max, i, -1, max);
    AddCodes(c2, i + 1, 2, max);
    AddWeight(c2, max, i + 1, 2, max);
    assert Pow2(max - i) == 2 * Pow2(max - i - 1);
  }

  /** If no code shorter than `max` is left, nothing is left to do. */
  lemma {:induction false} OnlyLongest(c: seq<int>, max: nat, i: nat)
    requires i < max < |c| && forall l :: 1 <= l <= i ==> c[l] == 0
    ensures Codes(c, i) == 0 && Weight(c, max, i) == 0
  {
    if i > 0 {
      OnlyLongest(c, max, i - 1);
    }
  }

  /** Folding leaves a code that overshoots by less than the count at `max`. */
  lemma FoldedOvershoot(c: seq<int>, max: nat)
    requires CompleteCounts(c, max)
    ensures Overshoot(FoldedCounts(c, max), max, Codes(c, SUPPORTED), Weight(FoldedCounts(c, max), max, max))
  {
    hide Codes, Weight;
    var d := Folded(c, max, SUPPORTED);
    CodesGrow(c, max, SUPPORTED);
    AddCodes(c, max, d, max);
    AddWeight(c, max, max, d, max);
    FoldCost(c, max, SUPPORTED);
    assert Pow2(0) == 1;
  }

  function FoldedCounts(c: seq<int>, max: nat): seq<int>
    requires max <= SUPPORTED < |c|
  {
    c[max := c[max] + Folded(c, max, SUPPORTED)]
  }

  lemma FoldedStep(c: seq<int>, max: nat, i: nat)
    requires max < i < |c|
    ensures Folded(c, max, i) == Folded(c, max, i - 1) + c[i]
  {
  }

  /** While the code overshoots, some code is shorter than `max`. */
  lemma SomeShorter(c: seq<int>, max: nat, n: int, total: int)
    requires Overshoot(c, max, n, total) && total > Pow2(max)
    ensures exists l :: 1 <= l < max && c[l] != 0
  {
    assert Pow2(0) == 1;
    if forall l :: 1 <= l < max ==> c[l] == 0 {
      OnlyLongest(c, max, max - 1);
    }
  }

  /** No 32-bit sum can overflow. */
  lemma TotalFits(c: seq<int>, max: nat, n: int, total: int)
    requires Overshoot(c, max, n, total)
    ensures total < 2 * Pow2(max)
  {
    CodesGrow(c, max - 1, max);
    CodesGrow(c, 0, max - 1);
  }

  ghost predicate NoneLonger(c: seq<int>, max: nat) {
    forall l :: max < l < |c| ==> c[l] == 0
  }

  lemma {:induction false} NoneFolded(c: seq<int>, max: nat, i: nat)
    requires NoneLonger(c, max) && max <= i < |c|
    ensures Folded(c, max, i) == 0
  {
    if max < i {
      NoneFolded(c, max, i - 1);
    }
  }

  /** A code that respects the limit is left alone. */
  lemma NothingToFold(c: seq<int>, max: nat)
    requires CompleteCounts(c, max) && NoneLonger(c, max)
    ensures FoldedCounts(c, max) == c && Weight(c, max, max) == Pow2(max)
  {
    hide Codes, Weight;
    NoneFolded(c, max, SUPPORTED);
    FoldCost(c, max, SUPPORTED);
  }

  /** `tdefl_huffman_enforce_max_code_size` */
  method EnforceMaxCodeSize(numCodes: array<int>, codeListLen: int, max: nat)
    requires codeListLen > 1 ==> CompleteCounts(numCodes[..], max) && max < SUPPORTED
    modifies numCodes
    ensures codeListLen <= 1 ==> numCodes[..] == old(numCodes[..])
    ensures codeListLen > 1 ==>
              var c := numCodes[..];
              && NonNegative(c)
              && Codes(c, max) == Codes(old(numCodes[..]), SUPPORTED)
              && Weight(c, max, max) == Pow2(max)
    ensures codeListLen > 1 && NoneLonger(old(numCodes[..]), max) ==> numCodes[..] == old(numCodes[..])
    ensures codeListLen > 1 ==> LongestFirst(old(numCodes[..]), numCodes[..], max)
  {
    if codeListLen <= 1 {
      return;
    }
    ghost var before := numCodes[..];
    Fold(numCodes, max);
    var total := Sum(numCodes, max);
    ghost var n := Codes(before, SUPPORTED);
    if NoneLonger(before, max) {
      NothingToFold(before, max);
    }
    while total != Pow2(max)
      invariant numCodes.Length == SUPPORTED + 1 && Overshoot(numCodes[..], max, n, total)
      invariant NoneLonger(before, max) ==> total == Pow2(max) && numCodes[..] == before
      invariant LongestFirst(before, numCodes[..], max)
      decreases total
    {
      TotalFits(numCodes[..], max, n, total);
      ghost var c := numCodes[..];
      total := LengthenOne(numCodes, max, n, total);
      StillLongest(before, c, numCodes[..], max);
    }
  }

  /** A code is lengthened only when there is hardly one left between it and the limit: codes for rare symbols give way
      before those for frequent ones. */
  ghost predicate LongestFirst(before: seq<int>, c: seq<int>, max: nat) {
    && max < |before| == |c|
    && forall j, l :: 1 <= j < l < max && c[j] < before[j] ==> c[l] <= 2
  }

  /** One code of the greatest length below the limit makes room for two that are one bit longer, the other of which was
      as long as can be. */
  ghost predicate TakenFromLongest(c: seq<int>, c': seq<int>, max: nat) {
    && max < |c| == |c'|
    && exists i :: 1 <= i < max && c[i] != 0 && (forall l :: i < l < max ==> c[l] == 0)
         && (forall l :: 0 <= l < max ==> c'[l] == c[l] + if l == i then -1 else if l == i + 1 then 2 else 0)
  }

  lemma StillLongest(before: seq<int>, c: seq<int>, c': seq<int>, max: nat)
    requires LongestFirst(before, c, max) && TakenFromLongest(c, c', max)
    ensures LongestFirst(before, c', max)
  {
    var i :| 1 <= i < max && c[i] != 0 && (forall l :: i < l < max ==> c[l] == 0)
      && (forall l :: 0 <= l < max ==> c'[l] == c[l] + if l == i then -1 else if l == i + 1 then 2 else 0);
    forall j, l | 1 <= j < l < max && c'[j] < before[j] ensures c'[l] <= 2 {
      if l <= i {
        assert c[j] < before[j];
      }
    }
  }

  /** Codes that are too long are counted as codes of length `max`. */
  method Fold(numCodes: array<int>, max: nat)
    requires CompleteCounts(numCodes[..], max) && max < SUPPORTED
    modifies numCodes
    ensures numCodes[..] == FoldedCounts(old(numCodes[..]), max)
    ensures var c := numCodes[..]; Overshoot(c, max, Codes(old(numCodes[..]), SUPPORTED), Weight(c, max, max))
  {
    hide Codes, Weight;
    ghost var before := numCodes[..];
    for i := max + 1 to SUPPORTED + 1
      invariant numCodes[..] == before[max := before[max] + Folded(before, max, i - 1)]
    {
      FoldedStep(before, max, i);
      numCodes[max] := numCodes[max] + numCodes[i];
    }
    FoldedOvershoot(before, max);
  }

  /** `total`: the Kraft sum in units of `2^-max`. */
  method Sum(numCodes: array<int>, max: nat) returns (total: int)
    requires numCodes.Length == SUPPORTED + 1 && max <= SUPPORTED
    ensures total == Weight(numCodes[..], max, max)
  {
    total := 0;
    var i: int := max;
    while i > 0
      invariant 0 <= i <= max
      invariant total + Weight(numCodes[..], max, i) == Weight(numCodes[..], max, max)
    {
      total := total + numCodes[i] * Pow2(max - i);
      i := i - 1;
    }
  }

  /** The body of the repair loop. */
  method LengthenOne(numCodes: array<int>, max: nat, ghost n: int, total: int) returns (total': int)
    requires Overshoot(numCodes[..], max, n, total) && total != Pow2(max)
    modifies numCodes
    ensures total' == total - 1 && Overshoot(numCodes[..], max, n, total') && max < numCodes.Length
    ensures TakenFromLongest(old(numCodes[..]), numCodes[..], max)
  {
    hide Codes, Weight;
    ghost var before := numCodes[..];
    SomeShorter(before, max, n, total);
    numCodes[max] := numCodes[max] - 1;
    var i: int := max - 1;
    while i > 0
      invariant 0 <= i < max && numCodes[..] == before[max := before[max] - 1]
      invariant forall l :: i < l < max ==> before[l] == 0
    {
      if numCodes[i] != 0 {
        break;
      }
      i := i - 1;
    }
    LengthenKeeps(before, max, n, total, i);
    numCodes[i] := numCodes[i] - 1;
    numCodes[i + 1] := numCodes[i + 1] + 2;
    assert numCodes[..] == Lengthen(before, max, i);
    total' := total - 1;
  }
}
