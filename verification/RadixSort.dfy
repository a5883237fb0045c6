/** `tdefl_radix_sort_syms`: two stable counting passes over 16-bit keys, ping-ponging between two buffers. */
module RadixSort {

  datatype SymFreq = SymFreq(key: nat, sym: nat)

  const RADIX: nat := 256

  /** The low byte (`pass` 0) or the high byte (`pass` 1) of a key. */
  function Digit(x: SymFreq, pass: nat): (d: nat)
    ensures d < RADIX
  {
    if pass == 0 then x.key % RADIX else x.key / RADIX % RADIX
  }

  function WithDigit(s: seq<SymFreq>, pass: nat, v: nat): seq<SymFreq> {
    if s == [] then []
    else WithDigit(s[..|s| - 1], pass, v)
         + if Digit(s[|s| - 1], pass) == v then [s[|s| - 1]] else []
  }

  /** The elements whose digit is below `v`, by digit, otherwise in the order of `s`. */
  function Buckets(s: seq<SymFreq>, pass: nat, v: nat): seq<SymFreq> {
    if v == 0 then [] else Buckets(s, pass, v - 1) + WithDigit(s, pass, v - 1)
  }

  /** The elements with key `k`, in order. */
  function WithKey(s: seq<SymFreq>, k: nat): seq<SymFreq> {
    if s == [] then []
    else WithKey(s[..|s| - 1], k) + if s[|s| - 1].key == k then [s[|s| - 1]] else []
  }

  /** What the sort returns. */
  function Sorted(s: seq<SymFreq>): seq<SymFreq> {
    Buckets(Buckets(s, 0, RADIX), 1, RADIX)
  }

  ghost predicate Keys16(s: seq<SymFreq>) {
    forall i :: 0 <= i < |s| ==> s[i].key < 65536
  }

  ghost predicate AscendingKeys(s: seq<SymFreq>) {
    forall i, j :: 0 <= i < j < |s| ==> s[i].key <= s[j].key
  }

  // ---- What the two passes do together ----

  lemma {:induction false} WithKeyConcat(s: seq<SymFreq>, t: seq<SymFreq>, k: nat)
    ensures WithKey(s + t, k) == WithKey(s, k) + WithKey(t, k)
  {
    if t == [] {
      assert s + t == s;
    } else {
      assert (s + t)[..|s + t| - 1] == s + t[..|t| - 1];
      WithKeyConcat(s, t[..|t| - 1], k);
    }
  }

  /** Selecting by digit first does not lose or reorder the elements with key `k`. */
  lemma {:induction false} KeyInDigit(s: seq<SymFreq>, pass: nat, v: nat, k: nat)
    ensures WithKey(WithDigit(s, pass, v), k)
         == if Digit(SymFreq(k, 0), pass) == v then WithKey(s, k) else []
  {
    if s != [] {
      var (front, x) := (s[..|s| - 1], s[|s| - 1]);
      KeyInDigit(front, pass, v, k);
      assert x.key == k ==> Digit(x, pass) == Digit(SymFreq(k, 0), pass);
      if Digit(x, pass) == v {
        WithKeyConcat(WithDigit(front, pass, v), [x], k);
        assert [x][..0] == [];
      } else {
        assert WithDigit(s, pass, v) == WithDigit(front, pass, v);
      }
    }
  }

  lemma NoKeys(k: nat)
    ensures WithKey([], k) == []
  {
  }

  /** One pass keeps the elements of every key, in their order. */
  lemma {:induction false} PassKeeps(s: seq<SymFreq>, pass: nat, v: nat, k: nat)
    ensures WithKey(Buckets(s, pass, v), k) == if Digit(SymFreq(k, 0), pass) < v then WithKey(s, k) else []
  {
    hide WithKey, WithDigit, Digit;
    assert WithKey([], k) == [] by { NoKeys(k); }
    if v > 0 {
      PassKeeps(s, pass, v - 1, k);
      KeyInDigit(s, pass, v - 1, k);
      WithKeyConcat(Buckets(s, pass, v - 1), WithDigit(s, pass, v - 1), k);
    }
  }

  /** Stability, and with it that nothing is lost, added or changed. */
  lemma SortStable(s: seq<SymFreq>, k: nat)
    ensures WithKey(Sorted(s), k) == WithKey(s, k)
  {
    PassKeeps(s, 0, RADIX, k);
    PassKeeps(Buckets(s, 0, RADIX), 1, RADIX, k);
  }

  ghost predicate AscendingDigits(s: seq<SymFreq>, pass: nat) {
    forall i, j :: 0 <= i < j < |s| ==> Digit(s[i], pass) <= Digit(s[j], pass)
  }

  ghost predicate AllFrom(t: seq<SymFreq>, s: seq<SymFreq>) {
    forall i :: 0 <= i < |t| ==> t[i] in s
  }

  lemma {:induction false} WithDigitFrom(s: seq<SymFreq>, pass: nat, v: nat)
    ensures AllFrom(WithDigit(s, pass, v), s)
    ensures forall i :: 0 <= i < |WithDigit(s, pass, v)| ==> Digit(WithDigit(s, pass, v)[i], pass) == v
  {
    if s != [] {
      WithDigitFrom(s[..|s| - 1], pass, v);
    }
  }

  ghost predicate Below(t: seq<SymFreq>, pass: nat, v: nat) {
    forall i :: 0 <= i < |t| ==> Digit(t[i], pass) < v
  }

  lemma AppendBucket(low: seq<SymFreq>, high: seq<SymFreq>, s: seq<SymFreq>, pass: nat, v: nat)
    requires AscendingDigits(low, pass) && AllFrom(low, s) && Below(low, pass, v)
    requires AllFrom(high, s) && forall i :: 0 <= i < |high| ==> Digit(high[i], pass) == v
    ensures AscendingDigits(low + high, pass) && AllFrom(low + high, s) && Below(low + high, pass, v + 1)
  {
    hide Digit;
  }

  lemma {:induction false} BucketsAscend(s: seq<SymFreq>, pass: nat, v: nat)
    ensures AscendingDigits(Buckets(s, pass, v), pass)
    ensures AllFrom(Buckets(s, pass, v), s) && Below(Buckets(s, pass, v), pass, v)
  {
    hide Digit, WithDigit, AscendingDigits, AllFrom, Below;
    if v > 0 {
      BucketsAscend(s, pass, v - 1);
      WithDigitFrom(s, pass, v - 1);
      AppendBucket(Buckets(s, pass, v - 1), WithDigit(s, pass, v - 1), s, pass, v - 1);
    } else {
      NoBuckets(s, pass);
    }
  }

  lemma NoBuckets(s: seq<SymFreq>, pass: nat)
    ensures AscendingDigits(Buckets(s, pass, 0), pass) && AllFrom(Buckets(s, pass, 0), s)
            && Below(Buckets(s, pass, 0), pass, 0)
  {
  }

  /** Selecting by one digit keeps the order by the other. */
  lemma {:induction false} WithDigitAscends(s: seq<SymFreq>, pass: nat, v: nat, other: nat)
    requires AscendingDigits(s, other)
    ensures AscendingDigits(WithDigit(s, pass, v), other)
  {
    if s != [] {
      var front := s[..|s| - 1];
      WithDigitAscends(front, pass, v, other);
      WithDigitFrom(front, pass, v);
      forall i | 0 <= i < |WithDigit(front, pass, v)|
        ensures Digit(WithDigit(front, pass, v)[i], other) <= Digit(s[|s| - 1], other)
      {
        assert WithDigit(front, pass, v)[i] in front;
      }
    }
  }

  lemma KeyOfDigits(x: SymFreq, y: SymFreq)
    requires x.key < 65536 && y.key < 65536
    requires Digit(x, 1) < Digit(y, 1) || (Digit(x, 1) == Digit(y, 1) && Digit(x, 0) <= Digit(y, 0))
    ensures x.key <= y.key
  {
  }

  /** High byte after low byte: the keys come out in order. */
  lemma {:induction false} SecondPassSorts(s: seq<SymFreq>, v: nat)
    requires AscendingDigits(s, 0) && Keys16(s)
    ensures AscendingKeys(Buckets(s, 1, v))
  {
    if v > 0 {
      SecondPassSorts(s, v - 1);
      BucketsAscend(s, 1, v - 1);
      WithDigitFrom(s, 1, v - 1);
      WithDigitAscends(s, 1, v - 1, 0);
      var (low, high, all) := (Buckets(s, 1, v - 1), WithDigit(s, 1, v - 1), Buckets(s, 1, v));
      forall i, j | 0 <= i < j < |all|
        ensures all[i].key <= all[j].key
      {
        if |low| <= j {
          assert all[j] == high[j - |low|] && all[j] in s;
          assert all[i] in s by {
            assert all[i] == if i < |low| then low[i] else high[i - |low|];
          }
          KeyOfDigits(all[i], all[j]);
        }
      }
    }
  }

  lemma SortSorts(s: seq<SymFreq>)
    requires Keys16(s)
    ensures AscendingKeys(Sorted(s))
  {
    BucketsAscend(s, 0, RADIX);
    SecondPassSorts(Buckets(s, 0, RADIX), RADIX);
  }

  // ---- The passes in place ----

  lemma {:induction false} SizeOfPass(s: seq<SymFreq>, pass: nat, v: nat)
    ensures |Buckets(s, pass, v)| <= |s|
    ensures v >= RADIX ==> |Buckets(s, pass, v)| == |s|
  {
    if s == [] {
      EmptyPass(pass, v);
    } else {
      SizeOfPass(s[..|s| - 1], pass, v);
      GrowPass(s, pass, v);
    }
  }

  lemma {:induction false} EmptyPass(pass: nat, v: nat)
    ensures Buckets([], pass, v) == []
  {
    if v > 0 {
      EmptyPass(pass, v - 1);
    }
  }

  lemma {:induction false} GrowPass(s: seq<SymFreq>, pass: nat, v: nat)
    requires s != []
    ensures |Buckets(s, pass, v)|
         == |Buckets(s[..|s| - 1], pass, v)| + if Digit(s[|s| - 1], pass) < v then 1 else 0
  {
    if v > 0 {
      GrowPass(s, pass, v - 1);
    }
  }

  lemma {:induction false} BucketsPrefix(s: seq<SymFreq>, pass: nat, v: nat, w: nat)
    requires v <= w
    ensures |Buckets(s, pass, v)| <= |Buckets(s, pass, w)|
  {
    if v < w {
      BucketsPrefix(s, pass, v, w - 1);
    }
  }

  lemma {:induction false} DigitPrefix(s: seq<SymFreq>, pass: nat, v: nat, i: nat)
    requires i <= |s|
    ensures |WithDigit(s[..i], pass, v)| <= |WithDigit(s, pass, v)|
  {
    if i < |s| {
      DigitPrefix(s[..|s| - 1], pass, v, i);
      assert s[..|s| - 1][..i] == s[..i];
    } else {
      assert s[..i] == s;
    }
  }

  lemma DigitStep(s: seq<SymFreq>, pass: nat, v: nat, i: nat)
    requires i < |s|
    ensures WithDigit(s[..i + 1], pass, v)
         == WithDigit(s[..i], pass, v) + if Digit(s[i], pass) == v then [s[i]] else []
  {
    assert s[..i + 1][..i] == s[..i];
  }

  /** Both histograms share one array. */
  function Slot(pass: nat, v: nat): nat {
    pass * RADIX + v
  }

  /** One half of `hist` holds how often every digit of that pass occurs in `s`. */
  ghost predicate CountedFor(hist: seq<nat>, s: seq<SymFreq>, pass: nat) {
    |hist| == 2 * RADIX && pass < 2
    && forall v :: 0 <= v < RADIX ==> hist[Slot(pass, v)] == |WithDigit(s, pass, v)|
  }

  lemma CountOne(hist: seq<nat>, s: seq<SymFreq>, i: nat, pass: nat, hist': seq<nat>)
    requires i < |s| && CountedFor(hist, s[..i], pass) && |hist'| == |hist|
    requires forall v :: 0 <= v < RADIX ==>
               hist'[Slot(pass, v)] == hist[Slot(pass, v)] + if v == Digit(s[i], pass) then 1 else 0
    ensures CountedFor(hist', s[..i + 1], pass)
  {
    forall v | 0 <= v < RADIX
      ensures hist'[Slot(pass, v)] == |WithDigit(s[..i + 1], pass, v)|
    {
      DigitStep(s, pass, v, i);
    }
  }

  method Histogram(syms: array<SymFreq>, n: nat) returns (hist: array<nat>)
    requires n <= syms.Length
    ensures fresh(hist) && CountedFor(hist[..], syms[..n], 0) && CountedFor(hist[..], syms[..n], 1)
  {
    hist := new nat[2 * RADIX](_ => 0);
    for i := 0 to n
      invariant CountedFor(hist[..], syms[..i], 0) && CountedFor(hist[..], syms[..i], 1)
    {
      ghost var (s, h) := (syms[..n], hist[..]);
      assert s[..i] == syms[..i] && s[..i + 1] == syms[..i + 1];
      var x := syms[i];
      hist[Digit(x, 0)] := hist[Digit(x, 0)] + 1;
      hist[RADIX + Digit(x, 1)] := hist[RADIX + Digit(x, 1)] + 1;
      CountOne(h, s, i, 0, hist[..]);
      CountOne(h, s, i, 1, hist[..]);
    }
  }

  /** Digit `v` has `offsets[v] - |Buckets(s, pass, v)|` elements so far, and they are in place. */
  ghost predicate Placed(s: seq<SymFreq>, pass: nat, i: nat, out: seq<SymFreq>, offsets: seq<nat>, v: nat)
    requires i <= |s| <= |out| && v < |offsets|
  {
    var (start, part) := (|Buckets(s, pass, v)|, WithDigit(s[..i], pass, v));
    offsets[v] == start + |part| <= |out| && out[start..offsets[v]] == part
  }

  lemma PlaceHere(s: seq<SymFreq>, pass: nat, i: nat, out: seq<SymFreq>, offsets: seq<nat>, d: nat)
    requires i < |s| <= |out| && |offsets| == RADIX && d == Digit(s[i], pass)
    requires Placed(s, pass, i, out, offsets, d) && offsets[d] < |s|
    ensures Placed(s, pass, i + 1, out[offsets[d] := s[i]], offsets[d := offsets[d] + 1], d)
  {
    DigitStep(s, pass, d, i);
    hide Buckets, WithDigit, Digit;
    var (start, o) := (|Buckets(s, pass, d)|, offsets[d]);
    var out' := out[o := s[i]];
    assert out'[start..o + 1] == out[start..o] + [s[i]];
  }

  lemma PlaceElsewhere(s: seq<SymFreq>, pass: nat, i: nat, out: seq<SymFreq>, offsets: seq<nat>, d: nat, v: nat)
    requires i < |s| <= |out| && |offsets| == RADIX && d == Digit(s[i], pass) && v < RADIX && v != d
    requires Placed(s, pass, i, out, offsets, v) && offsets[d] < |s|
    requires offsets[d] < |Buckets(s, pass, v)| || offsets[v] <= offsets[d]
    ensures Placed(s, pass, i + 1, out[offsets[d] := s[i]], offsets[d := offsets[d] + 1], v)
  {
    DigitStep(s, pass, v, i);
    hide Buckets, WithDigit, Digit;
    var (start, o) := (|Buckets(s, pass, v)|, offsets[v]);
    var out' := out[offsets[d] := s[i]];
    assert out'[start..o] == out[start..o];
  }

  lemma BucketEnd(s: seq<SymFreq>, pass: nat, v: nat, w: nat)
    requires v < w
    ensures |Buckets(s, pass, v)| + |WithDigit(s, pass, v)| <= |Buckets(s, pass, w)|
  {
    BucketsPrefix(s, pass, v + 1, w);
  }

  /** A digit still to be placed has room left before the next bucket starts. */
  lemma Room(s: seq<SymFreq>, pass: nat, i: nat, v: nat, w: nat)
    requires i < |s| && v < w
    ensures |Buckets(s, pass, v)| + |WithDigit(s[..i], pass, v)| + (if Digit(s[i], pass) == v then 1 else 0)
         <= |Buckets(s, pass, w)|
  {
    DigitStep(s, pass, v, i);
    DigitPrefix(s, pass, v, i + 1);
    BucketEnd(s, pass, v, w);
  }

  lemma PlaceOne(s: seq<SymFreq>, pass: nat, i: nat, out: seq<SymFreq>, offsets: seq<nat>, d: nat, v: nat)
    requires i < |s| <= |out| && |offsets| == RADIX && v < RADIX && d == Digit(s[i], pass)
    requires Placed(s, pass, i, out, offsets, v) && Placed(s, pass, i, out, offsets, d)
    ensures offsets[d] < |s|
    ensures Placed(s, pass, i + 1, out[offsets[d] := s[i]], offsets[d := offsets[d] + 1], v)
  {
    hide Buckets, WithDigit, Digit;
    SizeOfPass(s, pass, RADIX);
    Room(s, pass, i, d, RADIX);
    if v == d {
      PlaceHere(s, pass, i, out, offsets, d);
    } else {
      if v < d {
        Room(s, pass, i, v, d);
      } else {
        Room(s, pass, i, d, v);
      }
      PlaceElsewhere(s, pass, i, out, offsets, d, v);
    }
  }

  lemma {:induction false} AllPlaced(s: seq<SymFreq>, pass: nat, out: seq<SymFreq>, offsets: seq<nat>, v: nat)
    requires |s| <= |out| && |offsets| == RADIX && v <= RADIX
    requires forall w :: 0 <= w < RADIX ==> Placed(s, pass, |s|, out, offsets, w)
    ensures |Buckets(s, pass, v)| <= |out| && out[..|Buckets(s, pass, v)|] == Buckets(s, pass, v)
  {
    hide WithDigit;
    if v > 0 {
      AllPlaced(s, pass, out, offsets, v - 1);
      assert Placed(s, pass, |s|, out, offsets, v - 1);
      assert s[..|s|] == s;
      Join(out, |Buckets(s, pass, v - 1)|, offsets[v - 1]);
    }
  }

  lemma Join(out: seq<SymFreq>, a: nat, b: nat)
    requires a <= b <= |out|
    ensures out[..b] == out[..a] + out[a..b]
  {
  }

  /** One pass: `out` receives `cur`, ordered by one digit. */
  method Pass(cur: array<SymFreq>, out: array<SymFreq>, n: nat, hist: array<nat>, pass: nat)
    requires cur != out && n <= cur.Length && n <= out.Length && pass < 2
    requires CountedFor(hist[..], cur[..n], pass)
    modifies out
    ensures out[..n] == Buckets(cur[..n], pass, RADIX)
  {
    hide Buckets, WithDigit, Placed;
    ghost var s := cur[..n];
    var offsets := Offsets(hist, pass, s);
    StartPlaced(s, pass, 0, out[..], offsets[..]);
    for i := 0 to n
      invariant cur[..n] == s
      invariant AllSoFar(s, pass, i, out[..], offsets[..])
    {
      PlaceEach(s, pass, i, out[..], offsets[..], Digit(cur[i], pass));
      var d := Digit(cur[i], pass);
      ghost var (o, f) := (out[..], offsets[..]);
      out[offsets[d]] := cur[i];
      offsets[d] := offsets[d] + 1;
      assert out[..] == o[f[d] := s[i]] && offsets[..] == f[d := f[d] + 1];
    }
    AllPlaced(s, pass, out[..], offsets[..], RADIX);
    SizeOfPass(s, pass, RADIX);
  }

  ghost predicate AllSoFar(s: seq<SymFreq>, pass: nat, i: nat, out: seq<SymFreq>, offsets: seq<nat>) {
    i <= |s| <= |out| && |offsets| == RADIX
    && forall v :: 0 <= v < RADIX ==> Placed(s, pass, i, out, offsets, v)
  }

  lemma PlaceEach(s: seq<SymFreq>, pass: nat, i: nat, out: seq<SymFreq>, offsets: seq<nat>, d: nat)
    requires AllSoFar(s, pass, i, out, offsets) && i < |s| && d == Digit(s[i], pass)
    ensures offsets[d] < |s|
    ensures AllSoFar(s, pass, i + 1, out[offsets[d] := s[i]], offsets[d := offsets[d] + 1])
  {
    PlaceOne(s, pass, i, out, offsets, d, d);
    var (n, o, f) := (i + 1, out[offsets[d] := s[i]], offsets[d := offsets[d] + 1]);
    forall v | 0 <= v < RADIX
      ensures Placed(s, pass, n, o, f, v)
    {
      PlaceOne(s, pass, i, out, offsets, d, v);
    }
  }

  lemma StartPlaced(s: seq<SymFreq>, pass: nat, i: nat, out: seq<SymFreq>, offsets: seq<nat>)
    requires i == 0 && |s| <= |out| && |offsets| == RADIX
    requires forall v :: 0 <= v < RADIX ==> offsets[v] == |Buckets(s, pass, v)|
    ensures AllSoFar(s, pass, i, out, offsets)
  {
    forall v | 0 <= v < RADIX
      ensures Placed(s, pass, i, out, offsets, v)
    {
      SizeOfPass(s, pass, v);
      assert s[..0] == [];
    }
  }

  /** Where every digit starts. */
  method Offsets(hist: array<nat>, pass: nat, ghost s: seq<SymFreq>) returns (offsets: array<nat>)
    requires pass < 2 && CountedFor(hist[..], s, pass)
    ensures fresh(offsets) && offsets.Length == RADIX
    ensures forall v :: 0 <= v < RADIX ==> offsets[v] == |Buckets(s, pass, v)|
  {
    hide Buckets, WithDigit;
    offsets := new nat[RADIX];
    var curOfs := 0;
    assert |Buckets(s, pass, 0)| == 0 by { EmptyStart(s, pass); }
    for v := 0 to RADIX
      invariant curOfs == |Buckets(s, pass, v)|
      invariant forall w :: 0 <= w < v ==> offsets[w] == |Buckets(s, pass, w)|
    {
      offsets[v] := curOfs;
      BucketStep(s, pass, v);
      assert hist[..][Slot(pass, v)] == |WithDigit(s, pass, v)|;
      curOfs := curOfs + hist[Slot(pass, v)];
    }
  }

  lemma EmptyStart(s: seq<SymFreq>, pass: nat)
    ensures Buckets(s, pass, 0) == []
  {
  }

  lemma BucketStep(s: seq<SymFreq>, pass: nat, v: nat)
    ensures |Buckets(s, pass, v + 1)| == |Buckets(s, pass, v)| + |WithDigit(s, pass, v)|
  {
  }

  lemma {:induction false} WithDigitConcat(s: seq<SymFreq>, t: seq<SymFreq>, pass: nat, v: nat)
    ensures WithDigit(s + t, pass, v) == WithDigit(s, pass, v) + WithDigit(t, pass, v)
  {
    if t == [] {
      assert s + t == s;
    } else {
      assert (s + t)[..|s + t| - 1] == s + t[..|t| - 1];
      WithDigitConcat(s, t[..|t| - 1], pass, v);
    }
  }

  lemma LastDigit(s: seq<SymFreq>, pass: nat, v: nat)
    requires s != []
    ensures var (front, x) := (s[..|s| - 1], s[|s| - 1]);
            WithDigit(s, pass, v) ==
              if Digit(x, pass) == v then WithDigit(front, pass, v) + [x] else WithDigit(front, pass, v)
  {
  }

  lemma AppendDigit(t: seq<SymFreq>, x: SymFreq, pass: nat, v: nat)
    ensures |WithDigit(t + [x], pass, v)| == |WithDigit(t, pass, v)| + if Digit(x, pass) == v then 1 else 0
  {
    assert (t + [x])[..|t|] == t;
  }

  lemma {:induction false} CountAfterGrow(s: seq<SymFreq>, w: nat, v: nat)
    requires s != []
    ensures var (front, x) := (s[..|s| - 1], s[|s| - 1]);
            |WithDigit(Buckets(s, 0, w), 1, v)|
            == |WithDigit(Buckets(front, 0, w), 1, v)| + if Digit(x, 0) < w && Digit(x, 1) == v then 1 else 0
  {
    hide WithDigit, Digit;
    if w > 0 {
      var (front, x) := (s[..|s| - 1], s[|s| - 1]);
      CountAfterGrow(s, w - 1, v);
      WithDigitConcat(Buckets(s, 0, w - 1), WithDigit(s, 0, w - 1), 1, v);
      WithDigitConcat(Buckets(front, 0, w - 1), WithDigit(front, 0, w - 1), 1, v);
      LastDigit(s, 0, w - 1);
      AppendDigit(WithDigit(front, 0, w - 1), x, 1, v);
    }
  }

  /** The first pass does not change how often a high byte occurs. */
  lemma {:induction false} CountAfterPass(s: seq<SymFreq>, v: nat)
    ensures |WithDigit(Buckets(s, 0, RADIX), 1, v)| == |WithDigit(s, 1, v)|
  {
    if s == [] {
      EmptyPass(0, RADIX);
    } else {
      CountAfterPass(s[..|s| - 1], v);
      CountAfterGrow(s, RADIX, v);
    }
  }

  lemma {:induction false} WithDigitSize(s: seq<SymFreq>, pass: nat, v: nat)
    ensures |WithDigit(s, pass, v)| <= |s|
    ensures |WithDigit(s, pass, v)| == |s| ==> WithDigit(s, pass, v) == s
    ensures |WithDigit(s, pass, v)| == |s| ==> forall w :: w != v ==> WithDigit(s, pass, w) == []
  {
    if s != [] {
      WithDigitSize(s[..|s| - 1], pass, v);
      if |WithDigit(s, pass, v)| == |s| {
        forall w | w != v ensures WithDigit(s, pass, w) == [] {
          assert WithDigit(s[..|s| - 1], pass, w) == [];
        }
      }
    }
  }

  lemma {:induction false} IdlePass(s: seq<SymFreq>, v: nat)
    requires |WithDigit(s, 1, 0)| == |s| && v > 0
    ensures Buckets(s, 1, v) == s
  {
    WithDigitSize(s, 1, 0);
    if v > 1 {
      IdlePass(s, v - 1);
    } else {
      assert Buckets(s, 1, 0) == [];
    }
  }

  lemma CountedAfterPass(hist: seq<nat>, s: seq<SymFreq>)
    requires CountedFor(hist, s, 1)
    ensures CountedFor(hist, Buckets(s, 0, RADIX), 1)
  {
    forall v | 0 <= v < RADIX
      ensures |WithDigit(Buckets(s, 0, RADIX), 1, v)| == |WithDigit(s, 1, v)|
    {
      CountAfterPass(s, v);
    }
  }

  /** `tdefl_radix_sort_syms`: the sorted elements are in the buffer it returns. */
  method RadixSortSyms(n: nat, syms0: array<SymFreq>, syms1: array<SymFreq>) returns (sorted: array<SymFreq>)
    requires syms0 != syms1 && n <= syms0.Length && n <= syms1.Length
    modifies syms0, syms1
    ensures sorted == syms0 || sorted == syms1
    ensures sorted.Length >= n && sorted[..n] == Sorted(old(syms0[..n]))
  {
    hide Buckets, WithDigit;
    ghost var s := syms0[..n];
    var hist := Histogram(syms0, n);
    var totalPasses := 2;
    while totalPasses > 1 && n == hist[(totalPasses - 1) * RADIX]
      invariant 1 <= totalPasses <= 2
      invariant totalPasses == 1 ==> n == hist[RADIX]
    {
      totalPasses := totalPasses - 1;
    }
    ghost var counts := hist[..];
    CountedAfterPass(counts, s);
    SizeOfPass(s, 0, RADIX);
    if totalPasses == 1 {
      IdlePass(Buckets(s, 0, RADIX), RADIX);
    }
    var (cur, other) := (syms0, syms1);
    var pass := 0;
    while pass < totalPasses
      invariant 0 <= pass <= totalPasses
      invariant cur != other && {cur, other} == {syms0, syms1}
      invariant hist[..] == counts && (pass < 2 ==> CountedFor(counts, cur[..n], pass))
      invariant pass == 0 ==> cur[..n] == s
      invariant pass == 1 ==> cur[..n] == Buckets(s, 0, RADIX)
      invariant pass == 2 ==> cur[..n] == Sorted(s)
    {
      Pass(cur, other, n, hist, pass);
      cur, other := other, cur;
      pass := pass + 1;
    }
    sorted := cur;
  }

  // ---- The result is a permutation ----

  lemma {:induction false} KeyCounts(s: seq<SymFreq>, x: SymFreq)
    ensures multiset(s)[x] == multiset(WithKey(s, x.key))[x]
  {
    if s != [] {
      var front := s[..|s| - 1];
      KeyCounts(front, x);
      assert s == front + [s[|s| - 1]];
    }
  }

  lemma SortPermutes(s: seq<SymFreq>)
    ensures multiset(Sorted(s)) == multiset(s) && |Sorted(s)| == |s|
  {
    hide WithKey, Buckets;
    forall x: SymFreq
      ensures multiset(Sorted(s))[x] == multiset(s)[x]
    {
      KeyCounts(s, x);
      KeyCounts(Sorted(s), x);
      SortStable(s, x.key);
    }
    SizeOfPass(s, 0, RADIX);
    SizeOfPass(Buckets(s, 0, RADIX), 1, RADIX);
  }

  ghost predicate DistinctSyms(s: seq<SymFreq>) {
    forall i, j :: 0 <= i < j < |s| ==> s[i].sym != s[j].sym
  }

  lemma {:induction false} AtMostOnce(s: seq<SymFreq>, x: SymFreq)
    requires DistinctSyms(s)
    ensures multiset(s)[x] <= 1
  {
    if s != [] {
      var front := s[..|s| - 1];
      AtMostOnce(front, x);
      assert s == front + [s[|s| - 1]];
    }
  }

  lemma Twice(s: seq<SymFreq>, i: nat, j: nat)
    requires i < j < |s| && s[i] == s[j]
    ensures multiset(s)[s[i]] >= 2
  {
    assert s == s[..j] + ([s[j]] + s[j + 1..]);
    assert s[..j][i] == s[i];
  }

  lemma DistinctAfterSort(s: seq<SymFreq>)
    requires DistinctSyms(s)
    ensures DistinctSyms(Sorted(s))
  {
    hide Buckets;
    SortPermutes(s);
    var t := Sorted(s);
    forall i, j | 0 <= i < j < |t|
      ensures t[i].sym != t[j].sym
    {
      if t[i].sym == t[j].sym {
        assert t[i] in multiset(t) && t[j] in multiset(t);
        assert t[i] in s && t[j] in s;
        Twice(t, i, j);
        AtMostOnce(s, t[i]);
      }
    }
  }

  function Keys(s: seq<SymFreq>): (k: seq<nat>)
    ensures |k| == |s|
  {
    if s == [] then [] else Keys(s[..|s| - 1]) + [s[|s| - 1].key]
  }

  lemma {:induction false} KeysAt(s: seq<SymFreq>, i: nat)
    requires i < |s|
    ensures Keys(s)[i] == s[i].key
  {
    if i < |s| - 1 {
      KeysAt(s[..|s| - 1], i);
    }
  }

  /** The sum of all keys. */
  function Mass(s: seq<SymFreq>): nat {
    if s == [] then 0 else Mass(s[..|s| - 1]) + s[|s| - 1].key
  }

  lemma {:induction false} MassConcat(s: seq<SymFreq>, t: seq<SymFreq>)
    ensures Mass(s + t) == Mass(s) + Mass(t)
  {
    if t == [] {
      assert s + t == s;
    } else {
      assert (s + t)[..|s + t| - 1] == s + t[..|t| - 1];
      MassConcat(s, t[..|t| - 1]);
    }
  }

  lemma {:induction false} MassGrow(s: seq<SymFreq>, pass: nat, v: nat)
    requires s != []
    ensures Mass(Buckets(s, pass, v))
         == Mass(Buckets(s[..|s| - 1], pass, v)) + if Digit(s[|s| - 1], pass) < v then s[|s| - 1].key else 0
  {
    hide WithDigit, Digit;
    if v > 0 {
      var (front, x) := (s[..|s| - 1], s[|s| - 1]);
      MassGrow(s, pass, v - 1);
      LastDigit(s, pass, v - 1);
      MassConcat(Buckets(s, pass, v - 1), WithDigit(s, pass, v - 1));
      MassConcat(Buckets(front, pass, v - 1), WithDigit(front, pass, v - 1));
      MassConcat(WithDigit(front, pass, v - 1), [x]);
      assert Mass([x]) == Mass([]) + x.key;
    }
  }

  lemma {:induction false} MassOfPass(s: seq<SymFreq>, pass: nat)
    ensures Mass(Buckets(s, pass, RADIX)) == Mass(s)
  {
    if s == [] {
      EmptyPass(pass, RADIX);
    } else {
      MassOfPass(s[..|s| - 1], pass);
      MassGrow(s, pass, RADIX);
    }
  }

  lemma MassOfSort(s: seq<SymFreq>)
    ensures Mass(Sorted(s)) == Mass(s)
  {
    MassOfPass(s, 0);
    MassOfPass(Buckets(s, 0, RADIX), 1);
  }
}
