/** Why the lengths of `tdefl_calculate_minimum_redundancy` are the best possible: no prefix code
    for the same frequencies is shorter. */
module Optimality {
  import opened Bits
  import opened MinimumRedundancy

  /** The encoded length: frequency times code length, over all symbols. */
  function Cost(ws: seq<nat>, ls: seq<nat>): nat
    requires |ws| == |ls|
  {
    if ws == [] then 0
    else Cost(ws[..|ws| - 1], ls[..|ls| - 1]) + ws[|ws| - 1] * ls[|ls| - 1]
  }

  /** The Kraft sum of code lengths up to `m`, in units of `2^-m`. */
  function Kraft(ls: seq<nat>, m: nat): nat {
    if ls == [] then 0 else Kraft(ls[..|ls| - 1], m) + Worth(m, ls[|ls| - 1])
  }

  ghost predicate UpTo(ls: seq<nat>, m: nat) {
    forall i :: 0 <= i < |ls| ==> ls[i] <= m
  }

  /** Lengths that some prefix code has. */
  ghost predicate IsCode(ls: seq<nat>, m: nat) {
    UpTo(ls, m) && Kraft(ls, m) <= Pow2(m)
  }

  function RemoveAt(s: seq<nat>, i: nat): seq<nat>
    requires i < |s|
  {
    s[..i] + s[i + 1..]
  }

  // ---- Changing one length, leaving out one symbol ----

  lemma {:induction false} UpdateCost(ws: seq<nat>, ls: seq<nat>, i: nat, v: nat)
    requires |ws| == |ls| && i < |ls|
    ensures Cost(ws, ls[i := v]) + ws[i] * ls[i] == Cost(ws, ls) + ws[i] * v
  {
    var n := |ls| - 1;
    if i < n {
      UpdateCost(ws[..n], ls[..n], i, v);
      assert ls[i := v][..n] == ls[..n][i := v];
    } else {
      assert ls[i := v][..n] == ls[..n];
    }
  }

  lemma {:induction false} UpdateKraft(ls: seq<nat>, m: nat, i: nat, v: nat)
    requires i < |ls|
    ensures Kraft(ls[i := v], m) + Worth(m, ls[i]) == Kraft(ls, m) + Worth(m, v)
  {
    var n := |ls| - 1;
    if i < n {
      UpdateKraft(ls[..n], m, i, v);
      assert ls[i := v][..n] == ls[..n][i := v];
    } else {
      assert ls[i := v][..n] == ls[..n];
    }
  }

  lemma {:induction false} RemoveCost(ws: seq<nat>, ls: seq<nat>, i: nat)
    requires |ws| == |ls| && i < |ls|
    ensures Cost(ws, ls) == Cost(RemoveAt(ws, i), RemoveAt(ls, i)) + ws[i] * ls[i]
  {
    var n := |ls| - 1;
    if i < n {
      RemoveCost(ws[..n], ls[..n], i);
      assert RemoveAt(ws, i)[..n - 1] == RemoveAt(ws[..n], i);
      assert RemoveAt(ls, i)[..n - 1] == RemoveAt(ls[..n], i);
    } else {
      assert RemoveAt(ws, i) == ws[..n] && RemoveAt(ls, i) == ls[..n];
    }
  }

  lemma {:induction false} RemoveKraft(ls: seq<nat>, m: nat, i: nat)
    requires i < |ls|
    ensures Kraft(ls, m) == Kraft(RemoveAt(ls, i), m) + Worth(m, ls[i])
  {
    var n := |ls| - 1;
    if i < n {
      RemoveKraft(ls[..n], m, i);
      assert RemoveAt(ls, i)[..n - 1] == RemoveAt(ls[..n], i);
    } else {
      assert RemoveAt(ls, i) == ls[..n];
    }
  }

  lemma RemoveElements(s: seq<nat>, i: nat)
    requires i < |s|
    ensures multiset(s) == multiset(RemoveAt(s, i)) + multiset{s[i]}
  {
    assert s == s[..i] + [s[i]] + s[i + 1..];
  }

  // ---- The longest codes come in pairs ----

  lemma {:induction false} KraftDouble(ls: seq<nat>, m: nat)
    requires UpTo(ls, m)
    ensures Kraft(ls, m + 1) == 2 * Kraft(ls, m)
  {
    if ls != [] {
      KraftDouble(ls[..|ls| - 1], m);
    }
  }

  /** The scale does not matter. */
  lemma {:induction false} Rescale(ls: seq<nat>, m: nat, k: nat)
    requires UpTo(ls, k) && k <= m && IsCode(ls, m)
    ensures IsCode(ls, k)
    decreases m
  {
    if k < m {
      KraftDouble(ls, m - 1);
      Rescale(ls, m - 1, k);
    }
  }

  lemma {:induction false} EvenWithout(ls: seq<nat>, m: nat)
    requires forall i :: 0 <= i < |ls| ==> ls[i] < m
    ensures Kraft(ls, m) % 2 == 0
  {
    if ls != [] {
      EvenWithout(ls[..|ls| - 1], m);
    }
  }

  /** A code of two or more symbols whose longest length occurs once can be shortened there. */
  lemma {:induction false} LoneLongest(ls: seq<nat>, m: nat, p: nat)
    requires p < |ls| && ls[p] == m > 0 && IsCode(ls, m)
    requires forall i :: 0 <= i < |ls| && i != p ==> ls[i] < m
    ensures IsCode(ls[p := m - 1], m)
  {
    hide Kraft, Worth, Pow2, RemoveAt;
    WorthAtEnd(m);
    RemoveKraft(ls, m, p);
    OthersShorter(ls, m, p);
    EvenWithout(RemoveAt(ls, p), m);
    UpdateKraft(ls, m, p, m - 1);
  }

  lemma OthersShorter(ls: seq<nat>, m: nat, p: nat)
    requires p < |ls| && forall i :: 0 <= i < |ls| && i != p ==> ls[i] < m
    ensures forall i :: 0 <= i < |RemoveAt(ls, p)| ==> RemoveAt(ls, p)[i] < m
  {
    var rest := RemoveAt(ls, p);
    forall i | 0 <= i < |rest| ensures rest[i] < m {
      assert rest[i] == ls[if i < p then i else i + 1];
    }
  }

  lemma WorthAtEnd(m: nat)
    requires m > 0
    ensures Worth(m, m - 1) == 2 && Worth(m, m) == 1 && Pow2(m) % 2 == 0
  {
    assert Pow2(1) == 2 && Pow2(m) == 2 * Pow2(m - 1);
  }

  function Sum(ls: seq<nat>): nat {
    if ls == [] then 0 else Sum(ls[..|ls| - 1]) + ls[|ls| - 1]
  }

  lemma {:induction false} ZeroSum(s: seq<nat>)
    requires forall i :: 0 <= i < |s| ==> s[i] == 0
    ensures Sum(s) == 0
  {
    if s != [] {
      ZeroSum(s[..|s| - 1]);
    }
  }

  lemma {:induction false} UpdateSum(ls: seq<nat>, i: nat, v: nat)
    requires i < |ls|
    ensures Sum(ls[i := v]) + ls[i] == Sum(ls) + v
  {
    var n := |ls| - 1;
    if i < n {
      UpdateSum(ls[..n], i, v);
      assert ls[i := v][..n] == ls[..n][i := v];
    } else {
      assert ls[i := v][..n] == ls[..n];
    }
  }

  /** The lighter symbol takes the longer code. */
  lemma {:induction false} SwapLengths(ws: seq<nat>, ls: seq<nat>, m: nat, i: nat, p: nat)
    requires |ws| == |ls| && i < |ls| && p < |ls| && IsCode(ls, m) && ws[i] <= ws[p] && ls[i] <= ls[p] && i != p
    ensures IsCode(ls[i := ls[p]][p := ls[i]], m)
    ensures Cost(ws, ls[i := ls[p]][p := ls[i]]) <= Cost(ws, ls)
  {
    var l1 := ls[i := ls[p]];
    UpdateCost(ws, ls, i, ls[p]);
    UpdateCost(ws, l1, p, ls[i]);
    UpdateKraft(ls, m, i, ls[p]);
    UpdateKraft(l1, m, p, ls[i]);
    Rearrange(ws[i], ws[p], ls[i], ls[p]);
  }

  lemma Rearrange(a: nat, b: nat, x: nat, y: nat)
    requires a <= b && x <= y
    ensures a * y + b * x <= a * x + b * y
  {
    assert (b - a) * (y - x) >= 0;
    assert (b - a) * (y - x) == b * y - b * x - a * y + a * x;
  }

  // ---- Merging the two lightest symbols ----

  /** No code for symbols of these frequencies costs less than `c`. */
  ghost predicate NoCheaper(freqs: multiset<nat>, c: nat) {
    forall ws: seq<nat>, ls: seq<nat>, m: nat ::
      multiset(ws) == freqs && |ws| == |ls| && IsCode(ls, m) ==> c <= Cost(ws, ls)
  }

  ghost predicate Floor(freqs: multiset<nat>, v: nat) {
    forall z :: z in freqs ==> v <= z
  }

  lemma {:induction false} Longest(ls: seq<nat>) returns (p: nat)
    requires ls != []
    ensures p < |ls| && UpTo(ls, ls[p])
  {
    var n := |ls| - 1;
    p := n;
    if n > 0 {
      var q := Longest(ls[..n]);
      if ls[q] > ls[n] {
        p := q;
      }
      assert forall i :: 0 <= i < n ==> ls[i] == ls[..n][i];
    }
  }

  lemma {:induction false} KraftOfZeros(ls: seq<nat>)
    requires UpTo(ls, 0)
    ensures Kraft(ls, 0) == |ls|
  {
    if ls != [] {
      KraftOfZeros(ls[..|ls| - 1]);
    }
  }

  lemma TwoNeedBits(ls: seq<nat>, m: nat)
    requires |ls| >= 2 && IsCode(ls, m)
    ensures m > 0
  {
    if m == 0 {
      KraftOfZeros(ls);
    }
  }

  lemma FindOne(ws: seq<nat>, rest: multiset<nat>, v: nat) returns (i: nat)
    requires multiset(ws) == rest + multiset{v}
    ensures i < |ws| && ws[i] == v && multiset(RemoveAt(ws, i)) == rest
  {
    assert v in multiset(ws);
    i :| i < |ws| && ws[i] == v;
    RemoveElements(ws, i);
    assert multiset(RemoveAt(ws, i)) == multiset(ws) - multiset{v};
  }

  lemma FloorAt(ws: seq<nat>, v: nat)
    requires Floor(multiset(ws), v)
    ensures forall k :: 0 <= k < |ws| ==> v <= ws[k]
  {
    forall k | 0 <= k < |ws| ensures v <= ws[k] {
      assert ws[k] in multiset(ws);
    }
  }

  lemma FloorWith(freqs: multiset<nat>, v: nat, x: nat)
    requires Floor(freqs, v) && v <= x
    ensures Floor(freqs + multiset{x}, v)
  {
  }

  lemma FindLightest(ws: seq<nat>, rest: multiset<nat>, x: nat, y: nat) returns (i: nat, j: nat)
    requires multiset(ws) == rest + multiset{y} + multiset{x}
    requires x <= y && Floor(rest, y)
    ensures i < |ws| && j < |ws| && i != j && ws[i] == x && ws[j] == y
    ensures forall k :: 0 <= k < |ws| ==> x <= ws[k]
    ensures forall k :: 0 <= k < |ws| && k != i ==> y <= ws[k]
  {
    i := FindOne(ws, rest + multiset{y}, x);
    var others := RemoveAt(ws, i);
    FloorWith(rest, y, y);
    FloorAt(others, y);
    var j' := FindOne(others, rest, y);
    j := if j' < i then j' else j' + 1;
    forall k | 0 <= k < |ws| && k != i ensures y <= ws[k] {
      assert ws[k] == others[if k < i then k else k - 1];
    }
  }

  lemma WithJoint(ws: seq<nat>, rest: multiset<nat>, w: nat)
    requires multiset(ws) == rest
    ensures multiset(ws + [w]) == rest + multiset{w}
  {
  }

  /** Two symbols that share the longest length are replaced by one of their joint frequency. */
  lemma PairUp(ws: seq<nat>, ls: seq<nat>, m: nat, i: nat, j: nat, rest: multiset<nat>, c: nat)
    requires |ws| == |ls| && i < j < |ws| && ls[i] == ls[j] == m > 0 && IsCode(ls, m)
    requires multiset(ws) == rest + multiset{ws[i]} + multiset{ws[j]} && NoCheaper(rest + multiset{ws[i] + ws[j]}, c)
    ensures c + ws[i] + ws[j] <= Cost(ws, ls)
  {
    hide *;
    var w2, l2 := RemovePair(ws, ls, m, i, j, rest);
    var joint := ws[i] + ws[j];
    ShorterCode(l2, m);
    WithJoint(w2, rest, joint);
    ExtendCode(w2, l2, m, joint, m - 1);
    CostOfAny(rest + multiset{joint}, c, w2 + [joint], l2 + [m - 1], m);
    JointCost(ws[i], ws[j], m);
  }

  lemma CostOfAny(freqs: multiset<nat>, c: nat, ws: seq<nat>, ls: seq<nat>, m: nat)
    requires NoCheaper(freqs, c) && multiset(ws) == freqs && |ws| == |ls| && IsCode(ls, m)
    ensures c <= Cost(ws, ls)
  {
  }

  lemma ShorterCode(ls: seq<nat>, m: nat)
    requires UpTo(ls, m) && Kraft(ls, m) + 2 <= Pow2(m) && m > 0
    ensures IsCode(ls + [m - 1], m)
  {
    assert (ls + [m - 1])[..|ls|] == ls;
    assert Pow2(1) == 2;
  }

  lemma ExtendCode(ws: seq<nat>, ls: seq<nat>, m: nat, w: nat, l: nat)
    requires |ws| == |ls|
    ensures Kraft(ls + [l], m) == Kraft(ls, m) + Worth(m, l)
    ensures Cost(ws + [w], ls + [l]) == Cost(ws, ls) + w * l
  {
    assert (ws + [w])[..|ws|] == ws && (ls + [l])[..|ls|] == ls;
  }

  lemma RemovePair(ws: seq<nat>, ls: seq<nat>, m: nat, i: nat, j: nat, rest: multiset<nat>)
    returns (w2: seq<nat>, l2: seq<nat>)
    requires |ws| == |ls| && i < j < |ws| && ls[i] == ls[j] == m > 0 && IsCode(ls, m)
    requires multiset(ws) == rest + multiset{ws[i]} + multiset{ws[j]}
    ensures |w2| == |l2| && multiset(w2) == rest && UpTo(l2, m) && Kraft(l2, m) + 2 <= Pow2(m)
    ensures Cost(ws, ls) == Cost(w2, l2) + ws[i] * m + ws[j] * m
  {
    assert Worth(m, m) == 1;
    hide Kraft, Cost, Worth, Pow2;
    w2, l2 := RemoveTwo(ws, i, j, rest), RemoveAt(RemoveAt(ls, j), i);
    RemoveCost(ws, ls, j);
    RemoveKraft(ls, m, j);
    RemoveCost(RemoveAt(ws, j), RemoveAt(ls, j), i);
    RemoveKraft(RemoveAt(ls, j), m, i);
  }

  function RemoveTwo(ws: seq<nat>, i: nat, j: nat, ghost rest: multiset<nat>): (w2: seq<nat>)
    requires i < j < |ws| && multiset(ws) == rest + multiset{ws[i]} + multiset{ws[j]}
    ensures w2 == RemoveAt(RemoveAt(ws, j), i) && multiset(w2) == rest
  {
    var w1 := RemoveAt(ws, j);
    RemoveElements(ws, j);
    RemoveElements(w1, i);
    Cancel(multiset(RemoveAt(w1, i)), rest, ws[i], ws[j]);
    RemoveAt(w1, i)
  }

  lemma Cancel(a: multiset<nat>, b: multiset<nat>, x: nat, y: nat)
    requires a + multiset{x} + multiset{y} == b + multiset{x} + multiset{y}
    ensures a == b
  {
    assert a == a + multiset{x} + multiset{y} - multiset{y} - multiset{x};
    assert b == b + multiset{x} + multiset{y} - multiset{y} - multiset{x};
  }

  lemma JointCost(x: nat, y: nat, m: nat)
    requires m > 0
    ensures x * m + y * m == (x + y) * (m - 1) + x + y
  {
  }

  lemma ShortenLone(ws: seq<nat>, ls: seq<nat>, m: nat, p: nat)
    requires |ws| == |ls| && p < |ls| && ls[p] == m > 0 && IsCode(ls, m)
    requires forall i :: 0 <= i < |ls| && i != p ==> ls[i] != m
    ensures IsCode(ls[p := m - 1], m) && Sum(ls[p := m - 1]) < Sum(ls) && Cost(ws, ls[p := m - 1]) <= Cost(ws, ls)
  {
    hide Kraft, Cost, Pow2, Sum;
    LoneLongest(ls, m, p);
    UpdateSum(ls, p, m - 1);
    UpdateCost(ws, ls, p, m - 1);
    Rearrange(0, ws[p], m - 1, m);
  }

  /** The scale may be the longest length, and with two symbols that is at least one bit. */
  lemma AtLongest(ls: seq<nat>, m: nat, p: nat)
    requires IsCode(ls, m) && |ls| >= 2 && p < |ls| && forall k :: 0 <= k < |ls| ==> ls[k] <= ls[p]
    ensures IsCode(ls, ls[p]) && ls[p] > 0
  {
    hide Kraft, Pow2;
    Rescale(ls, m, ls[p]);
    TwoNeedBits(ls, ls[p]);
  }

  lemma {:induction false} MergeCase(rest: multiset<nat>, x: nat, y: nat, c: nat, ws: seq<nat>, ls: seq<nat>, m: nat)
    requires x <= y && Floor(rest, y) && NoCheaper(rest + multiset{x + y}, c)
    requires multiset(ws) == rest + multiset{x} + multiset{y} && |ws| == |ls| && IsCode(ls, m)
    ensures c + x + y <= Cost(ws, ls)
    decreases Sum(ls)
  {
    hide Kraft, Cost, Pow2, NoCheaper, IsCode, Floor, Sum, UpTo;
    var i, j := FindLightest(ws, rest, x, y);
    var p := Longest(ls);
    var l := ls[p];
    AtLongest(ls, m, p);
    if q :| 0 <= q < |ls| && q != p && ls[q] == l {
      TwoLongest(ws, ls, l, i, j, p, q, rest, c);
    } else {
      ShortenLone(ws, ls, l, p);
      MergeCase(rest, x, y, c, ws, ls[p := l - 1], l);
    }
  }

  /** The two longest codes go to the two lightest symbols. */
  lemma TwoLongest(ws: seq<nat>, ls: seq<nat>, m: nat, i: nat, j: nat, p: nat, q: nat, rest: multiset<nat>, c: nat)
    requires |ws| == |ls| && i < |ws| && j < |ws| && i != j && p < |ls| && q < |ls| && p != q
    requires ls[p] == ls[q] == m > 0 && IsCode(ls, m)
    requires forall k :: 0 <= k < |ws| ==> ws[i] <= ws[k]
    requires forall k :: 0 <= k < |ws| && k != i ==> ws[j] <= ws[k]
    requires multiset(ws) == rest + multiset{ws[i]} + multiset{ws[j]} && NoCheaper(rest + multiset{ws[i] + ws[j]}, c)
    ensures c + ws[i] + ws[j] <= Cost(ws, ls)
  {
    var l1, other := ls, if i == q then p else q;
    if ls[i] < m {
      SwapLengths(ws, ls, m, i, p);
      l1 := ls[i := ls[p]][p := ls[i]];
    }
    assert l1[i] == m && other != i && l1[other] == m;
    var l2 := l1;
    if l1[j] < m {
      SwapLengths(ws, l1, m, j, other);
      l2 := l1[j := l1[other]][other := l1[j]];
    }
    if i < j {
      PairUp(ws, l2, m, i, j, rest, c);
    } else {
      assert rest + multiset{ws[i]} + multiset{ws[j]} == rest + multiset{ws[j]} + multiset{ws[i]};
      PairUp(ws, l2, m, j, i, rest, c);
    }
  }

  /** Merging the two lightest symbols costs exactly their joint frequency. */
  lemma MergeLightest(rest: multiset<nat>, x: nat, y: nat, c: nat)
    requires x <= y && Floor(rest, y) && NoCheaper(rest + multiset{x + y}, c)
    ensures NoCheaper(rest + multiset{x} + multiset{y}, c + x + y)
  {
    var d := c + x + y;
    forall ws: seq<nat>, ls: seq<nat>, m: nat
      | multiset(ws) == rest + multiset{x} + multiset{y} && |ws| == |ls| && IsCode(ls, m)
      ensures d <= Cost(ws, ls)
    {
      MergeCase(rest, x, y, c, ws, ls, m);
    }
  }

  // ---- The first pass makes these merges ----

  /** The items without a parent: nodes from `root`, symbols from `leaf`. */
  function Items(keys: seq<nat>, w: seq<nat>, root: nat, leaf: nat): multiset<nat>
    requires root <= |w| && leaf <= |keys|
  {
    multiset(w[root..]) + multiset(keys[leaf..])
  }

  function ItemSum(keys: seq<nat>, w: seq<nat>, root: nat, leaf: nat): nat
    requires root <= |w| && leaf <= |keys|
  {
    Sum(w[root..]) + Sum(keys[leaf..])
  }

  lemma {:induction false} SumFront(s: seq<nat>)
    requires s != []
    ensures Sum(s) == s[0] + Sum(s[1..])
  {
    var n := |s| - 1;
    if n > 0 {
      SumFront(s[..n]);
      assert s[..n][1..] == s[1..][..n - 1];
    }
  }

  lemma SuffixFront(s: seq<nat>, k: nat)
    requires k < |s|
    ensures Sum(s[k..]) == s[k] + Sum(s[k + 1..]) && multiset(s[k..]) == multiset{s[k]} + multiset(s[k + 1..])
  {
    SumFront(s[k..]);
    assert s[k..][1..] == s[k + 1..];
    assert s[k..] == [s[k]] + s[k + 1..];
  }

  /** Taking the lighter front item of two ascending queues takes the lightest item. */
  lemma TakeLightest(keys: seq<nat>, w: seq<nat>, root: nat, leaf: nat)
    requires root <= |w| && leaf <= |keys| && (leaf < |keys| || root < |w|) && Ascending(w) && Ascending(keys)
    ensures var x := Taken(keys, w, root, leaf);
            var (root1, leaf1) := if TakesNode(keys, w, root, leaf) then (root + 1, leaf) else (root, leaf + 1);
            && root1 <= |w| && leaf1 <= |keys|
            && Items(keys, w, root, leaf) == Items(keys, w, root1, leaf1) + multiset{x}
            && ItemSum(keys, w, root, leaf) == ItemSum(keys, w, root1, leaf1) + x
            && Floor(Items(keys, w, root1, leaf1), x)
  {
    if TakesNode(keys, w, root, leaf) {
      SuffixFront(w, root);
      SuffixFloor(w, root + 1, w[root]);
      SuffixFloor(keys, leaf, w[root]);
      assert Items(keys, w, root, leaf) == Items(keys, w, root + 1, leaf) + multiset{w[root]};
    } else {
      SuffixFront(keys, leaf);
      SuffixFloor(keys, leaf + 1, keys[leaf]);
      SuffixFloor(w, root, keys[leaf]);
      assert Items(keys, w, root, leaf) == Items(keys, w, root, leaf + 1) + multiset{keys[leaf]};
    }
  }

  lemma SuffixFloor(s: seq<nat>, k: nat, v: nat)
    requires Ascending(s) && k <= |s| && (k < |s| ==> v <= s[k])
    ensures Floor(multiset(s[k..]), v)
  {
    forall z | z in multiset(s[k..]) ensures v <= z {
      var i :| 0 <= i < |s[k..]| && s[k..][i] == z;
      assert s[k..][i] == s[k + i];
    }
  }

  /** The state of the weights after `m` merges; `hi` is the heavier of the last two items merged. */
  ghost predicate Weighed(keys: seq<nat>, s: State, m: nat, hi: nat) {
    && 1 <= m < |keys| && |s.r| == |s.f| == |s.w| == m && s.r[m - 1] <= m && s.f[m - 1] <= |keys|
    && Ascending(s.w) && hi <= s.w[m - 1] <= 2 * hi
    && ItemSum(keys, s.w, s.r[m - 1], s.f[m - 1]) == Sum(keys)
    && Floor(Items(keys, s.w, s.r[m - 1], s.f[m - 1]), hi)
  }

  lemma ItemsExtend(keys: seq<nat>, w: seq<nat>, v: nat, root: nat, leaf: nat)
    requires root <= |w| && leaf <= |keys|
    ensures Items(keys, w + [v], root, leaf) == Items(keys, w, root, leaf) + multiset{v}
    ensures ItemSum(keys, w + [v], root, leaf) == ItemSum(keys, w, root, leaf) + v
  {
    assert (w + [v])[root..] == w[root..] + [v];
    assert (w[root..] + [v])[..|w| - root] == w[root..];
  }

  function After(keys: seq<nat>, w: seq<nat>, root: nat, leaf: nat): (nat, nat)
    requires leaf < |keys| || root < |w|
  {
    if TakesNode(keys, w, root, leaf) then (root + 1, leaf) else (root, leaf + 1)
  }

  /** Two in a row take the two lightest items, the lighter first. */
  lemma TakeTwoLightest(keys: seq<nat>, w: seq<nat>, root: nat, leaf: nat)
    requires root <= |w| && leaf <= |keys| && (leaf < |keys| || root < |w|) && Ascending(w) && Ascending(keys)
    requires var (root1, leaf1) := After(keys, w, root, leaf); leaf1 < |keys| || root1 < |w|
    ensures var (root1, leaf1) := After(keys, w, root, leaf);
            var (root2, leaf2) := After(keys, w, root1, leaf1);
            var (x, y) := (Taken(keys, w, root, leaf), Taken(keys, w, root1, leaf1));
            && root2 <= |w| && leaf2 <= |keys|
            && Items(keys, w, root, leaf) == Items(keys, w, root2, leaf2) + multiset{x} + multiset{y}
            && ItemSum(keys, w, root, leaf) == ItemSum(keys, w, root2, leaf2) + x + y
            && x <= y && Floor(Items(keys, w, root2, leaf2), y)
            && x in Items(keys, w, root, leaf)
  {
    hide Items, ItemSum, Taken, Ascending;
    var (root1, leaf1) := After(keys, w, root, leaf);
    TakeLightest(keys, w, root, leaf);
    TakeLightest(keys, w, root1, leaf1);
    assert Taken(keys, w, root1, leaf1) in Items(keys, w, root1, leaf1);
  }

  lemma AscendingExtend(w: seq<nat>, v: nat)
    requires Ascending(w) && w != [] && w[|w| - 1] <= v
    ensures Ascending(w + [v])
  {
  }

  /** The two items of a step are the two lightest, and what is left is no lighter. */
  lemma WeighStep(keys: seq<nat>, s: State, t: State, m: nat, hi: nat) returns (x: nat, y: nat, rest: multiset<nat>)
    requires m + 1 < |keys| && Ascending(keys) && Sum(keys) < WORD && Weighed(keys, s, m, hi)
    requires |t.r| == |t.f| == |t.w| == m + 1 && StepMakes(keys, s, t, m)
    ensures Weighed(keys, t, m + 1, y) && hi <= x <= y && Floor(rest, y)
    ensures Items(keys, s.w, s.r[m - 1], s.f[m - 1]) == rest + multiset{x} + multiset{y}
    ensures Items(keys, t.w, t.r[m], t.f[m]) == rest + multiset{x + y} && t.w == s.w + [x + y]
    ensures var (root, leaf) := (s.r[m - 1], s.f[m - 1]);
            && (leaf < |keys| || root < m) && x == Taken(keys, s.w, root, leaf)
            && var (root1, leaf1) := After(keys, s.w, root, leaf);
            && (leaf1 < |keys| || root1 < m) && y == Taken(keys, s.w, root1, leaf1)
            && (t.r[m], t.f[m]) == After(keys, s.w, root1, leaf1)
  {
    hide Items, ItemSum, Sum, Taken, TakesNode, Ascending;
    var (root, leaf) := (s.r[m - 1], s.f[m - 1]);
    var (root1, leaf1) := After(keys, s.w, root, leaf);
    TakeTwoLightest(keys, s.w, root, leaf);
    x, y := Taken(keys, s.w, root, leaf), Taken(keys, s.w, root1, leaf1);
    rest := Items(keys, s.w, t.r[m], t.f[m]);
    assert hi <= x && x + y < WORD;
    hide Floor;
    NewNodeWeight(keys, s.w, t, m, x, y, rest);
    AscendingExtend(s.w, x + y);
  }

  lemma NewNodeWeight(keys: seq<nat>, w: seq<nat>, t: State, m: nat, x: nat, y: nat, rest: multiset<nat>)
    requires |w| == m && |t.r| == |t.f| == |t.w| == m + 1 && t.w == w + [t.w[m]] && t.w[m] == x + y
    requires t.r[m] <= m && t.f[m] <= |keys| && rest == Items(keys, w, t.r[m], t.f[m]) && Floor(rest, y)
    ensures Items(keys, t.w, t.r[m], t.f[m]) == rest + multiset{x + y} && t.w == w + [x + y]
    ensures ItemSum(keys, t.w, t.r[m], t.f[m]) == ItemSum(keys, w, t.r[m], t.f[m]) + x + y
    ensures Floor(Items(keys, t.w, t.r[m], t.f[m]), y)
  {
    hide Items, ItemSum, Sum, Floor;
    FloorWith(rest, y, x + y);
    ItemsExtend(keys, w, x + y, t.r[m], t.f[m]);
  }

  /** Frequencies as the radix sort hands them over: in ascending order, with a sum that fits 16 bits. */
  ghost predicate Frequencies(keys: seq<nat>) {
    Ascending(keys) && Sum(keys) < WORD
  }

  /** The heavier of the two items merged by step `k`. */
  function Heavier(keys: seq<nat>, k: nat): nat
    requires k + 1 < |keys|
  {
    if k == 0 then keys[1]
    else
      LastStep(keys, k);
      NextState(keys, k);
      var s := Run(keys, k);
      var (root1, leaf1) := After(keys, s.w, s.r[k - 1], s.f[k - 1]);
      Taken(keys, s.w, root1, leaf1)
  }

  lemma FirstWeighed(keys: seq<nat>)
    requires Frequencies(keys) && |keys| >= 2
    ensures Weighed(keys, Run(keys, 1), 1, keys[1]) && Run(keys, 1).w == [keys[0] + keys[1]]
    ensures Items(keys, Run(keys, 1).w, 0, 2) == multiset(keys[2..]) + multiset{keys[0] + keys[1]}
    ensures multiset(keys) == multiset(keys[2..]) + multiset{keys[0]} + multiset{keys[1]}
            && Floor(multiset(keys[2..]), keys[1])
  {
    hide Run, Items, ItemSum, Sum, Floor;
    FirstRun(keys);
    FirstItems(keys);
    SuffixFloor(keys, 2, keys[1]);
    FloorWith(multiset(keys[2..]), keys[1], keys[0] + keys[1]);
  }

  lemma SumFirstTwo(keys: seq<nat>)
    requires |keys| >= 2
    ensures Sum(keys) == keys[0] + keys[1] + Sum(keys[2..])
  {
    hide Sum;
    SumFront(keys);
    SumFront(keys[1..]);
    assert keys[1..][1..] == keys[2..];
  }

  lemma FirstRun(keys: seq<nat>)
    requires |keys| >= 2 && Sum(keys) < WORD
    ensures Run(keys, 1) == State([0], [2], [keys[0] + keys[1]])
    ensures Sum(keys) == keys[0] + keys[1] + Sum(keys[2..])
  {
    hide Sum, Shaped, Step;
    SumFirstTwo(keys);
  }

  lemma FirstItems(keys: seq<nat>)
    requires |keys| >= 2
    ensures multiset(keys) == multiset(keys[2..]) + multiset{keys[0]} + multiset{keys[1]}
    ensures Items(keys, [keys[0] + keys[1]], 0, 2) == multiset(keys[2..]) + multiset{keys[0] + keys[1]}
    ensures ItemSum(keys, [keys[0] + keys[1]], 0, 2) == keys[0] + keys[1] + Sum(keys[2..])
  {
    assert keys == [keys[0]] + [keys[1]] + keys[2..];
    var w := [keys[0] + keys[1]];
    assert w[0..] == w && w[..0] == [];
    assert Sum(w) == w[0];
  }

  lemma FirstHeavier(keys: seq<nat>)
    requires |keys| >= 2
    ensures Heavier(keys, 0) == keys[1]
  {
  }

  lemma NextHeavier(keys: seq<nat>, k: nat)
    requires 1 <= k && k + 1 < |keys|
    ensures var s := Run(keys, k);
            && |s.r| == |s.f| == |s.w| == k
            && var (root, leaf) := (s.r[k - 1], s.f[k - 1]);
            && (leaf < |keys| || root < k)
            && var (root1, leaf1) := After(keys, s.w, root, leaf);
            && (leaf1 < |keys| || root1 < k) && Heavier(keys, k) == Taken(keys, s.w, root1, leaf1)
  {
    hide Run, Taken, TakesNode, StepMakes;
    LastStep(keys, k);
    NextState(keys, k);
  }

  lemma {:induction false} WeighedRun(keys: seq<nat>, m: nat)
    requires Frequencies(keys) && 1 <= m < |keys|
    ensures Weighed(keys, Run(keys, m), m, Heavier(keys, m - 1))
  {
    hide Weighed, Run, Sum, StepMakes, Heavier, Ascending, Items, Floor, Taken, TakesNode;
    if m == 1 {
      FirstWeighed(keys);
      FirstHeavier(keys);
    } else {
      WeighedRun(keys, m - 1);
      NextState(keys, m - 1);
      NextHeavier(keys, m - 1);
      var x, y, rest := WeighStep(keys, Run(keys, m - 1), Run(keys, m), m - 1, Heavier(keys, m - 2));
    }
  }

  /** The weights, parents and marks of a shorter run are those of the longer one. */
  lemma {:induction false} RunPrefix(keys: seq<nat>, m: nat, n: nat)
    requires 1 <= m <= n < |keys|
    ensures Run(keys, m).w <= Run(keys, n).w && Run(keys, m).r <= Run(keys, n).r && Run(keys, m).f <= Run(keys, n).f
  {
    hide Run, Taken, TakesNode;
    if m < n {
      RunPrefix(keys, m, n - 1);
      NextState(keys, n - 1);
    }
  }

  /** The weights of all nodes. */
  function Weights(keys: seq<nat>): (w: seq<nat>)
    requires |keys| >= 2
    ensures |w| == |keys| - 1
  {
    Run(keys, |keys| - 1).w
  }

  lemma SingleItem(v: nat)
    ensures NoCheaper(multiset{v}, 0)
  {
  }

  lemma {:induction false} NoCheaperFrom(keys: seq<nat>, m: nat)
    requires Frequencies(keys) && 1 <= m < |keys|
    ensures var s := Run(keys, m);
            s.r[m - 1] <= m && s.f[m - 1] <= |keys|
            && NoCheaper(Items(keys, s.w, s.r[m - 1], s.f[m - 1]), Sum(Weights(keys)[m..]))
    decreases |keys| - m
  {
    hide Weighed, Run, StepMakes, NoCheaper, Items, Sum, Floor, Taken, TakesNode;
    var (s, w) := (Run(keys, m), Weights(keys));
    LastStep(keys, m);
    if m == |keys| - 1 {
      LastItems(keys, s);
      SingleItem(w[m - 1]);
    } else {
      NoCheaperFrom(keys, m + 1);
      WeighedRun(keys, m);
      NextState(keys, m);
      RunPrefix(keys, m + 1, |keys| - 1);
      MergeNext(keys, s, Run(keys, m + 1), m, Heavier(keys, m - 1), w);
    }
  }

  /** If no code for the items after a merge is cheaper than what is still to be added, neither is one before it. */
  lemma MergeNext(keys: seq<nat>, s: State, t: State, m: nat, hi: nat, w: seq<nat>)
    requires m + 1 < |keys| && Ascending(keys) && Sum(keys) < WORD && Weighed(keys, s, m, hi)
    requires |t.r| == |t.f| == |t.w| == m + 1 && StepMakes(keys, s, t, m) && t.w <= w
    requires t.r[m] <= m + 1 && t.f[m] <= |keys| && s.r[m - 1] <= m && s.f[m - 1] <= |keys|
    requires NoCheaper(Items(keys, t.w, t.r[m], t.f[m]), Sum(w[m + 1..]))
    ensures NoCheaper(Items(keys, s.w, s.r[m - 1], s.f[m - 1]), Sum(w[m..]))
  {
    hide Weighed, StepMakes, NoCheaper, Items, Sum, Floor, Taken, TakesNode, Ascending;
    var x, y, rest := WeighStep(keys, s, t, m, hi);
    assert w[m] == t.w[m] == x + y;
    MergeLightest(rest, x, y, Sum(w[m + 1..]));
    SuffixFront(w, m);
  }

  lemma LastItems(keys: seq<nat>, s: State)
    requires Full(|keys|, s)
    ensures var m := |s.w|;
            && m == |keys| - 1 && |s.r| == |s.f| == m && s.r[m - 1] == m - 1 && s.f[m - 1] == |keys|
            && Items(keys, s.w, m - 1, |keys|) == multiset{s.w[m - 1]}
            && Sum(s.w[m..]) == 0 && ItemSum(keys, s.w, m - 1, |keys|) == s.w[m - 1]
  {
    hide Items, ItemSum, Sum, Shaped, Ascending;
    FullEnds(|keys|, s);
    OneItem(keys, s.w);
  }

  lemma OneItem(keys: seq<nat>, w: seq<nat>)
    requires w != []
    ensures Items(keys, w, |w| - 1, |keys|) == multiset{w[|w| - 1]}
    ensures Sum(w[|w|..]) == 0 && ItemSum(keys, w, |w| - 1, |keys|) == w[|w| - 1]
  {
    var v := w[|w| - 1];
    assert w[|w| - 1..] == [v] && keys[|keys|..] == [] && w[|w|..] == [];
    assert [v][..0] == [];
  }

  /** No prefix code costs less than the weights of all merged nodes together. */
  lemma LowerBound(keys: seq<nat>, ls: seq<nat>, m: nat)
    requires Frequencies(keys) && |keys| >= 2 && |ls| == |keys| && IsCode(ls, m)
    ensures Sum(Weights(keys)) <= Cost(keys, ls)
  {
    hide Run, NoCheaper, Kraft, Cost, Weighed;
    var w := Weights(keys);
    NoCheaperFrom(keys, 1);
    FirstWeighed(keys);
    RunPrefix(keys, 1, |keys| - 1);
    assert w[0] == keys[0] + keys[1];
    SumFront(w);
    MergeLightest(multiset(keys[2..]), keys[0], keys[1], Sum(w[1..]));
    CostOfAny(multiset(keys), Sum(w), keys, ls, m);
  }

  // ---- The lengths reach the bound ----

  function NodeCost(n: nat, s: State, k: nat): nat
    requires Full(n, s) && k <= n - 1
  {
    if k == 0 then 0
    else
      FullEnds(n, s);
      NodeCost(n, s, k - 1) + Total(s.w[k - 1], Depth(n, s, k - 1))
  }

  function LeafCost(keys: seq<nat>, s: State, k: nat): nat
    requires Full(|keys|, s) && k <= |keys|
  {
    if k == 0 then 0 else LeafCost(keys, s, k - 1) + Total(keys[k - 1], LeafDepth(|keys|, s, k - 1))
  }

  lemma {:induction false} SumTo(s: seq<nat>, a: nat, b: nat)
    requires a < b <= |s|
    ensures Sum(s[a..b]) == Sum(s[a..b - 1]) + s[b - 1]
  {
    assert s[a..b][..b - 1 - a] == s[a..b - 1];
  }

  /** The nodes from `a` to `b`, all children of `k`. */
  lemma {:induction false} NodeChildrenCost(n: nat, s: State, k: nat, a: nat, b: nat)
    requires Full(n, s) && k < n - 1 && |s.r| == |s.w| == n - 1 && Prior(s.r, k) <= a <= b <= s.r[k]
    ensures b <= n - 2 && NodeCost(n, s, b) == NodeCost(n, s, a) + Total(Sum(s.w[a..b]), Depth(n, s, k) + 1)
    decreases b - a
  {
    hide Shaped, Depth, Owner, Total;
    StepUses(n, s, k);
    Distribute(0, 0, Depth(n, s, k) + 1);
    if a < b {
      NodeChildrenCost(n, s, k, a, b - 1);
      ChildDepth(n, s, k, b - 1);
      SumTo(s.w, a, b);
      Distribute(Sum(s.w[a..b - 1]), s.w[b - 1], Depth(n, s, k) + 1);
    }
  }

  lemma Distribute(x: nat, y: nat, d: nat)
    ensures Total(x + y, d) == Total(x, d) + Total(y, d) && Total(0, d) == 0 && Total(x, d + 1) == Total(x, d) + x
  {
  }

  lemma {:induction false} LeafChildrenCost(keys: seq<nat>, s: State, k: nat, a: nat, b: nat)
    requires Full(|keys|, s) && k < |keys| - 1 && |s.f| == |keys| - 1 && Prior(s.f, k) <= a <= b <= s.f[k]
    ensures b <= |keys|
            && LeafCost(keys, s, b) == LeafCost(keys, s, a) + Total(Sum(keys[a..b]), Depth(|keys|, s, k) + 1)
    decreases b - a
  {
    hide Shaped, Depth, Owner, LeafDepth, Total;
    StepUses(|keys|, s, k);
    Distribute(0, 0, Depth(|keys|, s, k) + 1);
    if a < b {
      LeafChildrenCost(keys, s, k, a, b - 1);
      ChildLeafDepth(|keys|, s, k, b - 1);
      SumTo(keys, a, b);
      Distribute(Sum(keys[a..b - 1]), keys[b - 1], Depth(|keys|, s, k) + 1);
    }
  }

  /** The weight of the nodes that are children of node `k`. */
  function NodeShare(s: State, k: nat): nat
    requires k < |s.r| && Prior(s.r, k) <= s.r[k] <= |s.w|
  {
    Sum(s.w[Prior(s.r, k)..s.r[k]])
  }

  /** The weight of the symbols that are children of node `k`. */
  function LeafShare(keys: seq<nat>, s: State, k: nat): nat
    requires k < |s.f| && Prior(s.f, k) <= s.f[k] <= |keys|
  {
    Sum(keys[Prior(s.f, k)..s.f[k]])
  }

  /** Every node weighs what its children weigh. */
  ghost predicate NodesWeighed(keys: seq<nat>, s: State) {
    |s.r| == |s.f| == |s.w|
    && forall k :: 0 <= k < |s.w| ==>
         Prior(s.r, k) <= s.r[k] <= k && Prior(s.f, k) <= s.f[k] <= |keys|
         && s.w[k] == NodeShare(s, k) + LeafShare(keys, s, k)
  }

  lemma NodeWeight(keys: seq<nat>, s: State, k: nat)
    requires NodesWeighed(keys, s) && k < |s.w|
    ensures |s.r| == |s.f| == |s.w| && Prior(s.r, k) <= s.r[k] <= k && Prior(s.f, k) <= s.f[k] <= |keys|
    ensures s.w[k] == NodeShare(s, k) + LeafShare(keys, s, k)
  {
  }

  lemma SharesCost(keys: seq<nat>, s: State, k: nat)
    requires Full(|keys|, s) && |s.r| == |s.f| == |s.w| == |keys| - 1 && k < |s.w|
    ensures Prior(s.r, k) <= s.r[k] <= |keys| - 2 && Prior(s.f, k) <= s.f[k] <= |keys|
    ensures NodeCost(|keys|, s, s.r[k]) ==
            NodeCost(|keys|, s, Prior(s.r, k)) + Total(NodeShare(s, k), Depth(|keys|, s, k) + 1)
    ensures LeafCost(keys, s, s.f[k]) ==
            LeafCost(keys, s, Prior(s.f, k)) + Total(LeafShare(keys, s, k), Depth(|keys|, s, k) + 1)
  {
    hide *;
    NodeShareCost(|keys|, s, k);
    LeafShareCost(keys, s, k);
  }

  lemma NodeShareCost(n: nat, s: State, k: nat)
    requires Full(n, s) && |s.r| == |s.w| == n - 1 && k < n - 1
    ensures Prior(s.r, k) <= s.r[k] <= n - 2
    ensures NodeCost(n, s, s.r[k]) == NodeCost(n, s, Prior(s.r, k)) + Total(NodeShare(s, k), Depth(n, s, k) + 1)
  {
    hide Shaped, Ascending, Depth, Owner, NodeCost, Total, Sum;
    StepUses(n, s, k);
    NodeChildrenCost(n, s, k, Prior(s.r, k), s.r[k]);
  }

  lemma LeafShareCost(keys: seq<nat>, s: State, k: nat)
    requires Full(|keys|, s) && |s.f| == |keys| - 1 && k < |keys| - 1
    ensures Prior(s.f, k) <= s.f[k] <= |keys|
    ensures LeafCost(keys, s, s.f[k]) ==
            LeafCost(keys, s, Prior(s.f, k)) + Total(LeafShare(keys, s, k), Depth(|keys|, s, k) + 1)
  {
    hide Shaped, Ascending, Depth, Owner, LeafDepth, LeafCost, Total, Sum;
    StepUses(|keys|, s, k);
    LeafChildrenCost(keys, s, k, Prior(s.f, k), s.f[k]);
  }

  /** Depth-weighted sums: each node passes its weight and one more level to its children. */
  lemma {:induction false} CostBalance(keys: seq<nat>, s: State, k: nat)
    requires Full(|keys|, s) && NodesWeighed(keys, s) && k <= |s.w| == |keys| - 1
    ensures Prior(s.r, k) <= |keys| - 2 && Prior(s.f, k) <= |keys|
    ensures NodeCost(|keys|, s, k) + Sum(s.w[..k]) ==
            NodeCost(|keys|, s, Prior(s.r, k)) + LeafCost(keys, s, Prior(s.f, k))
  {
    hide Shaped, Ascending, Depth, Owner, LeafDepth, Total, Sum, NodesWeighed, NodeShare, LeafShare;
    if k == 0 {
      EmptySum(s.w);
    } else {
      NodeWeight(keys, s, k - 1);
      CostBalance(keys, s, k - 1);
      SharesCost(keys, s, k - 1);
      Distribute(NodeShare(s, k - 1), LeafShare(keys, s, k - 1), Depth(|keys|, s, k - 1) + 1);
      Distribute(s.w[k - 1], 0, Depth(|keys|, s, k - 1));
      PrefixSum(s.w, k);
    }
  }

  lemma EmptySum(s: seq<nat>)
    ensures Sum(s[..0]) == 0
  {
  }

  lemma PrefixSum(s: seq<nat>, k: nat)
    requires 0 < k <= |s|
    ensures Sum(s[..k]) == Sum(s[..k - 1]) + s[k - 1]
  {
    assert s[..k][..k - 1] == s[..k - 1];
  }

  lemma {:induction false} LeafCostIsCost(keys: seq<nat>, s: State, ls: seq<nat>, k: nat)
    requires Full(|keys|, s) && k <= |keys| == |ls| && forall i :: 0 <= i < |keys| ==> ls[i] == LeafDepth(|keys|, s, i)
    ensures LeafCost(keys, s, k) == Cost(keys[..k], ls[..k])
  {
    hide LeafDepth, Shaped;
    if k > 0 {
      LeafCostIsCost(keys, s, ls, k - 1);
      assert keys[..k][..k - 1] == keys[..k - 1] && ls[..k][..k - 1] == ls[..k - 1];
    }
  }

  /** What has been taken since `root0`, `leaf0`, with one more item. */
  lemma TakeAddsUp(keys: seq<nat>, w: seq<nat>, root0: nat, leaf0: nat, root: nat, leaf: nat)
    requires root0 <= root <= |w| && leaf0 <= leaf <= |keys| && (leaf < |keys| || root < |w|)
    ensures var (root1, leaf1) := After(keys, w, root, leaf);
            && root1 <= |w| && leaf1 <= |keys|
            && Sum(w[root0..root1]) + Sum(keys[leaf0..leaf1])
               == Sum(w[root0..root]) + Sum(keys[leaf0..leaf]) + Taken(keys, w, root, leaf)
  {
    hide Sum;
    if TakesNode(keys, w, root, leaf) {
      SumTo(w, root0, root + 1);
    } else {
      SumTo(keys, leaf0, leaf + 1);
    }
  }

  lemma NewestShares(keys: seq<nat>, s: State, t: State, m: nat, hi: nat)
    requires m + 1 < |keys| && Frequencies(keys) && Weighed(keys, s, m, hi)
    requires |t.r| == |t.f| == |t.w| == m + 1 && StepMakes(keys, s, t, m)
    ensures Prior(t.r, m) <= t.r[m] <= m && Prior(t.f, m) <= t.f[m] <= |keys|
    ensures t.w[m] == NodeShare(t, m) + LeafShare(keys, t, m)
  {
    hide Taken, TakesNode, Sum, Floor, Items, ItemSum, Ascending;
    var (root, leaf) := (s.r[m - 1], s.f[m - 1]);
    var x, y, rest := WeighStep(keys, s, t, m, hi);
    assert t.w[m] == x + y;
    var (root1, leaf1) := After(keys, s.w, root, leaf);
    TakeAddsUp(keys, s.w, root, leaf, root, leaf);
    TakeAddsUp(keys, s.w, root, leaf, root1, leaf1);
    assert s.w[root..root] == [] && keys[leaf..leaf] == [];
    EmptySum(s.w);
    assert t.w[root..t.r[m]] == s.w[root..t.r[m]];
  }

  lemma {:induction false} RunNodesWeighed(keys: seq<nat>, m: nat)
    requires Frequencies(keys) && 1 <= m < |keys|
    ensures NodesWeighed(keys, Run(keys, m))
  {
    hide Run, Weighed, Sum, NodesWeighed, StepMakes, Shaped;
    if m == 1 {
      FirstRun(keys);
      FirstShares(keys);
    } else {
      RunNodesWeighed(keys, m - 1);
      WeighedRun(keys, m - 1);
      NextState(keys, m - 1);
      NewestShares(keys, Run(keys, m - 1), Run(keys, m), m - 1, Heavier(keys, m - 2));
      StillWeighed(keys, Run(keys, m - 1), Run(keys, m), m - 1);
    }
  }

  lemma StillWeighed(keys: seq<nat>, s: State, t: State, m: nat)
    requires m > 0 && |s.r| == |s.f| == |s.w| == m && |t.r| == |t.f| == |t.w| == m + 1 && StepMakes(keys, s, t, m)
    requires NodesWeighed(keys, s) && Prior(t.r, m) <= t.r[m] <= m && Prior(t.f, m) <= t.f[m] <= |keys|
    requires t.w[m] == NodeShare(t, m) + LeafShare(keys, t, m)
    ensures NodesWeighed(keys, t)
  {
    hide Sum, Taken, TakesNode, NodeShare, LeafShare;
    forall k | 0 <= k < m
      ensures Prior(t.r, k) <= t.r[k] <= k && Prior(t.f, k) <= t.f[k] <= |keys|
      ensures t.w[k] == NodeShare(t, k) + LeafShare(keys, t, k)
    {
      OldShares(keys, s, t, m, k);
    }
  }

  lemma FirstShares(keys: seq<nat>)
    requires |keys| >= 2
    ensures NodesWeighed(keys, State([0], [2], [keys[0] + keys[1]]))
  {
    var s := State([0], [2], [keys[0] + keys[1]]);
    assert s.w[0..0] == [];
    SumTo(keys, 0, 2);
    SumTo(keys, 0, 1);
    assert keys[0..0] == [];
  }

  lemma OldShares(keys: seq<nat>, s: State, t: State, m: nat, k: nat)
    requires NodesWeighed(keys, s) && |s.w| == m && k < m && |t.r| == |t.f| == |t.w| == m + 1
    requires t.r == s.r + [t.r[m]] && t.f == s.f + [t.f[m]] && t.w == s.w + [t.w[m]]
    ensures Prior(t.r, k) <= t.r[k] <= k && Prior(t.f, k) <= t.f[k] <= |keys|
    ensures t.w[k] == NodeShare(t, k) + LeafShare(keys, t, k)
  {
    hide Sum;
    NodeWeight(keys, s, k);
    assert t.r[k] == s.r[k] && t.f[k] == s.f[k] && Prior(t.r, k) == Prior(s.r, k) && Prior(t.f, k) == Prior(s.f, k);
    assert t.w[Prior(t.r, k)..t.r[k]] == s.w[Prior(s.r, k)..s.r[k]];
  }

  /** The lengths cost exactly the weights of all merged nodes together. */
  lemma CostOfLengths(keys: seq<nat>)
    requires Frequencies(keys) && |keys| >= 2
    ensures Cost(keys, Lengths(keys)) == Sum(Weights(keys))
  {
    hide Run, Cost, Depth, LeafDepth, NodesWeighed, Sum, Shaped, Total, Owner;
    var (n, s) := (|keys|, Run(keys, |keys| - 1));
    FullEnds(n, s);
    RunNodesWeighed(keys, n - 1);
    CostBalance(keys, s, n - 1);
    RootCost(keys, s);
    LeafCostIsCost(keys, s, Lengths(keys), n);
    assert keys[..n] == keys && Lengths(keys)[..n] == Lengths(keys) && s.w[..n - 1] == s.w;
  }

  /** The root is at depth 0 and costs nothing itself. */
  lemma RootCost(keys: seq<nat>, s: State)
    requires Full(|keys|, s)
    ensures NodeCost(|keys|, s, |keys| - 1) == NodeCost(|keys|, s, |keys| - 2)
  {
    DeepestRoot(|keys|, s);
    Distribute(0, 0, 0);
  }

  /** No prefix code for these frequencies is shorter: the code has minimum redundancy. */
  lemma MinimumCost(keys: seq<nat>, ls: seq<nat>, m: nat)
    requires Frequencies(keys) && |keys| >= 2 && |ls| == |keys| && IsCode(ls, m)
    ensures Cost(keys, Lengths(keys)) <= Cost(keys, ls)
  {
    CostOfLengths(keys);
    LowerBound(keys, ls, m);
  }

  // ---- No code is long ----

  /** One merge, seen in the finished run: its lighter item is no lighter than the heavier one before. */
  lemma MergeAt(keys: seq<nat>, k: nat) returns (x: nat)
    requires Frequencies(keys) && 1 <= k && k + 1 < |keys|
    ensures var (w, r) := (Weights(keys), Run(keys, |keys| - 1).r);
            && w[k] == x + Heavier(keys, k) && Heavier(keys, k - 1) <= x <= Heavier(keys, k)
            && r[k] <= k && (forall c :: r[k - 1] <= c < r[k] ==> w[c] == x || w[c] == Heavier(keys, k))
  {
    hide Run, Weighed, Items, ItemSum, Sum, Floor, TakesNode, Taken;
    WeighedRun(keys, k);
    NextState(keys, k);
    var y, rest;
    x, y, rest := WeighStep(keys, Run(keys, k), Run(keys, k + 1), k, Heavier(keys, k - 1));
    TakenChildren(keys, Run(keys, k), Run(keys, k + 1), k);
    RunPrefix(keys, k + 1, |keys| - 1);
    RunPrefix(keys, k, |keys| - 1);
  }

  lemma TakenChildren(keys: seq<nat>, s: State, t: State, m: nat)
    requires m >= 1 && |s.r| == |s.f| == |s.w| == m && |t.r| == |t.f| == |t.w| == m + 1 && StepMakes(keys, s, t, m)
    ensures var (root, leaf) := (s.r[m - 1], s.f[m - 1]);
            && (leaf < |keys| || root < m)
            && var (root1, leaf1) := After(keys, s.w, root, leaf);
            && (leaf1 < |keys| || root1 < m)
            && (forall c :: root <= c < t.r[m] ==>
                  c < m && (s.w[c] == Taken(keys, s.w, root, leaf) || s.w[c] == Taken(keys, s.w, root1, leaf1)))
  {
  }

  lemma {:induction false} HeavierGrows(keys: seq<nat>, j: nat, k: nat)
    requires Frequencies(keys) && j <= k && k + 1 < |keys|
    ensures Heavier(keys, j) <= Heavier(keys, k)
  {
    hide Heavier, Run, Weights, Sum, Ascending, Shaped;
    if j < k {
      HeavierGrows(keys, j, k - 1);
      var x := MergeAt(keys, k);
    }
  }

  /** A node outweighs its child by at least the heavier item merged before. */
  lemma MergeChild(keys: seq<nat>, k: nat, c: nat)
    requires Frequencies(keys) && 1 <= k && k + 1 < |keys|
    requires var r := Run(keys, |keys| - 1).r; r[k - 1] <= c < r[k]
    ensures c < k && Weights(keys)[c] <= Heavier(keys, k)
    ensures Weights(keys)[k] >= Weights(keys)[c] + Heavier(keys, k - 1)
  {
    hide Heavier, Run, Sum, Ascending, Shaped;
    var x := MergeAt(keys, k);
    assert Weights(keys)[c] == x || Weights(keys)[c] == Heavier(keys, k);
  }

  /** A node weighs at least as much as its child and its grandchild together. */
  lemma GrandparentWeight(keys: seq<nat>, c: nat, j: nat, k: nat)
    requires Frequencies(keys) && 1 <= j < k && k + 1 < |keys|
    requires var r := Run(keys, |keys| - 1).r; r[j - 1] <= c < r[j] && r[k - 1] <= j < r[k]
    ensures c < j && Weights(keys)[k] >= Weights(keys)[j] + Weights(keys)[c]
  {
    hide Heavier, Run, Sum, Ascending, Shaped, Weights;
    MergeChild(keys, j, c);
    MergeChild(keys, k, j);
    HeavierGrows(keys, j, k - 1);
  }

  function Fib(i: nat): nat {
    if i == 0 then 2 else if i == 1 then 3 else Fib(i - 1) + Fib(i - 2)
  }

  ghost predicate Positive(keys: seq<nat>) {
    forall i :: 0 <= i < |keys| ==> keys[i] > 0
  }

  lemma HeavierPositive(keys: seq<nat>, k: nat)
    requires Frequencies(keys) && Positive(keys) && k + 1 < |keys|
    ensures Heavier(keys, k) >= 1
  {
    HeavierGrows(keys, 0, k);
  }

  /** Weights grow like the Fibonacci numbers on the way up from a node. */
  lemma {:induction false} ClimbToRoot(keys: seq<nat>, s: State, j: nat, i: nat)
    requires Frequencies(keys) && |keys| >= 2 && s == Run(keys, |keys| - 1) && j < |keys| - 1
    requires s.w[j] >= Fib(i)
    requires j < |keys| - 2 ==> s.w[Owner(s.r, j)] >= Fib(i + 1)
    ensures s.w[|keys| - 2] >= Fib(i + Depth(|keys|, s, j))
    decreases |keys| - j
  {
    hide Run, Fib, Shaped, Ascending, Sum, Owner, Depth;
    var n := |keys|;
    FullEnds(n, s);
    DeepestRoot(n, s);
    if j < n - 2 {
      var k := Owner(s.r, j);
      DepthStep(n, s, j);
      if k < n - 2 {
        DepthStep(n, s, k);
        GrandparentWeight(keys, j, k, Owner(s.r, k));
        FibStep(i);
      }
      ClimbToRoot(keys, s, k, i + 1);
    }
  }

  lemma FibStep(i: nat)
    ensures Fib(i + 2) == Fib(i) + Fib(i + 1)
  {
  }

  lemma {:induction false} FibGrows(i: nat, j: nat)
    requires i <= j
    ensures Fib(i) <= Fib(j)
  {
    if i < j {
      FibGrows(i, j - 1);
    }
  }

  lemma Fib22()
    ensures Fib(22) == 75025
  {
    assert Fib(8) == 89 && Fib(9) == 144;
    assert Fib(14) == 1597 && Fib(15) == 2584;
    assert Fib(20) == 28657 && Fib(21) == 46368;
  }

  /** The whole weight is at the root. */
  lemma RootWeight(keys: seq<nat>)
    requires Frequencies(keys) && |keys| >= 2
    ensures Weights(keys)[|keys| - 2] == Sum(keys)
  {
    hide Run, Items, Sum, Shaped;
    WeighedRun(keys, |keys| - 1);
    LastItems(keys, Run(keys, |keys| - 1));
  }

  /** With frequencies that sum to 16 bits no code is longer than 22 bits, so the 33 counters of
      `tdefl_optimize_huffman_table` are enough. */
  lemma LengthBound(keys: seq<nat>, i: nat)
    requires Frequencies(keys) && Positive(keys) && i < |keys|
    ensures 1 <= Lengths(keys)[i] <= 22
  {
    hide Run, LeafDepth, Depth, Owner, Sum, Shaped;
    if |keys| == 1 {
      assert Lengths(keys) == [1];
    } else {
      var (n, s) := (|keys|, Run(keys, |keys| - 1));
      LeafBelowNode(n, s, i);
      NodeDepthBound(keys, s, Owner(s.f, i));
      LengthsAt(keys, i);
    }
  }

  lemma LengthsAt(keys: seq<nat>, i: nat)
    requires |keys| >= 2 && i < |keys|
    ensures Lengths(keys)[i] == LeafDepth(|keys|, Run(keys, |keys| - 1), i)
  {
  }

  lemma LeafBelowNode(n: nat, s: State, i: nat)
    requires Full(n, s) && i < n
    ensures |s.f| == n - 1 && i < s.f[n - 2] && LeafDepth(n, s, i) == Depth(n, s, Owner(s.f, i)) + 1
  {
    FullEnds(n, s);
  }

  lemma NodeDepthBound(keys: seq<nat>, s: State, j: nat)
    requires Frequencies(keys) && Positive(keys) && |keys| >= 2 && s == Run(keys, |keys| - 1) && j < |keys| - 1
    ensures Depth(|keys|, s, j) <= 21
  {
    hide Run, Depth, Owner, Sum, Fib, Heavier;
    var d := Depth(|keys|, s, j);
    StartWeight(keys, s, j);
    ClimbToRoot(keys, s, j, 0);
    RootWeight(keys);
    Fib22();
    if d >= 22 {
      FibGrows(22, d);
    }
  }

  lemma StartWeight(keys: seq<nat>, s: State, j: nat)
    requires Frequencies(keys) && Positive(keys) && |keys| >= 2 && s == Run(keys, |keys| - 1) && j < |keys| - 1
    ensures s.w[j] >= Fib(0)
    ensures j < |keys| - 2 ==> j < s.r[|keys| - 2] && s.w[Owner(s.r, j)] >= Fib(1)
  {
    hide Run, Owner, Sum, Heavier, Ascending, Shaped;
    var n := |keys|;
    FullEnds(n, s);
    NodeAtLeastTwo(keys, j);
    if j < n - 2 {
      DepthStep(n, s, j);
      var k := Owner(s.r, j);
      MergeChild(keys, k, j);
      HeavierPositive(keys, k - 1);
    }
  }

  lemma NodeAtLeastTwo(keys: seq<nat>, j: nat)
    requires Frequencies(keys) && Positive(keys) && j + 1 < |keys|
    ensures Weights(keys)[j] >= 2
  {
    hide Run, Sum, Heavier;
    if j == 0 {
      FirstRun(keys);
      RunPrefix(keys, 1, |keys| - 1);
    } else {
      var x := MergeAt(keys, j);
      HeavierPositive(keys, j - 1);
    }
  }

  // ---- The lengths are those of a complete code ----

  lemma {:induction false} LeafKraftIsKraft(keys: seq<nat>, s: State, ls: seq<nat>, m: nat, k: nat)
    requires Full(|keys|, s) && k <= |keys| == |ls| && forall i :: 0 <= i < |keys| ==> ls[i] == LeafDepth(|keys|, s, i)
    ensures LeafKraft(|keys|, s, m, k) == Kraft(ls[..k], m)
  {
    hide LeafDepth, Shaped;
    if k > 0 {
      LeafKraftIsKraft(keys, s, ls, m, k - 1);
      assert ls[..k][..k - 1] == ls[..k - 1];
    }
  }

  /** The Kraft sum of the computed lengths is exactly one, whatever the frequencies. */
  lemma LengthsComplete(keys: seq<nat>, m: nat)
    requires 2 <= |keys| <= m
    ensures UpTo(Lengths(keys), m) && Kraft(Lengths(keys), m) == Pow2(m)
  {
    hide LeafDepth, Shaped, Kraft, Pow2, LeafKraft, Run;
    var (n, s) := (|keys|, Run(keys, |keys| - 1));
    LeavesComplete(n, s, m);
    LeafKraftIsKraft(keys, s, Lengths(keys), m, n);
    assert Lengths(keys)[..n] == Lengths(keys);
    forall i | 0 <= i < n ensures Lengths(keys)[i] <= m {
      LeafDepthBound(n, s, i);
    }
  }

  /** A more frequent symbol never gets the longer code. */
  lemma LengthsFall(keys: seq<nat>, i: nat, j: nat)
    requires i <= j < |keys|
    ensures Lengths(keys)[i] >= Lengths(keys)[j] >= 1
  {
    hide LeafDepth, Shaped, Run;
    if |keys| >= 2 {
      var (n, s) := (|keys|, Run(keys, |keys| - 1));
      LeafDepthFalls(n, s, i, j);
      LeafDepthBound(n, s, j);
    }
  }
}
