/** `tdefl_calculate_minimum_redundancy`: code lengths from ascending frequencies, in place.

    `Run` says which merges the first pass makes, as values.  Node `k` is made by step `k`; after it,
    the nodes below `r[k]` and the symbols below `f[k]` have a parent. */
module MinimumRedundancy {
  import opened Bits

  const WORD: nat := 65536

  datatype State = State(r: seq<nat>, f: seq<nat>, w: seq<nat>)

  /** The value before step `k`, of a sequence that holds the values after each step. */
  function Prior(x: seq<nat>, k: nat): nat
    requires k <= |x|
  {
    if k == 0 then 0 else x[k - 1]
  }

  /** After `m` steps: each step has used up two items, nodes before their parents. */
  ghost predicate Shaped(n: nat, s: State, m: nat) {
    && 1 <= m < n && |s.r| == |s.f| == |s.w| == m
    && (forall k :: 0 <= k < m ==> s.r[k] + s.f[k] == 2 * (k + 1) && s.r[k] <= k && s.f[k] <= n)
    && (forall j, k :: 0 <= j < k < m ==> s.r[j] <= s.r[k] && s.f[j] <= s.f[k])
  }

  /** The next item is the first node without a parent, rather than the first symbol. */
  predicate TakesNode(keys: seq<nat>, w: seq<nat>, root: nat, leaf: nat)
    requires leaf < |keys| || root < |w|
  {
    leaf >= |keys| || (root < |w| && w[root] < keys[leaf])
  }

  function Taken(keys: seq<nat>, w: seq<nat>, root: nat, leaf: nat): nat
    requires leaf < |keys| || root < |w|
  {
    if TakesNode(keys, w, root, leaf) then w[root] else keys[leaf]
  }

  function Step(keys: seq<nat>, s: State): (t: State)
    requires Shaped(|keys|, s, |s.w|) && |s.w| + 1 < |keys|
    ensures Shaped(|keys|, t, |s.w| + 1)
  {
    var (root, leaf) := (s.r[|s.w| - 1], s.f[|s.w| - 1]);
    var x := Taken(keys, s.w, root, leaf);
    var (root1, leaf1) := if TakesNode(keys, s.w, root, leaf) then (root + 1, leaf) else (root, leaf + 1);
    var y := Taken(keys, s.w, root1, leaf1);
    var (root2, leaf2) := if TakesNode(keys, s.w, root1, leaf1) then (root1 + 1, leaf1) else (root1, leaf1 + 1);
    var t := State(s.r + [root2], s.f + [leaf2], s.w + [(x + y) % WORD]);
    StepShaped(|keys|, s, root2, leaf2, t);
    t
  }

  lemma StepShaped(n: nat, s: State, root: nat, leaf: nat, t: State)
    requires Shaped(n, s, |s.w|) && |s.w| + 1 < n
    requires s.r[|s.w| - 1] <= root <= |s.w| && s.f[|s.w| - 1] <= leaf <= n && root + leaf == 2 * (|s.w| + 1)
    requires t.r == s.r + [root] && t.f == s.f + [leaf] && |t.w| == |s.w| + 1
    ensures Shaped(n, t, |s.w| + 1)
  {
    var m := |s.w|;
    forall k | 0 <= k < m + 1 ensures t.r[k] + t.f[k] == 2 * (k + 1) && t.r[k] <= k && t.f[k] <= n {
      if k < m {
        assert t.r[k] == s.r[k] && t.f[k] == s.f[k];
      }
    }
    forall j, k | 0 <= j < k < m + 1 ensures t.r[j] <= t.r[k] && t.f[j] <= t.f[k] {
      assert t.r[j] == s.r[j] && t.f[j] == s.f[j];
      assert s.r[j] <= s.r[m - 1] && s.f[j] <= s.f[m - 1];
      if k < m {
        assert t.r[k] == s.r[k] && t.f[k] == s.f[k];
      }
    }
  }

  /** The merges after `m` steps. */
  function Run(keys: seq<nat>, m: nat): (s: State)
    requires 1 <= m < |keys|
    ensures Shaped(|keys|, s, m)
  {
    if m == 1 then State([0], [2], [(keys[0] + keys[1]) % WORD])
    else Step(keys, Run(keys, m - 1))
  }

  // ---- The tree that the merges make ----

  ghost predicate Ascending(x: seq<nat>) {
    forall j, k :: 0 <= j < k < |x| ==> x[j] <= x[k]
  }

  /** The step that gave item `i` its parent. */
  function Owner(x: seq<nat>, i: nat): (k: nat)
    requires |x| > 0 && i < x[|x| - 1]
    ensures k < |x| && Prior(x, k) <= i < x[k]
  {
    if |x| == 1 || x[|x| - 2] <= i then |x| - 1 else Owner(x[..|x| - 1], i)
  }

  lemma AscendingAt(x: seq<nat>, j: nat, k: nat)
    requires Ascending(x) && j <= k < |x|
    ensures x[j] <= x[k]
  {
  }

  lemma PriorAbove(x: seq<nat>, j: nat, k: nat)
    requires Ascending(x) && j < k <= |x|
    ensures x[j] <= Prior(x, k)
  {
  }

  lemma OwnerUnique(x: seq<nat>, i: nat, k: nat)
    requires Ascending(x) && k < |x| && Prior(x, k) <= i < x[k]
    ensures i < x[|x| - 1] && Owner(x, i) == k
  {
    AscendingAt(x, k, |x| - 1);
    var o := Owner(x, i);
    if o < k {
      PriorAbove(x, o, k);
    } else if k < o {
      PriorAbove(x, k, o);
    }
  }

  /** All merges are made: one node is left. */
  ghost predicate Full(n: nat, s: State) {
    n >= 2 && Shaped(n, s, n - 1)
  }

  lemma FullEnds(n: nat, s: State)
    requires Full(n, s)
    ensures |s.r| == |s.f| == |s.w| == n - 1
    ensures s.r[n - 2] == n - 2 && s.f[n - 2] == n && Ascending(s.r) && Ascending(s.f)
  {
  }

  function Depth(n: nat, s: State, j: nat): nat
    requires Full(n, s) && j < n - 1
    decreases n - j
  {
    FullEnds(n, s);
    if j == n - 2 then 0 else Depth(n, s, Owner(s.r, j)) + 1
  }

  function LeafDepth(n: nat, s: State, i: nat): nat
    requires Full(n, s) && i < n
  {
    FullEnds(n, s);
    Depth(n, s, Owner(s.f, i)) + 1
  }

  lemma OwnerMonotone(x: seq<nat>, i: nat, j: nat)
    requires Ascending(x) && |x| > 0 && i <= j < x[|x| - 1]
    ensures Owner(x, i) <= Owner(x, j)
  {
    var (a, b) := (Owner(x, i), Owner(x, j));
    if b < a {
      PriorAbove(x, b, a);
    }
  }

  /** Later nodes are no deeper. */
  lemma {:induction false} DepthFalls(n: nat, s: State, i: nat, j: nat)
    requires Full(n, s) && i <= j < n - 1
    ensures Depth(n, s, i) >= Depth(n, s, j)
    decreases n - i
  {
    FullEnds(n, s);
    if j < n - 2 {
      OwnerMonotone(s.r, i, j);
      DepthFalls(n, s, Owner(s.r, i), Owner(s.r, j));
    }
  }

  lemma {:induction false} DepthBound(n: nat, s: State, j: nat)
    requires Full(n, s) && j < n - 1
    ensures Depth(n, s, j) <= n - 2 - j
    decreases n - j
  {
    FullEnds(n, s);
    if j < n - 2 {
      DepthBound(n, s, Owner(s.r, j));
    }
  }

  /** Symbols of higher frequency get codes that are no longer. */
  lemma {:induction false} LeafDepthFalls(n: nat, s: State, i: nat, j: nat)
    requires Full(n, s) && i <= j < n
    ensures LeafDepth(n, s, i) >= LeafDepth(n, s, j)
  {
    FullEnds(n, s);
    OwnerMonotone(s.f, i, j);
    DepthFalls(n, s, Owner(s.f, i), Owner(s.f, j));
  }

  // ---- The Kraft sum ----

  function Total(count: nat, each: nat): nat { count * each }

  /** What a code of length `d` takes, in units of `2^-m`. */
  function Worth(m: nat, d: nat): nat {
    if d <= m then Pow2(m - d) else 0
  }

  function NodeKraft(n: nat, s: State, m: nat, k: nat): nat
    requires Full(n, s) && k <= n - 1
  {
    if k == 0 then 0 else NodeKraft(n, s, m, k - 1) + Worth(m, Depth(n, s, k - 1))
  }

  function LeafKraft(n: nat, s: State, m: nat, k: nat): nat
    requires Full(n, s) && k <= n
  {
    if k == 0 then 0 else LeafKraft(n, s, m, k - 1) + Worth(m, LeafDepth(n, s, k - 1))
  }

  /** The nodes from `a` to `b` that are children of node `k`. */
  lemma {:induction false} NodeChildren(n: nat, s: State, m: nat, k: nat, a: nat, b: nat)
    requires Full(n, s) && n <= m && k < n - 1 && Prior(s.r, k) <= a <= b <= s.r[k]
    ensures b <= n - 2
    ensures NodeKraft(n, s, m, b) == NodeKraft(n, s, m, a) + Total(b - a, Worth(m, Depth(n, s, k) + 1))
    decreases b - a
  {
    hide Shaped, Worth, Depth, Owner, Total;
    StepUses(n, s, k);
    OneMore(0, Worth(m, Depth(n, s, k) + 1));
    if a < b {
      NodeChildren(n, s, m, k, a, b - 1);
      ChildDepth(n, s, k, b - 1);
      OneMore(b - 1 - a, Worth(m, Depth(n, s, k) + 1));
    }
  }

  lemma ChildDepth(n: nat, s: State, k: nat, j: nat)
    requires Full(n, s) && k < n - 1 && Prior(s.r, k) <= j < s.r[k]
    ensures j < n - 2 && Depth(n, s, j) == Depth(n, s, k) + 1
  {
    StepUses(n, s, k);
    FullEnds(n, s);
    OwnerUnique(s.r, j, k);
  }

  lemma {:induction false} LeafChildren(n: nat, s: State, m: nat, k: nat, a: nat, b: nat)
    requires Full(n, s) && n <= m && k < n - 1 && Prior(s.f, k) <= a <= b <= s.f[k]
    ensures b <= n
    ensures LeafKraft(n, s, m, b) == LeafKraft(n, s, m, a) + Total(b - a, Worth(m, Depth(n, s, k) + 1))
    decreases b - a
  {
    hide Shaped, Worth, Depth, Owner, Total;
    StepUses(n, s, k);
    OneMore(0, Worth(m, Depth(n, s, k) + 1));
    if a < b {
      LeafChildren(n, s, m, k, a, b - 1);
      ChildLeafDepth(n, s, k, b - 1);
      OneMore(b - 1 - a, Worth(m, Depth(n, s, k) + 1));
    }
  }

  lemma ChildLeafDepth(n: nat, s: State, k: nat, i: nat)
    requires Full(n, s) && k < n - 1 && Prior(s.f, k) <= i < s.f[k]
    ensures i < n && LeafDepth(n, s, i) == Depth(n, s, k) + 1
  {
    StepUses(n, s, k);
    FullEnds(n, s);
    OwnerUnique(s.f, i, k);
  }

  /** A node is worth its two children. */
  lemma {:induction false} KraftBalance(n: nat, s: State, m: nat, k: nat)
    requires Full(n, s) && n <= m && k <= n - 1
    ensures k <= |s.r| && k <= |s.f| && Prior(s.r, k) <= n - 2 && Prior(s.f, k) <= n
    ensures NodeKraft(n, s, m, k) == NodeKraft(n, s, m, Prior(s.r, k)) + LeafKraft(n, s, m, Prior(s.f, k))
  {
    hide Shaped, Depth, Owner, LeafDepth, Worth;
    FullEnds(n, s);
    if k > 0 {
      StepUses(n, s, k - 1);
      KraftBalance(n, s, m, k - 1);
      KraftStep(n, s, m, k - 1);
    }
  }

  lemma {:induction false} KraftStep(n: nat, s: State, m: nat, k: nat)
    requires Full(n, s) && n <= m && k < n - 1
    ensures |s.r| == |s.f| == n - 1 && Prior(s.r, k) <= s.r[k] <= n - 2 && Prior(s.f, k) <= s.f[k] <= n
    ensures NodeKraft(n, s, m, s.r[k]) + LeafKraft(n, s, m, s.f[k])
         == NodeKraft(n, s, m, Prior(s.r, k)) + LeafKraft(n, s, m, Prior(s.f, k)) + Worth(m, Depth(n, s, k))
  {
    hide Shaped, Depth, Owner, LeafDepth, Total, NodeKraft, LeafKraft;
    StepUses(n, s, k);
    DepthBound(n, s, k);
    NodeChildren(n, s, m, k, Prior(s.r, k), s.r[k]);
    LeafChildren(n, s, m, k, Prior(s.f, k), s.f[k]);
    TwoParts(s.r[k] - Prior(s.r, k), s.f[k] - Prior(s.f, k), Worth(m, Depth(n, s, k) + 1));
  }

  lemma OneMore(x: nat, p: nat)
    ensures Total(0, p) == 0 && Total(x, p) + p == Total(x + 1, p)
  {
  }

  lemma StepUses(n: nat, s: State, k: nat)
    requires Full(n, s) && k < n - 1
    ensures |s.r| == |s.f| == n - 1 && Prior(s.r, k) <= s.r[k] <= n - 2 && Prior(s.f, k) <= s.f[k] <= n
    ensures (s.r[k] - Prior(s.r, k)) + (s.f[k] - Prior(s.f, k)) == 2
  {
    FullEnds(n, s);
    AscendingAt(s.r, k, n - 2);
    if k > 0 {
      AscendingAt(s.r, k - 1, k);
      AscendingAt(s.f, k - 1, k);
    }
  }

  lemma TwoParts(x: nat, y: nat, p: nat)
    requires x + y == 2
    ensures Total(x, p) + Total(y, p) == 2 * p
  {
  }

  /** The code lengths form a complete prefix code. */
  lemma {:induction false} LeavesComplete(n: nat, s: State, m: nat)
    requires Full(n, s) && n <= m
    ensures LeafKraft(n, s, m, n) == Pow2(m)
  {
    hide LeafKraft, Shaped, Owner, LeafDepth;
    FullEnds(n, s);
    KraftBalance(n, s, m, n - 1);
    assert NodeKraft(n, s, m, n - 1) == NodeKraft(n, s, m, n - 2) + Worth(m, Depth(n, s, n - 2));
  }

  // ---- The three passes over the one array ----

  lemma OwnerAppend(x: seq<nat>, v: nat, i: nat)
    requires |x| > 0 && Ascending(x + [v]) && i < v
    ensures Owner(x + [v], i) == if i < x[|x| - 1] then Owner(x, i) else |x|
  {
    assert (x + [v])[..|x|] == x;
  }

  /** What the array holds after `m` merges: parents of the nodes that have one, then weights. */
  ghost predicate Merged(keys: seq<nat>, a: seq<nat>, m: nat)
    requires 1 <= m < |keys|
  {
    var s := Run(keys, m);
    var (root, leaf) := (s.r[m - 1], s.f[m - 1]);
    && |a| == |keys|
    && (forall j :: 0 <= j < root ==> a[j] == Owner(s.r, j))
    && (forall j :: root <= j < m ==> a[j] == s.w[j])
    && (forall i :: leaf <= i < |keys| ==> a[i] == keys[i])
  }

  lemma LastStep(keys: seq<nat>, m: nat)
    requires 1 <= m < |keys|
    ensures var s := Run(keys, m);
            s.r[m - 1] < m < s.f[m - 1] <= |keys| && s.r[m - 1] + s.f[m - 1] == 2 * m && Ascending(s.r)
  {
  }

  lemma MergedStep(keys: seq<nat>, a: seq<nat>, a': seq<nat>, m: nat)
    requires 1 <= m && m + 1 < |keys| && Merged(keys, a, m) && |a'| == |a|
    requires var (s, t) := (Run(keys, m), Run(keys, m + 1));
             && (forall j :: 0 <= j < |a| && j != m && !(s.r[m - 1] <= j < t.r[m]) ==> a'[j] == a[j])
             && (forall j :: s.r[m - 1] <= j < t.r[m] ==> a'[j] == m)
             && a'[m] == t.w[m]
    ensures Merged(keys, a', m + 1)
  {
    hide Run, Owner, Shaped, TakesNode, Taken;
    var (s, t) := (Run(keys, m), Run(keys, m + 1));
    LastStep(keys, m);
    LastStep(keys, m + 1);
    NextState(keys, m);
    forall j | 0 <= j < t.r[m] ensures a'[j] == Owner(t.r, j) {
      OwnerAppend(s.r, t.r[m], j);
    }
  }

  /** The first half of a step: the node takes the weight of the lighter item. */
  method TakeFirst(a: array<nat>, next: nat, root0: nat, leaf0: nat, ghost keys: seq<nat>, ghost w: seq<nat>)
    returns (root: nat, leaf: nat)
    requires |keys| == a.Length <= WORD && |w| == next && root0 < next < leaf0 <= |keys|
    requires forall j :: root0 <= j < next ==> a[j] == w[j]
    requires forall i :: leaf0 <= i < |keys| ==> a[i] == keys[i]
    modifies a
    ensures (root, leaf) == if TakesNode(keys, w, root0, leaf0) then (root0 + 1, leaf0) else (root0, leaf0 + 1)
    ensures a[next] == Taken(keys, w, root0, leaf0)
    ensures forall j :: 0 <= j < a.Length && j != next ==> a[j] == if root0 <= j < root then next else old(a[j])
  {
    root, leaf := root0, leaf0;
    if leaf >= a.Length || a[root] < a[leaf] {
      a[next] := a[root];
      a[root] := next % WORD;
      root := root + 1;
    } else {
      a[next] := a[leaf];
      leaf := leaf + 1;
    }
  }

  /** The second half: the node takes in the next lighter item. */
  method TakeSecond(a: array<nat>, next: nat, root0: nat, leaf0: nat, ghost keys: seq<nat>, ghost w: seq<nat>)
    returns (root: nat, leaf: nat)
    requires |keys| == a.Length <= WORD && |w| == next && root0 <= next < leaf0 <= |keys|
             && (leaf0 < |keys| || root0 < next)
    requires next < leaf0 && next < a.Length
    requires forall j :: root0 <= j < next ==> a[j] == w[j]
    requires forall i :: leaf0 <= i < |keys| ==> a[i] == keys[i]
    modifies a
    ensures (root, leaf) == if TakesNode(keys, w, root0, leaf0) then (root0 + 1, leaf0) else (root0, leaf0 + 1)
    ensures a[next] == (old(a[next]) + Taken(keys, w, root0, leaf0)) % WORD
    ensures forall j :: 0 <= j < a.Length && j != next ==> a[j] == if root0 <= j < root then next else old(a[j])
  {
    root, leaf := root0, leaf0;
    if leaf >= a.Length || (root < next && a[root] < a[leaf]) {
      a[next] := (a[next] + a[root]) % WORD;
      a[root] := next % WORD;
      root := root + 1;
    } else {
      a[next] := (a[next] + a[leaf]) % WORD;
      leaf := leaf + 1;
    }
  }

  /** One merge. */
  method MergeOne(a: array<nat>, next: nat, root0: nat, leaf0: nat, ghost keys: seq<nat>)
    returns (root: nat, leaf: nat)
    requires a.Length <= WORD && 1 <= next && next + 1 < |keys| && Merged(keys, a[..], next)
    requires root0 == Run(keys, next).r[next - 1] && leaf0 == Run(keys, next).f[next - 1]
    modifies a
    ensures Merged(keys, a[..], next + 1)
    ensures root == Run(keys, next + 1).r[next] && leaf == Run(keys, next + 1).f[next]
  {
    hide Owner, Merged, Run, Taken, Ascending;
    ghost var s, before := Run(keys, next), a[..];
    MergedParts(keys, before, next);
    LastStep(keys, next);
    root, leaf := TakeFirst(a, next, root0, leaf0, keys, s.w);
    root, leaf := TakeSecond(a, next, root, leaf, keys, s.w);
    NextState(keys, next);
    MergedStep(keys, before, a[..], next);
  }

  lemma MergedParts(keys: seq<nat>, a: seq<nat>, m: nat)
    requires 1 <= m < |keys| && Merged(keys, a, m)
    ensures var s := Run(keys, m);
            && |a| == |keys| && |s.r| == |s.f| == |s.w| == m
            && (forall j :: s.r[m - 1] <= j < m ==> a[j] == s.w[j])
            && (forall i :: s.f[m - 1] <= i < |keys| ==> a[i] == keys[i])
  {
  }

  lemma NextState(keys: seq<nat>, m: nat)
    requires 1 <= m && m + 1 < |keys|
    ensures var (s, t) := (Run(keys, m), Run(keys, m + 1));
            && |s.r| == |s.f| == |s.w| == m && |t.r| == |t.f| == |t.w| == m + 1 && StepMakes(keys, s, t, m)
  {
    LastStep(keys, m);
    var s := Run(keys, m);
    assert Run(keys, m + 1) == Step(keys, s);
    hide Run;
    StepSpelled(keys, s);
  }

  /** What a step does, spelled out. */
  ghost predicate StepMakes(keys: seq<nat>, s: State, t: State, m: nat)
    requires 1 <= m && |s.r| == |s.f| == |s.w| == m && |t.r| == |t.f| == |t.w| == m + 1
  {
    var (root, leaf) := (s.r[m - 1], s.f[m - 1]);
    && root < m && leaf <= |keys|
    && var (root1, leaf1) := if TakesNode(keys, s.w, root, leaf) then (root + 1, leaf) else (root, leaf + 1);
    && (leaf1 < |keys| || root1 < m)
    && (t.r[m], t.f[m]) == (if TakesNode(keys, s.w, root1, leaf1) then (root1 + 1, leaf1) else (root1, leaf1 + 1))
    && t.w[m] == (Taken(keys, s.w, root, leaf) + Taken(keys, s.w, root1, leaf1)) % WORD
    && t.r == s.r + [t.r[m]] && t.f == s.f + [t.f[m]] && t.w == s.w + [t.w[m]]
  }

  lemma StepSpelled(keys: seq<nat>, s: State)
    requires Shaped(|keys|, s, |s.w|) && |s.w| + 1 < |keys|
    ensures var t := Step(keys, s); |t.r| == |t.f| == |t.w| == |s.w| + 1 && StepMakes(keys, s, t, |s.w|)
  {
    var m := |s.w|;
    var (root, leaf) := (s.r[m - 1], s.f[m - 1]);
    assert root + leaf == 2 * m && root < m;
  }

  /** The first pass, left to right: setting parent pointers. */
  method Merge(a: array<nat>)
    requires 2 <= a.Length <= WORD && forall i :: 0 <= i < a.Length ==> a[i] < WORD
    modifies a
    ensures Merged(old(a[..]), a[..], a.Length - 1)
  {
    hide Merged, Run;
    var n := a.Length;
    ghost var keys := a[..];
    a[0] := (a[0] + a[1]) % WORD;
    FirstMerged(keys, a[..]);
    var root, leaf, next := 0, 2, 1;
    while next < n - 1
      invariant 1 <= next <= n - 1 && Merged(keys, a[..], next)
      invariant root == Run(keys, next).r[next - 1] && leaf == Run(keys, next).f[next - 1]
    {
      root, leaf := MergeOne(a, next, root, leaf, keys);
      next := next + 1;
    }
  }

  lemma FirstMerged(keys: seq<nat>, a: seq<nat>)
    requires 2 <= |keys| && a == keys[0 := (keys[0] + keys[1]) % WORD]
    ensures Merged(keys, a, 1) && Run(keys, 1).r[0] == 0 && Run(keys, 1).f[0] == 2
  {
  }

  lemma DepthStep(n: nat, s: State, j: nat)
    requires Full(n, s) && j < n - 2
    ensures |s.r| == n - 1 && j < s.r[n - 2] && j < Owner(s.r, j) < n - 1
    ensures Depth(n, s, j) == Depth(n, s, Owner(s.r, j)) + 1 < n
  {
    FullEnds(n, s);
    DepthBound(n, s, j);
  }

  /** The second pass, right to left: setting internal depths. */
  method Deepen(a: array<nat>, ghost s: State)
    requires 2 <= a.Length <= WORD && Full(a.Length, s)
    requires forall j :: 0 <= j < a.Length - 2 ==> j < s.r[a.Length - 2] && a[j] == Owner(s.r, j)
    modifies a
    ensures forall j :: 0 <= j < a.Length - 1 ==> a[j] == Depth(a.Length, s, j)
  {
    hide Owner, Depth, Shaped, Ascending;
    var n := a.Length;
    FullEnds(n, s);
    DeepestRoot(n, s);
    a[n - 2] := 0;
    var next := n - 3;
    while next >= 0
      invariant -1 <= next <= n - 3
      invariant forall j :: next < j < n - 1 ==> a[j] == Depth(n, s, j)
      invariant forall j :: 0 <= j <= next ==> a[j] == Owner(s.r, j)
    {
      DeepenOne(a, next, s);
      next := next - 1;
    }
  }

  /** One internal node is one deeper than its parent. */
  method DeepenOne(a: array<nat>, next: nat, ghost s: State)
    requires 2 <= a.Length <= WORD && Full(a.Length, s) && next + 2 < a.Length
    requires forall j :: next < j < a.Length - 1 ==> a[j] == Depth(a.Length, s, j)
    requires next < s.r[a.Length - 2] && a[next] == Owner(s.r, next)
    modifies a
    ensures a[next] == Depth(a.Length, s, next)
    ensures forall j :: 0 <= j < a.Length && j != next ==> a[j] == old(a[j])
  {
    hide Owner, Depth, Shaped, Ascending;
    DepthStep(a.Length, s, next);
    a[next] := (a[a[next]] + 1) % WORD;
  }

  lemma DeepestRoot(n: nat, s: State)
    requires Full(n, s)
    ensures Depth(n, s, n - 2) == 0
  {
  }

  // ---- The third pass ----

  /** At the start of level `d`: nodes up to `root` and symbols up to `next` are at this level or below it. */
  ghost predicate AtLevel(n: nat, s: State, d: nat, root: int, next: int)
    requires Full(n, s) && -1 <= root < n - 1 && -1 <= next < n
  {
    && (forall j :: 0 <= j <= root ==> Depth(n, s, j) >= d)
    && (forall j :: root < j < n - 1 ==> Depth(n, s, j) < d)
    && (forall i :: 0 <= i <= next ==> LeafDepth(n, s, i) >= d)
    && (forall i :: next < i < n ==> LeafDepth(n, s, i) < d)
  }

  /** How many items of a kind the nodes up to `g` have as children. */
  function Reach(x: seq<nat>, g: int): nat
    requires -1 <= g < |x|
  {
    if g < 0 then 0 else x[g]
  }

  /** The nodes at level `d` or above are those whose parents are above level `d`. */
  lemma NodesReached(n: nat, s: State, d: nat, g: int, next: int, j: nat)
    requires Full(n, s) && -1 <= g < n - 1 && -1 <= next < n && AtLevel(n, s, d, g, next) && j < n - 1
    ensures if j < Reach(s.r, g) then Depth(n, s, j) > d else Depth(n, s, j) <= d
  {
    hide Owner;
    FullEnds(n, s);
    if j < n - 2 {
      var o := Owner(s.r, j);
      if j < Reach(s.r, g) {
        if g < o {
          PriorAbove(s.r, g, o);
        }
      } else if o <= g {
        AscendingAt(s.r, o, g);
      }
    } else {
      AscendingAt(s.r, if g < 0 then 0 else g, n - 2);
    }
  }

  lemma LeavesReached(n: nat, s: State, d: nat, g: int, next: int, i: nat)
    requires Full(n, s) && -1 <= g < n - 1 && -1 <= next < n && AtLevel(n, s, d, g, next) && i < n
    ensures if i < Reach(s.f, g) then LeafDepth(n, s, i) > d else LeafDepth(n, s, i) <= d
  {
    hide Owner, Depth;
    FullEnds(n, s);
    var o := Owner(s.f, i);
    if i < Reach(s.f, g) {
      if g < o {
        PriorAbove(s.f, g, o);
      }
    } else if o <= g {
      AscendingAt(s.f, o, g);
    }
  }

  /** One level of the third pass moves both marks to the children of what was left. */
  lemma NextLevel(n: nat, s: State, d: nat, g: int, next: int)
    requires Full(n, s) && -1 <= g < n - 1 && -1 <= next < n && AtLevel(n, s, d, g, next)
    ensures Reach(s.r, g) + Reach(s.f, g) == 2 * (g + 1) && Reach(s.r, g) < n && Reach(s.f, g) <= n
    ensures g >= 0 ==> Reach(s.r, g) <= g
    ensures Reach(s.f, g) <= next + 1
    ensures AtLevel(n, s, d + 1, Reach(s.r, g) - 1, Reach(s.f, g) - 1)
  {
    hide Owner, Depth, LeafDepth;
    if next + 1 < n {
      LeavesReached(n, s, d, g, next, next + 1);
    }
    assert Reach(s.r, g) + Reach(s.f, g) == 2 * (g + 1) && Reach(s.r, g) <= n - 1 && Reach(s.f, g) <= n;
    forall j: nat | j < n - 1
      ensures if j < Reach(s.r, g) then Depth(n, s, j) >= d + 1 else Depth(n, s, j) < d + 1
    {
      NodesReached(n, s, d, g, next, j);
    }
    forall i: nat | i < n
      ensures if i < Reach(s.f, g) then LeafDepth(n, s, i) >= d + 1 else LeafDepth(n, s, i) < d + 1
    {
      LeavesReached(n, s, d, g, next, i);
    }
  }

  /** The third pass, right to left: setting leaf depths. */
  method Assign(a: array<nat>, ghost s: State)
    requires 2 <= a.Length <= WORD && Full(a.Length, s)
    requires forall j :: 0 <= j < a.Length - 1 ==> a[j] == Depth(a.Length, s, j)
    modifies a
    ensures forall i :: 0 <= i < a.Length ==> a[i] == LeafDepth(a.Length, s, i)
  {
    hide Owner, Depth, LeafDepth, Shaped;
    var n := a.Length;
    FirstLevel(n, s);
    FullEnds(n, s);
    var avbl, used, dpth := 1, 0, 0;
    var root, next := n - 2, n - 1;
    while avbl > 0
      invariant -1 <= root < n - 1 && root <= next < n && avbl == next - root && used == 0
      invariant AtLevel(n, s, dpth, root, next) && (root >= 0 ==> avbl > 0)
      invariant forall j :: 0 <= j <= root ==> a[j] == Depth(n, s, j)
      invariant forall i :: next < i < n ==> a[i] == LeafDepth(n, s, i)
      decreases root + next + 2
    {
      ghost var g, next0 := root, next;
      NextLevel(n, s, dpth, g, next);
      while root >= 0 && a[root] == dpth
        invariant Reach(s.r, g) - 1 <= root <= g && used == g - root
        invariant forall j :: 0 <= j <= root ==> a[j] == Depth(n, s, j)
        invariant forall i :: next < i < n ==> a[i] == LeafDepth(n, s, i)
      {
        used := used + 1;
        NodesReached(n, s, dpth, g, next, root);
        root := root - 1;
      }
      if root >= 0 {
        NodesReached(n, s, dpth, g, next, root);
      }
      while avbl > used
        invariant used <= avbl && next - root == avbl + used && next <= next0
        invariant forall j :: 0 <= j <= root ==> a[j] == Depth(n, s, j)
        invariant forall i :: next < i < n ==> a[i] == LeafDepth(n, s, i)
      {
        LeavesReached(n, s, dpth, g, next0, next);
        LeafDepthBound(n, s, next);
        a[next] := dpth % WORD;
        next := next - 1;
        avbl := avbl - 1;
      }
      avbl := 2 * used;
      dpth := dpth + 1;
      used := 0;
    }
  }

  lemma LeafDepthBound(n: nat, s: State, i: nat)
    requires Full(n, s) && i < n
    ensures 1 <= LeafDepth(n, s, i) < n
  {
    FullEnds(n, s);
    DepthBound(n, s, Owner(s.f, i));
  }

  lemma FirstLevel(n: nat, s: State)
    requires Full(n, s)
    ensures AtLevel(n, s, 0, n - 2, n - 1)
  {
  }

  /** The code lengths of `keys`, in ascending order of frequency. */
  function Lengths(keys: seq<nat>): seq<nat> {
    if |keys| == 0 then []
    else if |keys| == 1 then [1]
    else
      var s := Run(keys, |keys| - 1);
      seq(|keys|, i requires 0 <= i < |keys| => LeafDepth(|keys|, s, i))
  }

  /** `tdefl_calculate_minimum_redundancy` */
  method CalculateMinimumRedundancy(a: array<nat>)
    requires a.Length <= WORD && forall i :: 0 <= i < a.Length ==> a[i] < WORD
    modifies a
    ensures a[..] == Lengths(old(a[..]))
  {
    var n := a.Length;
    if n == 0 {
      return;
    } else if n == 1 {
      a[0] := 1;
      return;
    }
    ThreePasses(a);
  }

  /** The three passes, for two or more frequencies. */
  method ThreePasses(a: array<nat>)
    requires 2 <= a.Length <= WORD && forall i :: 0 <= i < a.Length ==> a[i] < WORD
    modifies a
    ensures a[..] == Lengths(old(a[..]))
  {
    hide Merged, Run, LeafDepth, Lengths, Owner, Depth, Shaped, Ascending;
    var n := a.Length;
    ghost var keys := a[..];
    ghost var s := Run(keys, n - 1);
    Merge(a);
    AllMerged(keys, a[..]);
    Deepen(a, s);
    Assign(a, s);
    LengthsMade(keys, a[..]);
  }

  /** What the first pass leaves to the second. */
  lemma AllMerged(keys: seq<nat>, a: seq<nat>)
    requires 2 <= |keys| == |a| && Merged(keys, a, |keys| - 1)
    ensures var s := Run(keys, |keys| - 1);
            Full(|keys|, s) && |s.r| == |keys| - 1 && s.r[|keys| - 2] == |keys| - 2
            && forall j :: 0 <= j < |keys| - 2 ==> j < s.r[|keys| - 2] && a[j] == Owner(s.r, j)
  {
    hide Owner;
    FullEnds(|keys|, Run(keys, |keys| - 1));
  }

  lemma LengthsMade(keys: seq<nat>, a: seq<nat>)
    requires 2 <= |keys| == |a|
    requires forall i :: 0 <= i < |keys| ==>
               Full(|keys|, Run(keys, |keys| - 1)) && a[i] == LeafDepth(|keys|, Run(keys, |keys| - 1), i)
    ensures a == Lengths(keys)
  {
    hide Run, LeafDepth;
  }
}
