/** The two-level Huffman table of `tinfl_decompress`: a 1024-entry look-up for codes of up to ten
    bits and a binary tree for the longer ones, both in place in arrays of 16-bit words. */
module InflateTable {
  import opened Bits
  import opened CanonicalCode

  const FAST_BITS: nat := 10
  const FAST_SIZE: nat := 1024

  /** The first `depth` bits of a code longer than that, packed. */
  datatype Path = Path(depth: nat, bits: nat)

  function Child(p: Path, b: nat): Path {
    Path(p.depth + 1, p.bits + b * Pow2(p.depth))
  }

  function PathOf(sizes: seq<nat>, s: nat, d: nat): Path
    requires s < |sizes|
  {
    Path(d, Low(Packed(sizes, s), d))
  }

  /** The word that stands for tree node `k`. */
  function Id(k: nat): int { -1 - 2 * k }

  ghost predicate IsNode(paths: seq<Path>, c: int, p: Path) {
    exists k :: 0 <= k < |paths| && c == Id(k) && paths[k] == p
  }

  /** A positive look-up word is a short code that `x` starts with; a negative one is the node for `x`. */
  ghost predicate LookUpOk(sizes: seq<nat>, done: nat, look: seq<int>, paths: seq<Path>, x: nat)
    requires x < |look| && done <= |sizes|
  {
    (look[x] < 0 ==> IsNode(paths, look[x], Path(FAST_BITS, x)))
    && (look[x] > 0 ==>
          var s := look[x] % 512;
          s < done && sizes[s] == look[x] / 512 && 0 < sizes[s] <= FAST_BITS && Low(x, sizes[s]) == Packed(sizes, s))
  }

  /** A negative tree word is the node for the path of its slot; a positive one is the symbol there. */
  ghost predicate SlotOk(sizes: seq<nat>, done: nat, tree: seq<int>, paths: seq<Path>, k: nat, b: nat)
    requires k < |paths| && b < 2 && 2 * |paths| <= |tree| && done <= |sizes|
  {
    var c, p := tree[2 * k + b], Child(paths[k], b);
    (c < 0 ==> IsNode(paths, c, p))
    && (c > 0 ==> c < done && PathOf(sizes, c, sizes[c]) == p)
  }

  /** Node `k` is linked from its parent, and some code seen so far runs through it. */
  ghost predicate NodeOk(sizes: seq<nat>, seen: nat, look: seq<int>, tree: seq<int>, paths: seq<Path>, k: nat)
    requires k < |paths| && |look| == FAST_SIZE && 2 * |paths| <= |tree| && seen <= |sizes|
  {
    var p := paths[k];
    && FAST_BITS <= p.depth < MAX_BITS
    && (exists s :: 0 <= s < seen && p.depth < sizes[s] && p == PathOf(sizes, s, p.depth))
    && (p.depth == FAST_BITS ==> p.bits < FAST_SIZE && look[p.bits] == Id(k))
    && (p.depth > FAST_BITS ==>
          exists j, b :: 0 <= j < |paths| && 0 <= b < 2 && Child(paths[j], b) == p && tree[2 * j + b] == Id(k))
  }

  /** Symbol `s` can be found. */
  ghost predicate SymbolOk(sizes: seq<nat>, look: seq<int>, tree: seq<int>, paths: seq<Path>, s: nat)
    requires s < |sizes| && |look| == FAST_SIZE && 2 * |paths| <= |tree|
  {
    if sizes[s] == 0 then true
    else if sizes[s] <= FAST_BITS then
      forall x :: 0 <= x < FAST_SIZE && Low(x, sizes[s]) == Packed(sizes, s) ==> look[x] == sizes[s] * 512 + s
    else
      exists k, b :: 0 <= k < |paths| && 0 <= b < 2
        && Child(paths[k], b) == PathOf(sizes, s, sizes[s]) && tree[2 * k + b] == s
  }

  /** The tables hold exactly the codes of the first `done` symbols; the nodes may also serve symbols up to `seen`. */
  ghost predicate Holds(sizes: seq<nat>, done: nat, seen: nat, look: seq<int>, tree: seq<int>, paths: seq<Path>) {
    && done <= seen <= |sizes| <= 512 && |look| == FAST_SIZE && 2 * |paths| <= |tree|
    && (forall i :: 2 * |paths| <= i < |tree| ==> tree[i] == 0)
    && (forall j, k :: 0 <= j < k < |paths| ==> paths[j] != paths[k])
    && (forall x :: 0 <= x < FAST_SIZE ==> LookUpOk(sizes, done, look, paths, x))
    && (forall k, b :: 0 <= k < |paths| && 0 <= b < 2 ==> SlotOk(sizes, done, tree, paths, k, b))
    && (forall k :: 0 <= k < |paths| ==> NodeOk(sizes, seen, look, tree, paths, k))
    && (forall s :: 0 <= s < done ==> SymbolOk(sizes, look, tree, paths, s))
  }

  // ---- Paths ----

  lemma PathStep(sizes: seq<nat>, s: nat, d: nat)
    requires s < |sizes|
    ensures PathOf(sizes, s, d + 1) == Child(PathOf(sizes, s, d), Bit(Packed(sizes, s), d))
  {
    LowStep(Packed(sizes, s), d);
  }

  lemma ChildInjective(p: Path, b: nat, q: Path, c: nat)
    requires p.bits < Pow2(p.depth) && q.bits < Pow2(q.depth) && b < 2 && c < 2 && Child(p, b) == Child(q, c)
    ensures p == q && b == c
  {
    SplitDigit(p.bits, b, q.bits, c, Pow2(p.depth));
  }

  lemma NodeBits(sizes: seq<nat>, seen: nat, look: seq<int>, tree: seq<int>, paths: seq<Path>, k: nat)
    requires k < |paths| && |look| == FAST_SIZE && 2 * |paths| <= |tree| && seen <= |sizes|
    requires NodeOk(sizes, seen, look, tree, paths, k)
    ensures paths[k].bits < Pow2(paths[k].depth)
  {
    var s :| 0 <= s < seen && paths[k].depth < sizes[s] && paths[k] == PathOf(sizes, s, paths[k].depth);
    LowBound(Packed(sizes, s), paths[k].depth);
  }

  /** Different slots stand for different paths. */
  lemma SlotUnique(sizes: seq<nat>, done: nat, seen: nat, look: seq<int>, tree: seq<int>, paths: seq<Path>,
                   j: nat, b: nat, k: nat, c: nat)
    requires Holds(sizes, done, seen, look, tree, paths)
    requires j < |paths| && k < |paths| && b < 2 && c < 2 && Child(paths[j], b) == Child(paths[k], c)
    ensures j == k && b == c
  {
    NodeBits(sizes, seen, look, tree, paths, j);
    NodeBits(sizes, seen, look, tree, paths, k);
    ChildInjective(paths[j], b, paths[k], c);
  }

  /** No code seen runs through the whole of another. */
  lemma NoPathThrough(sizes: seq<nat>, s: nat, t: nat)
    requires Fits(sizes) && s < |sizes| && t < |sizes| && s != t && 0 < sizes[s] <= sizes[t]
    ensures PathOf(sizes, t, sizes[s]) != PathOf(sizes, s, sizes[s])
  {
    PrefixFree(sizes, s, t);
    CodeBound(sizes, s);
    LowBound(Packed(sizes, s), sizes[s]);
  }

  // ---- One symbol enters the tables ----

  lemma EnterLater(sizes: seq<nat>, i: nat, look: seq<int>, tree: seq<int>, paths: seq<Path>)
    requires Holds(sizes, i, i, look, tree, paths) && i < |sizes|
    ensures Holds(sizes, i, i + 1, look, tree, paths)
  {
    var n := i + 1;
    forall k | 0 <= k < |paths| ensures NodeOk(sizes, n, look, tree, paths, k) {
      assert NodeOk(sizes, i, look, tree, paths, k);
    }
  }

  lemma EnterUnused(sizes: seq<nat>, i: nat, look: seq<int>, tree: seq<int>, paths: seq<Path>)
    requires Holds(sizes, i, i, look, tree, paths) && i < |sizes| && sizes[i] == 0
    ensures Holds(sizes, i + 1, i + 1, look, tree, paths)
  {
    var n := i + 1;
    EnterLater(sizes, i, look, tree, paths);
    forall x | 0 <= x < FAST_SIZE ensures LookUpOk(sizes, n, look, paths, x) {
      assert LookUpOk(sizes, i, look, paths, x);
    }
    forall k, b | 0 <= k < |paths| && 0 <= b < 2 ensures SlotOk(sizes, n, tree, paths, k, b) {
      assert SlotOk(sizes, i, tree, paths, k, b);
    }
    forall s | 0 <= s < i + 1 ensures SymbolOk(sizes, look, tree, paths, s) {
      assert s < i ==> SymbolOk(sizes, look, tree, paths, s);
    }
  }

  /** The look-up word a short code needs is still free. */
  lemma ShortIsFree(sizes: seq<nat>, i: nat, look: seq<int>, tree: seq<int>, paths: seq<Path>, x: nat)
    requires Holds(sizes, i, i, look, tree, paths) && Fits(sizes) && i < |sizes| && 0 < sizes[i] <= FAST_BITS
    requires x < FAST_SIZE && Low(x, sizes[i]) == Packed(sizes, i)
    ensures look[x] == 0
  {
    assert LookUpOk(sizes, i, look, paths, x);
    CodeBound(sizes, i);
    if look[x] < 0 {
      var k :| 0 <= k < |paths| && look[x] == Id(k) && paths[k] == Path(FAST_BITS, x);
      assert NodeOk(sizes, i, look, tree, paths, k);
      var s :| 0 <= s < i && FAST_BITS < sizes[s] && paths[k] == PathOf(sizes, s, FAST_BITS);
      LowLow(Packed(sizes, s), FAST_BITS, sizes[i]);
      PrefixFree(sizes, i, s);
    } else if look[x] > 0 {
      var s := look[x] % 512;
      if sizes[s] <= sizes[i] {
        LowLow(x, sizes[i], sizes[s]);
        PrefixFree(sizes, s, i);
      } else {
        LowLow(x, sizes[s], sizes[i]);
        PrefixFree(sizes, i, s);
      }
    }
  }

  /** A short code fills every look-up word that starts with it. */
  ghost predicate Fills(sizes: seq<nat>, i: nat, look: seq<int>, look': seq<int>)
    requires i < |sizes| && |look| == FAST_SIZE
  {
    |look'| == FAST_SIZE
    && forall x :: 0 <= x < FAST_SIZE ==>
         look'[x] == if Low(x, sizes[i]) == Packed(sizes, i) then sizes[i] * 512 + i else look[x]
  }

  lemma EnterShort(sizes: seq<nat>, i: nat, look: seq<int>, look': seq<int>, tree: seq<int>, paths: seq<Path>)
    requires Holds(sizes, i, i, look, tree, paths) && Fits(sizes) && i < |sizes| && 0 < sizes[i] <= FAST_BITS
    requires Fills(sizes, i, look, look')
    ensures Holds(sizes, i + 1, i + 1, look', tree, paths)
  {
    var n := i + 1;
    forall x | 0 <= x < FAST_SIZE ensures LookUpOk(sizes, n, look', paths, x) {
      assert LookUpOk(sizes, i, look, paths, x);
    }
    forall k, b | 0 <= k < |paths| && 0 <= b < 2 ensures SlotOk(sizes, n, tree, paths, k, b) {
      assert SlotOk(sizes, i, tree, paths, k, b);
    }
    forall k | 0 <= k < |paths| ensures NodeOk(sizes, n, look', tree, paths, k) {
      assert NodeOk(sizes, i, look, tree, paths, k);
      var p := paths[k];
      if p.depth == FAST_BITS && Low(p.bits, sizes[i]) == Packed(sizes, i) {
        ShortIsFree(sizes, i, look, tree, paths, p.bits);
      }
    }
    forall s | 0 <= s < i + 1 ensures SymbolOk(sizes, look', tree, paths, s) {
      if s < i {
        assert SymbolOk(sizes, look, tree, paths, s);
        if 0 < sizes[s] <= FAST_BITS {
          forall x | 0 <= x < FAST_SIZE && Low(x, sizes[s]) == Packed(sizes, s) ensures look'[x] == sizes[s] * 512 + s {
            if Low(x, sizes[i]) == Packed(sizes, i) {
              ShortIsFree(sizes, i, look, tree, paths, x);
            }
          }
        }
      }
    }
  }

  // ---- The nodes a long code runs through ----

  /** Appending a node leaves the nodes that were there. */
  lemma StillNode(paths: seq<Path>, p: Path, c: int, q: Path)
    requires IsNode(paths, c, q)
    ensures IsNode(paths + [p], c, q)
  {
    var k :| 0 <= k < |paths| && c == Id(k) && paths[k] == q;
    assert (paths + [p])[k] == q;
  }

  lemma NewNode(paths: seq<Path>, p: Path)
    ensures IsNode(paths + [p], Id(|paths|), p)
  {
    assert (paths + [p])[|paths|] == p;
  }

  /** What the state of the tables is while symbol `i` is being entered. */
  ghost predicate Entering(sizes: seq<nat>, i: nat, look: seq<int>, tree: seq<int>, paths: seq<Path>) {
    Fits(sizes) && i < |sizes| && sizes[i] > FAST_BITS && Holds(sizes, i, i + 1, look, tree, paths)
  }

  /** The look-up word of a long code is free or a node. */
  lemma RootSlot(sizes: seq<nat>, i: nat, look: seq<int>, tree: seq<int>, paths: seq<Path>, x: nat)
    requires Entering(sizes, i, look, tree, paths) && x < FAST_SIZE && Path(FAST_BITS, x) == PathOf(sizes, i, FAST_BITS)
    ensures look[x] <= 0 && (look[x] < 0 ==> IsNode(paths, look[x], Path(FAST_BITS, x)))
  {
    assert LookUpOk(sizes, i, look, paths, x);
    if look[x] > 0 {
      var s := look[x] % 512;
      LowLow(Packed(sizes, i), FAST_BITS, sizes[s]);
      PrefixFree(sizes, s, i);
    }
  }

  lemma EnterRoot(sizes: seq<nat>, i: nat, look: seq<int>, tree: seq<int>, paths: seq<Path>, x: nat)
    requires Entering(sizes, i, look, tree, paths) && x < FAST_SIZE && Path(FAST_BITS, x) == PathOf(sizes, i, FAST_BITS)
    requires look[x] == 0 && 2 * |paths| + 2 <= |tree|
    ensures Entering(sizes, i, look[x := Id(|paths|)], tree, paths + [Path(FAST_BITS, x)])
  {
    var n, p := i + 1, Path(FAST_BITS, x);
    var look', paths' := look[x := Id(|paths|)], paths + [p];
    forall y | 0 <= y < FAST_SIZE ensures LookUpOk(sizes, i, look', paths', y) {
      assert LookUpOk(sizes, i, look, paths, y);
      if y == x {
        NewNode(paths, p);
      } else if look[y] < 0 {
        StillNode(paths, p, look[y], Path(FAST_BITS, y));
      }
    }
    forall k, b | 0 <= k < |paths'| && 0 <= b < 2 ensures SlotOk(sizes, i, tree, paths', k, b) {
      if k < |paths| {
        assert SlotOk(sizes, i, tree, paths, k, b);
        if tree[2 * k + b] < 0 {
          StillNode(paths, p, tree[2 * k + b], Child(paths[k], b));
        }
      }
    }
    forall k | 0 <= k < |paths'| ensures NodeOk(sizes, n, look', tree, paths', k) {
      if k < |paths| {
        assert NodeOk(sizes, n, look, tree, paths, k);
        NodeStays(sizes, n, look, look', tree, tree, paths, p, k);
      }
    }
    forall k | 0 <= k < |paths| ensures paths[k] != p {
      assert NodeOk(sizes, n, look, tree, paths, k);
    }
    forall s | 0 <= s < i ensures SymbolOk(sizes, look', tree, paths', s) {
      assert SymbolOk(sizes, look, tree, paths, s);
      SymbolStays(sizes, look, look', tree, tree, paths, p, s);
    }
  }

  lemma NodeStays(sizes: seq<nat>, n: nat, look: seq<int>, look': seq<int>, tree: seq<int>, tree': seq<int>,
                  paths: seq<Path>, p: Path, k: nat)
    requires k < |paths| && |look| == |look'| == FAST_SIZE && 2 * |paths| + 2 <= |tree| == |tree'| && n <= |sizes|
    requires NodeOk(sizes, n, look, tree, paths, k)
    requires forall x :: 0 <= x < FAST_SIZE && look[x] != 0 ==> look'[x] == look[x]
    requires forall j :: 0 <= j < |tree| && tree[j] < 0 ==> tree'[j] == tree[j]
    ensures NodeOk(sizes, n, look', tree', paths + [p], k)
  {
    if paths[k].depth > FAST_BITS {
      var j, b :| 0 <= j < |paths| && 0 <= b < 2 && Child(paths[j], b) == paths[k] && tree[2 * j + b] == Id(k);
      assert Child((paths + [p])[j], b) == paths[k] && tree'[2 * j + b] == Id(k);
    }
  }

  lemma SymbolStays(sizes: seq<nat>, look: seq<int>, look': seq<int>, tree: seq<int>, tree': seq<int>,
                    paths: seq<Path>, p: Path, s: nat)
    requires s < |sizes| && |look| == |look'| == FAST_SIZE && 2 * |paths| + 2 <= |tree| == |tree'|
    requires SymbolOk(sizes, look, tree, paths, s)
    requires forall x :: 0 <= x < FAST_SIZE && look[x] != 0 ==> look'[x] == look[x]
    requires forall k, b :: 0 <= k < |paths| && 0 <= b < 2 && Child(paths[k], b) == PathOf(sizes, s, sizes[s])
                            ==> tree'[2 * k + b] == tree[2 * k + b]
    ensures SymbolOk(sizes, look', tree', paths + [p], s)
  {
    if sizes[s] > FAST_BITS {
      var k, b :| 0 <= k < |paths| && 0 <= b < 2 && Child(paths[k], b) == PathOf(sizes, s, sizes[s])
        && tree[2 * k + b] == s;
      assert Child((paths + [p])[k], b) == PathOf(sizes, s, sizes[s]) && tree'[2 * k + b] == s;
    }
  }

  /** The slot a long code passes through is free or leads to the next node. */
  lemma InnerSlot(sizes: seq<nat>, i: nat, look: seq<int>, tree: seq<int>, paths: seq<Path>, k: nat, b: nat)
    requires Entering(sizes, i, look, tree, paths) && k < |paths| && b < 2
    requires var q := Child(paths[k], b); q.depth <= sizes[i] && q == PathOf(sizes, i, q.depth)
    ensures tree[2 * k + b] <= 0
    ensures tree[2 * k + b] < 0 ==> IsNode(paths, tree[2 * k + b], Child(paths[k], b))
    ensures Child(paths[k], b).depth == sizes[i] ==> tree[2 * k + b] == 0
  {
    assert SlotOk(sizes, i, tree, paths, k, b);
    var c, q := tree[2 * k + b], Child(paths[k], b);
    if c > 0 {
      assert NodeOk(sizes, i + 1, look, tree, paths, k);
      NoPathThrough(sizes, c, i);
    } else if c < 0 && q.depth == sizes[i] {
      var m :| 0 <= m < |paths| && c == Id(m) && paths[m] == q;
      assert NodeOk(sizes, i + 1, look, tree, paths, m);
      var s :| 0 <= s < i + 1 && q.depth < sizes[s] && q == PathOf(sizes, s, q.depth);
      NoPathThrough(sizes, i, s);
    }
  }

  /** A slot that code `i` uses is not the leaf of an earlier symbol. */
  lemma NotTheirLeaf(sizes: seq<nat>, i: nat, look: seq<int>, tree: seq<int>, paths: seq<Path>, k: nat, b: nat,
                     s: nat, j: nat, a: nat)
    requires Entering(sizes, i, look, tree, paths) && k < |paths| && b < 2 && s < i && j < |paths| && a < 2
    requires var q := Child(paths[k], b); q.depth <= sizes[i] && q == PathOf(sizes, i, q.depth)
    requires sizes[s] > 0 && Child(paths[j], a) == PathOf(sizes, s, sizes[s])
    ensures 2 * j + a != 2 * k + b
  {
    if 2 * j + a == 2 * k + b {
      assert j == k && a == b;
      NoPathThrough(sizes, s, i);
    }
  }

  lemma EnterChild(sizes: seq<nat>, i: nat, look: seq<int>, tree: seq<int>, paths: seq<Path>, k: nat, b: nat)
    requires Entering(sizes, i, look, tree, paths) && k < |paths| && b < 2
    requires var q := Child(paths[k], b); q.depth < sizes[i] && q == PathOf(sizes, i, q.depth)
    requires tree[2 * k + b] == 0 && 2 * |paths| + 2 <= |tree|
    ensures Entering(sizes, i, look, tree[2 * k + b := Id(|paths|)], paths + [Child(paths[k], b)])
  {
    var n, p := i + 1, Child(paths[k], b);
    var tree', paths' := tree[2 * k + b := Id(|paths|)], paths + [p];
    forall y | 0 <= y < FAST_SIZE ensures LookUpOk(sizes, i, look, paths', y) {
      assert LookUpOk(sizes, i, look, paths, y);
      if look[y] < 0 {
        StillNode(paths, p, look[y], Path(FAST_BITS, y));
      }
    }
    forall m, a | 0 <= m < |paths'| && 0 <= a < 2 ensures SlotOk(sizes, i, tree', paths', m, a) {
      if m == k && a == b {
        NewNode(paths, p);
      } else if m < |paths| {
        assert SlotOk(sizes, i, tree, paths, m, a);
        if tree[2 * m + a] < 0 {
          StillNode(paths, p, tree[2 * m + a], Child(paths[m], a));
        }
      }
    }
    forall m | 0 <= m < |paths| ensures paths[m] != p {
      OnlyChild(sizes, i, look, tree, paths, k, b, m);
    }
    NewChildOk(sizes, i, look, tree, paths, k, b);
    forall m | 0 <= m < |paths'| ensures NodeOk(sizes, n, look, tree', paths', m) {
      if m < |paths| {
        assert NodeOk(sizes, n, look, tree, paths, m);
        NodeStays(sizes, n, look, look, tree, tree', paths, p, m);
      }
    }
    forall s | 0 <= s < i ensures SymbolOk(sizes, look, tree', paths', s) {
      ChildLeavesSymbol(sizes, i, look, tree, paths, k, b, s);
    }
  }

  lemma ChildLeavesSymbol(sizes: seq<nat>, i: nat, look: seq<int>, tree: seq<int>, paths: seq<Path>, k: nat, b: nat,
                          s: nat)
    requires Entering(sizes, i, look, tree, paths) && k < |paths| && b < 2 && s < i
    requires var q := Child(paths[k], b); q.depth < sizes[i] && q == PathOf(sizes, i, q.depth)
    requires 2 * |paths| + 2 <= |tree|
    ensures SymbolOk(sizes, look, tree[2 * k + b := Id(|paths|)], paths + [Child(paths[k], b)], s)
  {
    var p, tree' := Child(paths[k], b), tree[2 * k + b := Id(|paths|)];
    assert SymbolOk(sizes, look, tree, paths, s);
    if sizes[s] > 0 {
      forall j, a | 0 <= j < |paths| && 0 <= a < 2 && Child(paths[j], a) == PathOf(sizes, s, sizes[s])
        ensures tree'[2 * j + a] == tree[2 * j + a]
      {
        NotTheirLeaf(sizes, i, look, tree, paths, k, b, s, j, a);
      }
      SymbolStays(sizes, look, look, tree, tree', paths, p, s);
    }
  }

  lemma OnlyChild(sizes: seq<nat>, i: nat, look: seq<int>, tree: seq<int>, paths: seq<Path>, k: nat, b: nat, m: nat)
    requires Entering(sizes, i, look, tree, paths) && k < |paths| && b < 2 && m < |paths| && tree[2 * k + b] == 0
    ensures paths[m] != Child(paths[k], b)
  {
    assert NodeOk(sizes, i + 1, look, tree, paths, m);
    assert NodeOk(sizes, i + 1, look, tree, paths, k);
    if paths[m] == Child(paths[k], b) {
      var j, a :| 0 <= j < |paths| && 0 <= a < 2 && Child(paths[j], a) == paths[m] && tree[2 * j + a] == Id(m);
      SlotUnique(sizes, i, i + 1, look, tree, paths, j, a, k, b);
    }
  }

  lemma NewChildOk(sizes: seq<nat>, i: nat, look: seq<int>, tree: seq<int>, paths: seq<Path>, k: nat, b: nat)
    requires Entering(sizes, i, look, tree, paths) && k < |paths| && b < 2
    requires var q := Child(paths[k], b); q.depth < sizes[i] && q == PathOf(sizes, i, q.depth)
    requires tree[2 * k + b] == 0 && 2 * |paths| + 2 <= |tree|
    ensures NodeOk(sizes, i + 1, look, tree[2 * k + b := Id(|paths|)], paths + [Child(paths[k], b)], |paths|)
  {
    var p := Child(paths[k], b);
    assert NodeOk(sizes, i + 1, look, tree, paths, k);
    assert (paths + [p])[k] == paths[k];
    assert Child((paths + [p])[k], b) == p;
  }

  /** The last slot of the path takes the symbol. */
  lemma EnterLeaf(sizes: seq<nat>, i: nat, look: seq<int>, tree: seq<int>, paths: seq<Path>, k: nat, b: nat)
    requires Entering(sizes, i, look, tree, paths) && k < |paths| && b < 2
    requires Child(paths[k], b) == PathOf(sizes, i, sizes[i])
    ensures Holds(sizes, i + 1, i + 1, look, tree[2 * k + b := i], paths)
  {
    var n, tree' := i + 1, tree[2 * k + b := i];
    InnerSlot(sizes, i, look, tree, paths, k, b);
    forall y | 0 <= y < FAST_SIZE ensures LookUpOk(sizes, n, look, paths, y) {
      assert LookUpOk(sizes, i, look, paths, y);
    }
    forall m, a | 0 <= m < |paths| && 0 <= a < 2 ensures SlotOk(sizes, n, tree', paths, m, a) {
      assert SlotOk(sizes, i, tree, paths, m, a);
    }
    forall m | 0 <= m < |paths| ensures NodeOk(sizes, n, look, tree', paths, m) {
      assert NodeOk(sizes, n, look, tree, paths, m);
      if paths[m].depth > FAST_BITS {
        var j, a :| 0 <= j < |paths| && 0 <= a < 2 && Child(paths[j], a) == paths[m] && tree[2 * j + a] == Id(m);
        assert tree'[2 * j + a] == Id(m);
      }
    }
    forall s | 0 <= s < n ensures SymbolOk(sizes, look, tree', paths, s) {
      if s == i {
        assert tree'[2 * k + b] == s;
      } else {
        assert SymbolOk(sizes, look, tree, paths, s);
        if sizes[s] > FAST_BITS {
          var j, a :| 0 <= j < |paths| && 0 <= a < 2 && Child(paths[j], a) == PathOf(sizes, s, sizes[s])
            && tree[2 * j + a] == s;
          NotTheirLeaf(sizes, i, look, tree, paths, k, b, s, j, a);
          assert tree'[2 * j + a] == s;
        }
      }
    }
  }

  // ---- The tree has room ----

  /** A proper prefix of some code, at least as long as the look-up's ten bits. */
  ghost predicate Inner(sizes: seq<nat>, p: Path) {
    FAST_BITS <= p.depth < MAX_BITS
    && exists s :: 0 <= s < |sizes| && p.depth < sizes[s] && p == PathOf(sizes, s, p.depth)
  }

  ghost predicate DistinctInner(sizes: seq<nat>, paths: seq<Path>) {
    (forall k :: 0 <= k < |paths| ==> Inner(sizes, paths[k]))
    && (forall j, k :: 0 <= j < k < |paths| ==> paths[j] != paths[k])
  }

  lemma {:induction false} Pigeonhole(xs: seq<Path>, ys: seq<Path>)
    requires forall j, k :: 0 <= j < k < |xs| ==> xs[j] != xs[k]
    requires forall j :: 0 <= j < |xs| ==> xs[j] in ys
    ensures |xs| <= |ys|
  {
    if xs != [] {
      var n := |xs| - 1;
      var m :| 0 <= m < |ys| && ys[m] == xs[n];
      var rest := ys[..m] + ys[m + 1..];
      forall j | 0 <= j < n ensures xs[..n][j] in rest {
        var i :| 0 <= i < |ys| && ys[i] == xs[j];
        assert rest[if i < m then i else i - 1] == xs[j];
      }
      Pigeonhole(xs[..n], rest);
    }
  }

  /** How many prefixes of `d` bits are followed by longer codes. */
  function Gap(sizes: seq<nat>, d: nat): nat
    requires First(sizes, 16) <= 65536 && 1 <= d <= 15
  {
    EndBound(sizes, d);
    Pow2(d) - End(sizes, d)
  }

  function GapPaths(sizes: seq<nat>, d: nat): seq<Path>
    requires First(sizes, 16) <= 65536 && 1 <= d <= 15
  {
    seq(Gap(sizes, d), i requires 0 <= i < Gap(sizes, d) => Path(d, Rev(End(sizes, d) + i, d)))
  }

  lemma InnerInGap(sizes: seq<nat>, p: Path)
    requires Fits(sizes) && Inner(sizes, p)
    ensures p in GapPaths(sizes, p.depth)
  {
    hide Low, Shift, Rev, Pow2, Count, First;
    var d := p.depth;
    var s :| 0 <= s < |sizes| && d < sizes[s] && p == PathOf(sizes, s, d);
    var (v, l) := (CodeOf(sizes, s), sizes[s]);
    CodeRange(sizes, s);
    CodeBound(sizes, s);
    RevPrefix(v, l, d);
    PrefixAbove(sizes, v, d, l);
    ShiftBound(v, l, d);
    assert GapPaths(sizes, d)[Shift(v, l - d) - End(sizes, d)] == p;
  }

  lemma {:induction false} LongCodes(sizes: seq<nat>)
    ensures Count(sizes, 11) + Count(sizes, 12) + Count(sizes, 13) + Count(sizes, 14) + Count(sizes, 15) <= |sizes|
  {
    if sizes != [] {
      LongCodes(sizes[..|sizes| - 1]);
    }
  }

  lemma GapStep(sizes: seq<nat>, d: nat)
    requires First(sizes, 16) <= 65536 && 1 <= d < 15
    ensures Gap(sizes, d + 1) == 2 * Gap(sizes, d) - Count(sizes, d + 1)
  {
    assert First(sizes, d + 1) == 2 * End(sizes, d);
  }

  /** A complete code has fewer inner nodes past ten bits than it has symbols. */
  lemma {:induction false} GapsTotal(sizes: seq<nat>)
    requires Complete(sizes)
    ensures Gap(sizes, 10) + Gap(sizes, 11) + Gap(sizes, 12) + Gap(sizes, 13) + Gap(sizes, 14) <= |sizes|
  {
    LongCodes(sizes);
    GapStep(sizes, 10);
    GapStep(sizes, 11);
    GapStep(sizes, 12);
    GapStep(sizes, 13);
    GapStep(sizes, 14);
    Pow2Values();
    assert First(sizes, 16) == 2 * End(sizes, 15);
  }

  lemma {:induction false} CompleteRoom(sizes: seq<nat>, paths: seq<Path>)
    requires Complete(sizes) && DistinctInner(sizes, paths)
    ensures |paths| <= |sizes|
  {
    var all := GapPaths(sizes, 10) + GapPaths(sizes, 11) + GapPaths(sizes, 12)
               + GapPaths(sizes, 13) + GapPaths(sizes, 14);
    forall j | 0 <= j < |paths| ensures paths[j] in all {
      assert Inner(sizes, paths[j]);
      InnerInGap(sizes, paths[j]);
      assert paths[j].depth in {10, 11, 12, 13, 14};
    }
    Pigeonhole(paths, all);
    GapsTotal(sizes);
  }

  ghost predicate AtMostOne(sizes: seq<nat>) {
    forall s, t :: 0 <= s < t < |sizes| ==> sizes[s] == 0 || sizes[t] == 0
  }

  lemma {:induction false} SingleRoom(sizes: seq<nat>, paths: seq<Path>)
    requires AtMostOne(sizes) && DistinctInner(sizes, paths)
    ensures |paths| <= 5
  {
    if paths != [] {
      assert Inner(sizes, paths[0]);
      var s :| 0 <= s < |sizes| && paths[0].depth < sizes[s];
      var all := seq(5, i requires 0 <= i < 5 => PathOf(sizes, s, FAST_BITS + i));
      forall j | 0 <= j < |paths| ensures paths[j] in all {
        assert Inner(sizes, paths[j]);
        var t :| 0 <= t < |sizes| && paths[j].depth < sizes[t] && paths[j] == PathOf(sizes, t, paths[j].depth);
        assert t == s;
        assert all[paths[j].depth - FAST_BITS] == paths[j];
      }
      Pigeonhole(paths, all);
    }
  }

  /** What the decoder accepts: a complete code, or a code of at most one symbol. */
  ghost predicate Accepted(sizes: seq<nat>) {
    Bounded(sizes) && (Complete(sizes) || AtMostOne(sizes))
  }

  lemma {:induction false} RoomForNode(sizes: seq<nat>, i: nat, look: seq<int>, tree: seq<int>, paths: seq<Path>,
                                       p: Path)
    requires Entering(sizes, i, look, tree, paths) && Accepted(sizes) && |tree| >= 2 * |sizes| && |tree| >= 10
    requires FAST_BITS <= p.depth < sizes[i] && p == PathOf(sizes, i, p.depth) && p !in paths
    ensures 2 * |paths| + 2 <= |tree|
  {
    var all := paths + [p];
    forall k | 0 <= k < |all| ensures Inner(sizes, all[k]) {
      if k < |paths| {
        assert NodeOk(sizes, i + 1, look, tree, paths, k);
      }
    }
    if Complete(sizes) {
      CompleteRoom(sizes, all);
    } else {
      SingleRoom(sizes, all);
    }
  }

  // ---- The check on the code lengths ----

  function Used(sizes: seq<nat>): nat {
    if sizes == [] then 0
    else Used(sizes[..|sizes| - 1]) + if sizes[|sizes| - 1] > 0 then 1 else 0
  }

  lemma {:induction false} NoneUsed(sizes: seq<nat>)
    ensures Used(sizes) == 0 <==> forall s :: 0 <= s < |sizes| ==> sizes[s] == 0
  {
    if sizes != [] {
      var rest := sizes[..|sizes| - 1];
      NoneUsed(rest);
      assert forall s :: 0 <= s < |rest| ==> sizes[s] == rest[s];
    }
  }

  lemma {:induction false} OneUsed(sizes: seq<nat>)
    ensures Used(sizes) <= 1 <==> AtMostOne(sizes)
  {
    if sizes != [] {
      var rest := sizes[..|sizes| - 1];
      OneUsed(rest);
      NoneUsed(rest);
      assert forall s :: 0 <= s < |rest| ==> sizes[s] == rest[s];
    }
  }

  lemma {:induction false} Pow2Mono(a: nat, b: nat)
    requires a <= b
    ensures Pow2(a) <= Pow2(b)
  {
    if a < b {
      Pow2Mono(a, b - 1);
    }
  }

  lemma {:induction false} KraftOfUsed(sizes: seq<nat>)
    ensures KraftSum(sizes) <= 32768 * Used(sizes)
  {
    if sizes != [] {
      KraftOfUsed(sizes[..|sizes| - 1]);
      var x := sizes[|sizes| - 1];
      if 0 < x < 16 {
        Pow2Mono(16 - x, 15);
        Pow2Values();
      }
    }
  }

  lemma {:induction false} AcceptedFits(sizes: seq<nat>)
    requires Accepted(sizes)
    ensures Fits(sizes)
  {
    FirstIsKraftSum(sizes);
    KraftOfUsed(sizes);
    OneUsed(sizes);
  }

  /** The symbols of lengths 1 to `l`. */
  function UsedUpTo(sizes: seq<nat>, l: nat): nat {
    if l == 0 then 0 else UsedUpTo(sizes, l - 1) + Count(sizes, l)
  }

  lemma {:induction false} UsedByLength(sizes: seq<nat>, l: nat)
    requires sizes != []
    ensures UsedUpTo(sizes, l) == UsedUpTo(sizes[..|sizes| - 1], l) + if 0 < sizes[|sizes| - 1] <= l then 1 else 0
  {
    if l > 0 {
      UsedByLength(sizes, l - 1);
    }
  }

  lemma {:induction false} NoneByLength(l: nat)
    ensures UsedUpTo([], l) == 0
  {
    if l > 0 {
      NoneByLength(l - 1);
    }
  }

  lemma {:induction false} UsedTotal(sizes: seq<nat>)
    requires Bounded(sizes)
    ensures UsedUpTo(sizes, MAX_BITS) == Used(sizes)
  {
    if sizes == [] {
      NoneByLength(MAX_BITS);
    } else {
      UsedByLength(sizes, MAX_BITS);
      UsedTotal(sizes[..|sizes| - 1]);
    }
  }

  /** `total_syms`, `next_code` and the test that follows them. */
  method Number(codeSize: array<nat>, tableSize: nat, nextCode: array<nat>) returns (ok: bool)
    requires tableSize <= codeSize.Length && Bounded(codeSize[..tableSize]) && nextCode.Length == 17
             && nextCode != codeSize
    modifies nextCode
    ensures forall l :: 0 <= l < 16 ==> nextCode[l] == First(codeSize[..tableSize], l)
    ensures ok <==> Accepted(codeSize[..tableSize])
  {
    ghost var sizes := codeSize[..tableSize];
    var totalSyms := new nat[16](_ => 0);
    for i := 0 to tableSize
      invariant codeSize[..tableSize] == sizes
      invariant forall l :: 0 <= l < 16 ==> totalSyms[l] == Count(sizes[..i], l)
    {
      assert sizes[..i + 1][..i] == sizes[..i];
      totalSyms[codeSize[i]] := totalSyms[codeSize[i]] + 1;
    }
    assert sizes[..tableSize] == sizes;
    var used, total := 0, 0;
    nextCode[0], nextCode[1] := 0, 0;
    for i := 1 to 16
      invariant codeSize[..tableSize] == sizes
      invariant forall l :: 0 <= l <= i ==> nextCode[l] == First(sizes, l)
      invariant total == First(sizes, i) && used == UsedUpTo(sizes, i - 1)
      invariant forall l :: 0 <= l < 16 ==> totalSyms[l] == Count(sizes, l)
    {
      used := used + totalSyms[i];
      total := (total + totalSyms[i]) * 2;
      nextCode[i + 1] := total;
    }
    UsedTotal(sizes);
    OneUsed(sizes);
    ok := !(65536 != total && used > 1);
  }

  // ---- The table is built ----

  /** The loop that turns a code around. */
  method ReverseCode(code: nat, size: nat) returns (rev: nat)
    ensures rev == Rev(code, size)
  {
    rev := 0;
    var cur, l := code, size;
    while l > 0
      invariant rev * Pow2(l) + Rev(cur, l) == Rev(code, size)
    {
      ReverseStep(rev, cur, l);
      rev := rev * 2 + cur % 2;
      l := l - 1;
      cur := cur / 2;
    }
  }

  lemma ReverseStep(rev: nat, cur: nat, l: nat)
    requires l > 0
    ensures rev * Pow2(l) + Rev(cur, l) == (rev * 2 + cur % 2) * Pow2(l - 1) + Rev(cur / 2, l - 1)
  {
    var p := Pow2(l - 1);
    assert rev * (2 * p) + (cur % 2) * p == (rev * 2 + cur % 2) * p;
  }

  lemma NextMatch(r: nat, p: nat, x: nat)
    requires p > 0 && r <= x < r + p
    ensures x % p == r % p <==> x == r
  {
    var e := x - r;
    if r % p + e < p {
      DivModUnique(x, p, r / p, r % p + e);
    } else {
      assert p * (r / p + 1) == p * (r / p) + p;
      DivModUnique(x, p, r / p + 1, r % p + e - p);
    }
  }

  /** A code of at most ten bits fills its share of the look-up. */
  method FillShort(look: array<int>, word: int, code: nat, size: nat)
    requires look.Length == FAST_SIZE && code < Pow2(size)
    modifies look
    ensures forall x :: 0 <= x < FAST_SIZE ==> look[x] == if Low(x, size) == code then word else old(look[x])
  {
    hide Low, Pow2;
    var r := code;
    var p := Pow2(size);
    NoMatchBelow(code, size);
    while r < FAST_SIZE
      invariant r % p == code
      invariant forall x :: 0 <= x < FAST_SIZE ==>
                  look[x] == if x < r && Low(x, size) == code then word else old(look[x])
    {
      look[r] := word;
      OneMatch(r, code, size);
      r := r + p;
    }
  }

  lemma NoMatchBelow(code: nat, size: nat)
    requires code < Pow2(size)
    ensures code % Pow2(size) == code
    ensures forall x: nat :: x < code ==> Low(x, size) != code
  {
    LowIsMod(code, size);
    LowBound(code, size);
    forall x: nat | x < code ensures Low(x, size) != code {
      LowBound(x, size);
    }
  }

  lemma OneMatch(r: nat, code: nat, size: nat)
    requires r % Pow2(size) == code
    ensures forall x :: r <= x < r + Pow2(size) ==> (Low(x, size) == code <==> x == r)
    ensures (r + Pow2(size)) % Pow2(size) == code
  {
    hide Low, Pow2;
    var p := Pow2(size);
    forall x | r <= x < r + p ensures Low(x, size) == code <==> x == r {
      LowIsMod(x, size);
      NextMatch(r, p, x);
    }
    PlusPeriod(r, p);
  }

  lemma PlusPeriod(r: nat, p: nat)
    requires p > 0
    ensures (r + p) % p == r % p
  {
    assert p * (r / p + 1) == p * (r / p) + p;
    DivModUnique(r + p, p, r / p + 1, r % p);
  }

  lemma ShiftStep(r: nat, d: nat)
    ensures Shift(r, d + 1) == Shift(r, d) / 2 && Bit(r, d) == Shift(r, d) % 2
  {
    ShiftMore(r, d);
    LowIsMod(r, d);
  }

  /** The first ten bits: the look-up word of code `i` is, or becomes, a node. */
  method LongRoot(look: array<int>, x: nat, i: nat, next: int, ghost sizes: seq<nat>, ghost tree: seq<int>,
                  ghost paths: seq<Path>)
    returns (cur: int, next': int, ghost paths': seq<Path>)
    requires Entering(sizes, i, look[..], tree, paths) && Accepted(sizes) && |tree| >= 2 * |sizes| && |tree| >= 10
    requires x < FAST_SIZE && Path(FAST_BITS, x) == PathOf(sizes, i, FAST_BITS) && next == Id(|paths|)
    modifies look
    ensures Entering(sizes, i, look[..], tree, paths') && next' == Id(|paths'|)
    ensures IsNode(paths', cur, PathOf(sizes, i, FAST_BITS))
  {
    cur, next', paths' := look[x], next, paths;
    RootSlot(sizes, i, look[..], tree, paths, x);
    if cur == 0 {
      forall m | 0 <= m < |paths| ensures paths[m] != Path(FAST_BITS, x) {
        assert NodeOk(sizes, i + 1, look[..], tree, paths, m);
      }
      RoomForNode(sizes, i, look[..], tree, paths, Path(FAST_BITS, x));
      EnterRoot(sizes, i, look[..], tree, paths, x);
      NewNode(paths, Path(FAST_BITS, x));
      ghost var after := look[..][x := next];
      look[x] := next;
      assert look[..] == after;
      paths' := paths + [Path(FAST_BITS, x)];
      cur := next;
      next' := next - 2;
    }
  }

  /** One more bit: from a node on the path of code `i` to the next node on it. */
  method LongStep(tree: array<int>, slot: nat, i: nat, next: int, ghost k: nat, ghost b: nat,
                  ghost sizes: seq<nat>, ghost look: seq<int>, ghost paths: seq<Path>)
    returns (cur: int, next': int, ghost paths': seq<Path>)
    requires Entering(sizes, i, look, tree[..], paths) && Accepted(sizes) && tree.Length >= 2 * |sizes|
             && tree.Length >= 10
    requires k < |paths| && b < 2 && slot == 2 * k + b && next == Id(|paths|)
    requires var q := Child(paths[k], b); q.depth < sizes[i] && q == PathOf(sizes, i, q.depth)
    modifies tree
    ensures Entering(sizes, i, look, tree[..], paths') && next' == Id(|paths'|)
    ensures IsNode(paths', cur, Child(paths[k], b))
  {
    cur, next', paths' := tree[slot], next, paths;
    InnerSlot(sizes, i, look, tree[..], paths, k, b);
    ghost var p := Child(paths[k], b);
    if cur == 0 {
      forall m | 0 <= m < |paths| ensures paths[m] != p {
        OnlyChild(sizes, i, look, tree[..], paths, k, b, m);
      }
      assert NodeOk(sizes, i + 1, look, tree[..], paths, k);
      RoomForNode(sizes, i, look, tree[..], paths, p);
      EnterChild(sizes, i, look, tree[..], paths, k, b);
      NewNode(paths, p);
      ghost var after := tree[..][slot := next];
      tree[slot] := next;
      assert tree[..] == after;
      paths' := paths + [p];
      cur := next;
      next' := next - 2;
    }
  }

  /** A code of more than ten bits enters the look-up and the tree. */
  method EnterLong(look: array<int>, tree: array<int>, i: nat, code: nat, size: nat, next: int,
                   ghost sizes: seq<nat>, ghost paths: seq<Path>)
    returns (next': int, ghost paths': seq<Path>)
    requires Entering(sizes, i, look[..], tree[..], paths) && Accepted(sizes)
    requires tree.Length >= 2 * |sizes| && tree.Length >= 10 && look != tree
    requires code == Packed(sizes, i) && size == sizes[i] && next == Id(|paths|)
    modifies look, tree
    ensures Holds(sizes, i + 1, i + 1, look[..], tree[..], paths') && next' == Id(|paths'|)
  {
    hide LookUpOk, SlotOk, NodeOk, SymbolOk, Accepted, Low, Packed, Shift, Fits;
    var rev, cur := code, 0;
    LowIsMod(code, FAST_BITS);
    LowIsMod(code, FAST_BITS - 1);
    Pow2Values();
    cur, next', paths' := LongRoot(look, rev % FAST_SIZE, i, next, sizes, tree[..], paths);
    rev := rev / 512;
    var j := size;
    while j > FAST_BITS + 1
      invariant FAST_BITS + 1 <= j <= size
      invariant Entering(sizes, i, look[..], tree[..], paths') && next' == Id(|paths'|)
      invariant rev == Shift(code, FAST_BITS + (size - j) - 1)
      invariant IsNode(paths', cur, PathOf(sizes, i, FAST_BITS + (size - j)))
    {
      ghost var d := FAST_BITS + (size - j);
      ghost var k :| 0 <= k < |paths'| && cur == Id(k) && paths'[k] == PathOf(sizes, i, d);
      ShiftStep(code, d - 1);
      ShiftStep(code, d);
      PathStep(sizes, i, d);
      rev := rev / 2;
      cur := cur - rev % 2;
      cur, next', paths' := LongStep(tree, -cur - 1, i, next', k, rev % 2, sizes, look[..], paths');
      j := j - 1;
    }
    ghost var k :| 0 <= k < |paths'| && cur == Id(k) && paths'[k] == PathOf(sizes, i, size - 1);
    ShiftStep(code, size - 2);
    ShiftStep(code, size - 1);
    PathStep(sizes, i, size - 1);
    rev := rev / 2;
    cur := cur - rev % 2;
    EnterLeaf(sizes, i, look[..], tree[..], paths', k, rev % 2);
    ghost var after := tree[..][-cur - 1 := i];
    tree[-cur - 1] := i;
    assert tree[..] == after;
  }

  /** The table build of `tinfl_decompress` for one code. */
  method BuildTable(codeSize: array<nat>, tableSize: nat, look: array<int>, tree: array<int>)
    returns (ok: bool, ghost paths: seq<Path>)
    requires tableSize <= codeSize.Length && tableSize <= 512 && Bounded(codeSize[..tableSize])
    requires look.Length == FAST_SIZE && tree.Length >= 2 * tableSize && tree.Length >= 10 && look != tree
    requires look as object != codeSize && tree as object != codeSize
    modifies look, tree
    ensures ok <==> Accepted(codeSize[..tableSize])
    ensures ok ==> Holds(codeSize[..tableSize], tableSize, tableSize, look[..], tree[..], paths)
  {
    ghost var sizes := codeSize[..tableSize];
    forall x | 0 <= x < look.Length { look[x] := 0; }
    forall x | 0 <= x < tree.Length { tree[x] := 0; }
    var nextCode := new nat[17](_ => 0);
    paths := [];
    assert codeSize[..tableSize] == sizes;
    ok := Number(codeSize, tableSize, nextCode);
    assert codeSize[..tableSize] == sizes;
    if !ok {
      return;
    }
    AcceptedFits(sizes);
    paths := EnterAll(codeSize, tableSize, nextCode, look, tree, sizes);
  }

  /** The second loop: the codes of all symbols enter the tables. */
  method EnterAll(codeSize: array<nat>, tableSize: nat, nextCode: array<nat>, look: array<int>, tree: array<int>,
                  ghost sizes: seq<nat>)
    returns (ghost paths: seq<Path>)
    requires tableSize <= codeSize.Length && sizes == codeSize[..tableSize] && Accepted(sizes) && Fits(sizes)
    requires nextCode.Length == 17 && nextCode != codeSize
    requires forall l :: 1 <= l <= MAX_BITS ==> nextCode[l] == First(sizes, l)
    requires look.Length == FAST_SIZE && tree.Length >= 2 * tableSize && tree.Length >= 10 && look != tree
    requires {look as object, tree} !! {codeSize as object, nextCode}
    requires Holds(sizes, 0, 0, look[..], tree[..], [])
    modifies nextCode, look, tree
    ensures Holds(sizes, tableSize, tableSize, look[..], tree[..], paths)
  {
    hide LookUpOk, SlotOk, NodeOk, SymbolOk, Fits, Complete, AtMostOne, Low, Rev, First, Pow2;
    paths := [];
    var next := -1;
    for i := 0 to tableSize
      invariant codeSize[..tableSize] == sizes
      invariant forall l :: 1 <= l <= MAX_BITS ==> nextCode[l] == First(sizes, l) + Count(sizes[..i], l)
      invariant Holds(sizes, i, i, look[..], tree[..], paths) && next == Id(|paths|)
    {
      var size := codeSize[i];
      CountStep(sizes, i);
      if size == 0 {
        EnterUnused(sizes, i, look[..], tree[..], paths);
      } else {
        var code := nextCode[size];
        nextCode[size] := nextCode[size] + 1;
        var rev := ReverseCode(code, size);
        next, paths := Enter(look, tree, i, rev, size, next, sizes, paths);
      }
    }
  }

  /** Symbol `i` with its turned-around code enters the tables. */
  method Enter(look: array<int>, tree: array<int>, i: nat, rev: nat, size: nat, next: int, ghost sizes: seq<nat>,
               ghost paths: seq<Path>)
    returns (next': int, ghost paths': seq<Path>)
    requires Holds(sizes, i, i, look[..], tree[..], paths) && next == Id(|paths|)
    requires Accepted(sizes) && Fits(sizes) && i < |sizes| && size == sizes[i] > 0 && rev == Packed(sizes, i)
    requires tree.Length >= 2 * |sizes| && tree.Length >= 10 && look != tree
    modifies look, tree
    ensures Holds(sizes, i + 1, i + 1, look[..], tree[..], paths') && next' == Id(|paths'|)
  {
    hide LookUpOk, SlotOk, NodeOk, SymbolOk, Low, Rev;
    CodeBound(sizes, i);
    if size <= FAST_BITS {
      ghost var before := look[..];
      FillShort(look, size * 512 + i, rev, size);
      assert Fills(sizes, i, before, look[..]);
      EnterShort(sizes, i, before, look[..], tree[..], paths);
      next', paths' := next, paths;
    } else {
      EnterLater(sizes, i, look[..], tree[..], paths);
      next', paths' := EnterLong(look, tree, i, rev, size, next, sizes, paths);
    }
  }

  lemma CountStep(sizes: seq<nat>, i: nat)
    requires i < |sizes|
    ensures forall l :: Count(sizes[..i + 1], l) == Count(sizes[..i], l) + if sizes[i] == l then 1 else 0
  {
    forall l ensures Count(sizes[..i + 1], l) == Count(sizes[..i], l) + if sizes[i] == l then 1 else 0 {
      CountPrefix(sizes, i, l);
    }
  }

  // ---- The table is used ----

  /** Every prefix of a long code past ten bits has its node. */
  lemma {:induction false} NodeOnPath(sizes: seq<nat>, look: seq<int>, tree: seq<int>, paths: seq<Path>, s: nat, d: nat)
    returns (k: nat)
    requires Holds(sizes, |sizes|, |sizes|, look, tree, paths) && Bounded(sizes)
    requires s < |sizes| && FAST_BITS <= d < sizes[s]
    ensures k < |paths| && paths[k] == PathOf(sizes, s, d)
    decreases sizes[s] - d
  {
    PathStep(sizes, s, d);
    LowBound(Packed(sizes, s), d);
    if d + 1 == sizes[s] {
      assert SymbolOk(sizes, look, tree, paths, s);
      var j, b :| 0 <= j < |paths| && 0 <= b < 2 && Child(paths[j], b) == PathOf(sizes, s, sizes[s]);
      NodeBits(sizes, |sizes|, look, tree, paths, j);
      ChildInjective(paths[j], b, PathOf(sizes, s, d), Bit(Packed(sizes, s), d));
      k := j;
    } else {
      var m := NodeOnPath(sizes, look, tree, paths, s, d + 1);
      assert NodeOk(sizes, |sizes|, look, tree, paths, m);
      var j, b :| 0 <= j < |paths| && 0 <= b < 2 && Child(paths[j], b) == paths[m] && tree[2 * j + b] == Id(m);
      NodeBits(sizes, |sizes|, look, tree, paths, j);
      ChildInjective(paths[j], b, PathOf(sizes, s, d), Bit(Packed(sizes, s), d));
      k := j;
    }
  }

  /** `TINFL_HUFF_DECODE`, once enough bits are in the buffer: the code at the front of `bitBuf` is looked up.
      `s` is the symbol whose code that is. */
  method HuffDecode(look: array<int>, tree: array<int>, bitBuf: nat, ghost sizes: seq<nat>, ghost paths: seq<Path>,
                    ghost s: nat)
    returns (sym: int, codeLen: nat)
    requires Holds(sizes, |sizes|, |sizes|, look[..], tree[..], paths) && Fits(sizes)
    requires s < |sizes| && sizes[s] > 0 && Low(bitBuf, sizes[s]) == Packed(sizes, s)
    ensures sym == s && codeLen == sizes[s]
  {
    hide Low, Packed, LookUpOk, SlotOk, NodeOk, SymbolOk, Fits, Bit;
    if sizes[s] <= FAST_BITS {
      ShortLook(sizes, look[..], tree[..], paths, s, bitBuf);
    } else {
      LongLook(sizes, look[..], tree[..], paths, s, bitBuf);
    }
    var temp := look[bitBuf % FAST_SIZE];
    if temp >= 0 {
      codeLen := temp / 512;
      sym := temp % 512;
    } else {
      codeLen := FAST_BITS;
      while true
        invariant FAST_BITS <= codeLen < sizes[s] && IsNode(paths, temp, PathOf(sizes, s, codeLen))
        decreases sizes[s] - codeLen
      {
        ghost var k :| 0 <= k < |paths| && temp == Id(k) && paths[k] == PathOf(sizes, s, codeLen);
        SlotOnPath(sizes, look[..], tree[..], paths, s, k, bitBuf, codeLen);
        temp := tree[(-temp - 1) + Bit(bitBuf, codeLen)];
        codeLen := codeLen + 1;
        if temp >= 0 {
          break;
        }
      }
      sym := temp;
    }
  }

  lemma ShortLook(sizes: seq<nat>, look: seq<int>, tree: seq<int>, paths: seq<Path>, s: nat, bitBuf: nat)
    requires Holds(sizes, |sizes|, |sizes|, look, tree, paths) && Fits(sizes)
    requires s < |sizes| && 0 < sizes[s] <= FAST_BITS && Low(bitBuf, sizes[s]) == Packed(sizes, s)
    ensures look[bitBuf % FAST_SIZE] == sizes[s] * 512 + s
  {
    assert SymbolOk(sizes, look, tree, paths, s);
    LowIsMod(bitBuf, FAST_BITS);
    Pow2Values();
    LowLow(bitBuf, FAST_BITS, sizes[s]);
  }

  lemma LongLook(sizes: seq<nat>, look: seq<int>, tree: seq<int>, paths: seq<Path>, s: nat, bitBuf: nat)
    requires Holds(sizes, |sizes|, |sizes|, look, tree, paths) && Fits(sizes)
    requires s < |sizes| && sizes[s] > FAST_BITS && Low(bitBuf, sizes[s]) == Packed(sizes, s)
    ensures bitBuf % FAST_SIZE == PathOf(sizes, s, FAST_BITS).bits < FAST_SIZE
    ensures look[bitBuf % FAST_SIZE] < 0 && IsNode(paths, look[bitBuf % FAST_SIZE], PathOf(sizes, s, FAST_BITS))
  {
    LowLow(bitBuf, sizes[s], FAST_BITS);
    LowIsMod(bitBuf, FAST_BITS);
    Pow2Values();
    var k := NodeOnPath(sizes, look, tree, paths, s, FAST_BITS);
    assert NodeOk(sizes, |sizes|, look, tree, paths, k);
  }

  /** The slot that the next bit selects leads on along the path, or is the symbol at its end. */
  lemma SlotOnPath(sizes: seq<nat>, look: seq<int>, tree: seq<int>, paths: seq<Path>, s: nat, k: nat, bitBuf: nat,
                   d: nat)
    requires Holds(sizes, |sizes|, |sizes|, look, tree, paths) && Fits(sizes)
    requires s < |sizes| && FAST_BITS <= d < sizes[s] && Low(bitBuf, sizes[s]) == Packed(sizes, s)
    requires k < |paths| && paths[k] == PathOf(sizes, s, d)
    ensures var c := tree[2 * k + Bit(bitBuf, d)];
            if d + 1 == sizes[s] then c == s else IsNode(paths, c, PathOf(sizes, s, d + 1))
  {
    var b := Bit(Packed(sizes, s), d);
    SameBit(bitBuf, sizes[s], d);
    PathStep(sizes, s, d);
    if d + 1 == sizes[s] {
      assert SymbolOk(sizes, look, tree, paths, s);
      LowBound(Packed(sizes, s), sizes[s]);
      CodeBound(sizes, s);
      var j, a :| 0 <= j < |paths| && 0 <= a < 2 && Child(paths[j], a) == PathOf(sizes, s, sizes[s])
        && tree[2 * j + a] == s;
      SlotUnique(sizes, |sizes|, |sizes|, look, tree, paths, j, a, k, b);
    } else {
      var m := NodeOnPath(sizes, look, tree, paths, s, d + 1);
      assert NodeOk(sizes, |sizes|, look, tree, paths, m);
      var j, a :| 0 <= j < |paths| && 0 <= a < 2 && Child(paths[j], a) == paths[m] && tree[2 * j + a] == Id(m);
      SlotUnique(sizes, |sizes|, |sizes|, look, tree, paths, j, a, k, b);
    }
  }

  /** A bit within the low `n` is the same bit. */
  lemma {:induction false} SameBit(r: nat, n: nat, d: nat)
    requires d < n
    ensures Bit(Low(r, n), d) == Bit(r, d)
  {
    if d > 0 {
      assert Low(r, n) / 2 == Low(r / 2, n - 1);
      SameBit(r / 2, n - 1, d - 1);
    }
  }

  // ---- A whole stream of symbols ----

  /** The codes of `syms` one after the other, as the encoder packs them. */
  function Encode(sizes: seq<nat>, syms: seq<nat>): nat
    requires forall j :: 0 <= j < |syms| ==> syms[j] < |sizes|
  {
    if syms == [] then 0
    else Packed(sizes, syms[0]) + Pow2(sizes[syms[0]]) * Encode(sizes, syms[1..])
  }

  ghost predicate Encodable(sizes: seq<nat>, syms: seq<nat>) {
    forall j :: 0 <= j < |syms| ==> syms[j] < |sizes| && sizes[syms[j]] > 0
  }

  lemma EncodeStep(sizes: seq<nat>, syms: seq<nat>)
    requires Fits(sizes) && Encodable(sizes, syms) && syms != []
    ensures var (n, e) := (sizes[syms[0]], Encode(sizes, syms));
            Low(e, n) == Packed(sizes, syms[0]) && e / Pow2(n) == Encode(sizes, syms[1..])
  {
    CodeBound(sizes, syms[0]);
    FrontOf(Packed(sizes, syms[0]), sizes[syms[0]], Encode(sizes, syms[1..]));
  }

  /** Decoding as many symbols as were encoded gives them back. */
  method DecodeAll(look: array<int>, tree: array<int>, stream: nat, count: nat, ghost sizes: seq<nat>,
                   ghost paths: seq<Path>, ghost syms: seq<nat>)
    returns (out: seq<int>)
    requires Holds(sizes, |sizes|, |sizes|, look[..], tree[..], paths) && Fits(sizes)
    requires Encodable(sizes, syms) && stream == Encode(sizes, syms) && count == |syms|
    ensures out == syms
  {
    out := [];
    var bitBuf := stream;
    for i := 0 to count
      invariant bitBuf == Encode(sizes, syms[i..]) && out == syms[..i]
    {
      EncodeStep(sizes, syms[i..]);
      assert syms[i..][1..] == syms[i + 1..];
      var sym, codeLen := HuffDecode(look, tree, bitBuf, sizes, paths, syms[i]);
      bitBuf := bitBuf / Pow2(codeLen);
      out := out + [sym];
    }
  }
}
