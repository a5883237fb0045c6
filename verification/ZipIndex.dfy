/** The sorted directory index: heap sort of file indices by name, binary search, and the plain scan. */
module ZipIndex {
  import opened ZipNames

  type Names = seq<seq<nat>>

  ghost predicate Indices(names: Names, a: seq<nat>) {
    forall i :: 0 <= i < |a| ==> a[i] < |names|
  }

  function Key(names: Names, i: nat): seq<nat>
    requires i < |names|
  {
    Folded(names[i])
  }

  /** Entry `i` of the index does not come after entry `j`. */
  ghost predicate InOrder(names: Names, a: seq<nat>, i: nat, j: nat) {
    i < |a| && j < |a| && Indices(names, a) && Leq(Key(names, a[i]), Key(names, a[j]))
  }

  function Parent(i: nat): nat
    requires i > 0
  {
    (i - 1) / 2
  }

  /** Every entry below `end` with a parent from `start` on, other than `hole`, does not come after it. */
  ghost predicate HeapBut(names: Names, a: seq<nat>, start: nat, end: nat, hole: int) {
    && end <= |a| && Indices(names, a)
    && forall i :: 0 < i < end && start <= Parent(i) && Parent(i) != hole ==> InOrder(names, a, i, Parent(i))
  }

  /** The children of `hole` do not come after its parent. */
  ghost predicate Bridged(names: Names, a: seq<nat>, start: nat, end: nat, hole: nat) {
    && end <= |a| && Indices(names, a)
    && forall i :: 0 < i < end && Parent(i) == hole && hole > 0 && start <= Parent(hole) ==>
         InOrder(names, a, i, Parent(hole))
  }

  ghost predicate Heap(names: Names, a: seq<nat>, start: nat, end: nat) {
    HeapBut(names, a, start, end, -1)
  }

  function Swapped(a: seq<nat>, i: nat, j: nat): seq<nat>
    requires i < |a| && j < |a|
  {
    a[i := a[j]][j := a[i]]
  }

  lemma SwapKeeps(a: seq<nat>, i: nat, j: nat, end: nat)
    requires i < end && j < end && end <= |a|
    ensures multiset(Swapped(a, i, j)[..end]) == multiset(a[..end]) && Swapped(a, i, j)[end..] == a[end..]
  {
    assert Swapped(a, i, j)[..end] == Swapped(a[..end], i, j);
    SwapMultiset(a[..end], i, j);
  }

  lemma SwapMultiset(a: seq<nat>, i: nat, j: nat)
    requires i < |a| && j < |a|
    ensures multiset(Swapped(a, i, j)) == multiset(a)
  {
    hide *;
    var b := Swapped(a, i, j);
    assert b == a[i := a[j]][j := a[i]] by { SwapSpelled(a, i, j); }
  }

  lemma SwapSpelled(a: seq<nat>, i: nat, j: nat)
    requires i < |a| && j < |a|
    ensures Swapped(a, i, j) == a[i := a[j]][j := a[i]]
  {
  }

  lemma {:induction false} HeapTop(names: Names, a: seq<nat>, end: nat, i: nat)
    requires Heap(names, a, 0, end) && i < end
    ensures InOrder(names, a, i, 0)
  {
    hide Key, Leq;
    if i == 0 {
      Same(names, a, 0);
    } else {
      HeapTop(names, a, end, Parent(i));
      InOrderTransitive(names, a, i, Parent(i), 0);
    }
  }

  lemma Same(names: Names, a: seq<nat>, i: nat)
    requires Indices(names, a) && i < |a|
    ensures InOrder(names, a, i, i)
  {
    LexTotal(Key(names, a[i]), Key(names, a[i]));
  }

  lemma InOrderTransitive(names: Names, a: seq<nat>, i: nat, j: nat, k: nat)
    requires InOrder(names, a, i, j) && InOrder(names, a, j, k)
    ensures InOrder(names, a, i, k)
  {
    hide Key;
    LeqTransitive(Key(names, a[i]), Key(names, a[j]), Key(names, a[k]));
  }

  /** The larger child goes up: the hole moves down to its place. */
  lemma SiftStep(names: Names, a: seq<nat>, start: nat, end: nat, root: nat, child: nat)
    requires HeapBut(names, a, start, end, root) && Bridged(names, a, start, end, root) && start <= root < child < end
    requires Parent(child) == root && InOrder(names, a, root, child)
    requires forall i :: 0 < i < end && Parent(i) == root ==> InOrder(names, a, i, child)
    ensures var b := Swapped(a, root, child);
            HeapBut(names, b, start, end, child) && Bridged(names, b, start, end, child)
  {
    hide Key, Leq;
    var b := Swapped(a, root, child);
    forall i | 0 < i < end && start <= Parent(i) && Parent(i) != child
      ensures InOrder(names, b, i, Parent(i))
    {
      if i == root {
        assert InOrder(names, a, child, Parent(root));
      } else if Parent(i) == root {
        assert InOrder(names, a, i, child);
      } else {
        assert InOrder(names, a, i, Parent(i));
      }
    }
    forall i | 0 < i < end && Parent(i) == child
      ensures InOrder(names, b, i, Parent(child))
    {
      assert InOrder(names, a, i, child);
    }
  }

  /** The root is in place. */
  lemma SiftDone(names: Names, a: seq<nat>, start: nat, end: nat, root: nat, child: nat)
    requires HeapBut(names, a, start, end, root) && InOrder(names, a, child, root)
    requires forall i :: 0 < i < end && Parent(i) == root ==> InOrder(names, a, i, child)
    ensures Heap(names, a, start, end)
  {
    hide Key, Leq;
    forall i | 0 < i < end && start <= Parent(i)
      ensures InOrder(names, a, i, Parent(i))
    {
      if Parent(i) == root {
        InOrderTransitive(names, a, i, child, root);
      }
    }
  }

  /** `mz_zip_reader_filename_less` on two entries of the index. */
  method Less(names: Names, idx: array<nat>, i: nat, j: nat) returns (less: bool)
    requires Indices(names, idx[..]) && i < idx.Length && j < idx.Length
    ensures !less <==> InOrder(names, idx[..], j, i)
    ensures less ==> InOrder(names, idx[..], i, j)
  {
    ghost var a := idx[..];
    assert idx[i] == a[i] < |names| && idx[j] == a[j] < |names|;
    less := FilenameLess(names[idx[i]], names[idx[j]]);
    LexTotal(Key(names, idx[i]), Key(names, idx[j]));
  }

  /** The later of the two children. */
  method LaterChild(names: Names, idx: array<nat>, root: nat, end: nat) returns (child: nat)
    requires Indices(names, idx[..]) && end <= idx.Length && 2 * root + 1 < end
    ensures root < child < end && Parent(child) == root
    ensures forall i :: 0 < i < end && Parent(i) == root ==> InOrder(names, idx[..], i, child)
  {
    hide InOrder;
    child := 2 * root + 1;
    Same(names, idx[..], child);
    if child + 1 < end {
      Same(names, idx[..], child + 1);
      var less := Less(names, idx, child, child + 1);
      if less {
        child := child + 1;
      }
    }
  }

  /** The inner loop of both phases: `root` sinks until it is no smaller than its children. */
  method SiftDown(names: Names, idx: array<nat>, start: nat, end: nat)
    requires start < end <= idx.Length && HeapBut(names, idx[..], start, end, start)
    modifies idx
    ensures Heap(names, idx[..], start, end) && Indices(names, idx[..])
    ensures multiset(idx[..end]) == multiset(old(idx[..end])) && idx[end..] == old(idx[end..])
  {
    hide InOrder;
    var root := start;
    ghost var m := multiset(idx[..end]);
    while true
      invariant start <= root < end && HeapBut(names, idx[..], start, end, root)
                && Bridged(names, idx[..], start, end, root)
      invariant multiset(idx[..end]) == m && idx[end..] == old(idx[end..])
      decreases end - root
    {
      if 2 * root + 1 >= end {
        NoChildren(names, idx[..], start, end, root);
        break;
      }
      var child := LaterChild(names, idx, root, end);
      var less := Less(names, idx, root, child);
      if !less {
        SiftDone(names, idx[..], start, end, root, child);
        break;
      }
      SiftStep(names, idx[..], start, end, root, child);
      SwapKeeps(idx[..], root, child, end);
      Swap(idx, root, child);
      root := child;
    }
  }

  lemma NoChildren(names: Names, a: seq<nat>, start: nat, end: nat, root: nat)
    requires HeapBut(names, a, start, end, root) && 2 * root + 1 >= end
    ensures Heap(names, a, start, end)
  {
  }

  method Swap(idx: array<nat>, i: nat, j: nat)
    requires i < idx.Length && j < idx.Length
    modifies idx
    ensures idx[..] == Swapped(old(idx[..]), i, j)
  {
    var t := idx[i];
    idx[i] := idx[j];
    idx[j] := t;
  }

  /** From `end` on the index is final: in order, and nothing before comes after it. */
  ghost predicate SortedFrom(names: Names, a: seq<nat>, end: nat) {
    Indices(names, a) && end <= |a|
    && forall i, j :: 0 <= i <= j < |a| && end <= j ==> InOrder(names, a, i, j)
  }

  /** What happens before `end`, as long as it is a permutation, does not matter. */
  lemma SortedStays(names: Names, a: seq<nat>, b: seq<nat>, end: nat)
    requires SortedFrom(names, a, end) && |b| == |a| && multiset(b[..end]) == multiset(a[..end]) && b[end..] == a[end..]
    ensures SortedFrom(names, b, end)
  {
    hide Key, Leq;
    forall i | 0 <= i < |b| ensures exists k :: 0 <= k < |a| && a[k] == b[i] && (if end <= i then k == i else k < end) {
      if i < end {
        assert b[..end][i] in multiset(b[..end]);
        assert b[i] in a[..end];
      } else {
        assert b[end..][i - end] == a[end..][i - end];
        assert a[i] == b[i];
      }
    }
    forall i, j | 0 <= i <= j < |b| && end <= j ensures InOrder(names, b, i, j) {
      var k :| 0 <= k < |a| && a[k] == b[i] && (if end <= i then k == i else k < end);
      assert InOrder(names, a, k, j);
      assert b[end..][j - end] == a[end..][j - end];
    }
  }

  /** The first of the heap goes to its end. */
  lemma TopOut(names: Names, a: seq<nat>, end: nat)
    requires Heap(names, a, 0, end + 1) && SortedFrom(names, a, end + 1)
    ensures var b := Swapped(a, end, 0); SortedFrom(names, b, end) && HeapBut(names, b, 0, end, 0)
  {
    hide Key, Leq;
    var b := Swapped(a, end, 0);
    SwapKeeps(a, end, 0, end + 1);
    SortedStays(names, a, b, end + 1);
    forall i | 0 <= i <= end ensures InOrder(names, b, i, end) {
      HeapTop(names, a, end + 1, if i == 0 then end else if i == end then 0 else i);
    }
    forall i | 0 < i < end && Parent(i) != 0 ensures InOrder(names, b, i, Parent(i)) {
      assert InOrder(names, a, i, Parent(i));
    }
  }

  /** `mz_zip_reader_sort_central_dir_offsets_by_filename` */
  method SortIndices(names: Names, idx: array<nat>)
    requires Indices(names, idx[..])
    modifies idx
    ensures SortedFrom(names, idx[..], 0) && multiset(idx[..]) == multiset(old(idx[..]))
  {
    hide InOrder;
    var size := idx.Length;
    if size <= 1 {
      forall i | 0 <= i < size ensures InOrder(names, idx[..], i, i) {
        Same(names, idx[..], i);
      }
      return;
    }
    MakeHeap(names, idx);
    SortHeap(names, idx);
  }

  /** The first phase. */
  method MakeHeap(names: Names, idx: array<nat>)
    requires Indices(names, idx[..]) && idx.Length >= 2
    modifies idx
    ensures Heap(names, idx[..], 0, idx.Length) && multiset(idx[..]) == multiset(old(idx[..]))
  {
    hide InOrder;
    var size := idx.Length;
    var start := (size - 2) / 2;
    while true
      invariant 0 <= start <= (size - 2) / 2 && Heap(names, idx[..], start + 1, size)
      invariant multiset(idx[..]) == multiset(old(idx[..]))
      decreases start
    {
      assert idx[..size] == idx[..];
      SiftDown(names, idx, start, size);
      assert idx[..size] == idx[..];
      if start == 0 {
        break;
      }
      start := start - 1;
    }
  }

  /** The second phase. */
  method SortHeap(names: Names, idx: array<nat>)
    requires Heap(names, idx[..], 0, idx.Length) && idx.Length >= 2
    modifies idx
    ensures SortedFrom(names, idx[..], 0) && multiset(idx[..]) == multiset(old(idx[..]))
  {
    hide InOrder;
    var end := idx.Length - 1;
    while end > 0
      invariant 0 <= end < idx.Length && Heap(names, idx[..], 0, end + 1) && SortedFrom(names, idx[..], end + 1)
      invariant multiset(idx[..]) == multiset(old(idx[..]))
    {
      TopOut(names, idx[..], end);
      SwapMultiset(idx[..], end, 0);
      Swap(idx, end, 0);
      ghost var a := idx[..];
      SiftDown(names, idx, 0, end);
      SortedStays(names, a, idx[..], end);
      SplitMultiset(a, end);
      SplitMultiset(idx[..], end);
      end := end - 1;
    }
    FirstLeft(names, idx[..]);
  }

  lemma SplitMultiset(a: seq<nat>, n: nat)
    requires n <= |a|
    ensures multiset(a) == multiset(a[..n]) + multiset(a[n..])
  {
    assert a == a[..n] + a[n..];
  }

  lemma FirstLeft(names: Names, a: seq<nat>)
    requires |a| > 0 && SortedFrom(names, a, 1)
    ensures SortedFrom(names, a, 0)
  {
    Same(names, a, 0);
  }

  // ---- Looking a name up ----

  ghost predicate Matches(names: Names, i: nat, name: seq<nat>) {
    i < |names| && Key(names, i) == Folded(name)
  }

  /** `mz_zip_locate_file_binary_search` */
  method BinarySearch(names: Names, idx: array<nat>, name: seq<nat>) returns (found: bool, index: nat)
    requires SortedFrom(names, idx[..], 0)
    ensures found ==> index in idx[..] && Matches(names, index, name)
    ensures !found ==> forall i :: 0 <= i < idx.Length ==> !Matches(names, idx[i], name)
  {
    hide InOrder, Leq, Lex, Folded;
    index, found := 0, false;
    var l: int, h: int := 0, idx.Length - 1;
    while l <= h
      invariant 0 <= l <= h + 1 <= idx.Length
      invariant forall i :: 0 <= i < idx.Length && !(l <= i <= h) ==> !Matches(names, idx[i], name)
      decreases h - l
    {
      var m := l + (h - l) / 2;
      ghost var a := idx[..];
      assert idx[m] == a[m] < |names|;
      var comp := FilenameCompare(names[idx[m]], name);
      if comp == 0 {
        return true, idx[m];
      } else if comp < 0 {
        NotBefore(names, a, m, name);
        l := m + 1;
      } else {
        NotAfter(names, a, m, name);
        h := m - 1;
      }
    }
  }

  lemma NotBefore(names: Names, a: seq<nat>, m: nat, name: seq<nat>)
    requires SortedFrom(names, a, 0) && m < |a| && Lex(Key(names, a[m]), Folded(name))
    ensures forall i :: 0 <= i <= m ==> !Matches(names, a[i], name)
  {
    hide Lex, Folded;
    forall i | 0 <= i <= m ensures !Matches(names, a[i], name) {
      assert InOrder(names, a, i, m);
    }
  }

  lemma NotAfter(names: Names, a: seq<nat>, m: nat, name: seq<nat>)
    requires SortedFrom(names, a, 0) && m < |a| && Key(names, a[m]) != Folded(name)
             && !Lex(Key(names, a[m]), Folded(name))
    ensures forall i :: m <= i < |a| ==> !Matches(names, a[i], name)
  {
    hide Lex, Folded;
    LexTotal(Key(names, a[m]), Folded(name));
    forall i | m <= i < |a| ensures !Matches(names, a[i], name) {
      assert InOrder(names, a, m, i);
    }
  }

  const MAX_NAME: nat := 65535

  /** The scan of `mz_zip_reader_locate_file_v2`, with no flags and no comment: the first entry that matches. */
  method Scan(names: Names, name: seq<nat>) returns (found: bool, index: nat)
    requires forall i :: 0 <= i < |names| ==> |names[i]| <= MAX_NAME
    ensures found ==> Matches(names, index, name) && forall i :: 0 <= i < index ==> !Matches(names, i, name)
    ensures !found ==> forall i :: 0 <= i < |names| ==> !Matches(names, i, name)
  {
    index, found := 0, false;
    if |name| > MAX_NAME {
      forall i | 0 <= i < |names| ensures !Matches(names, i, name) {
        assert |Key(names, i)| == |names[i]|;
      }
      return;
    }
    for fileIndex := 0 to |names|
      invariant forall i :: 0 <= i < fileIndex ==> !Matches(names, i, name)
    {
      if |names[fileIndex]| >= |name| && |names[fileIndex]| == |name| {
        var equal := StringEqual(name, names[fileIndex]);
        if equal {
          return true, fileIndex;
        }
      } else {
        assert |Key(names, fileIndex)| == |names[fileIndex]|;
      }
    }
  }

  /** The index as it is set up before sorting. */
  function Identity(n: nat): (a: seq<nat>)
    ensures |a| == n && forall i :: 0 <= i < n ==> a[i] == i
  {
    seq(n, i requires 0 <= i < n => i)
  }

  /** The binary search over a sorted index succeeds exactly when the scan does. */
  method LocateBoth(names: Names, idx: array<nat>, name: seq<nat>)
    returns (fast: bool, fastIndex: nat, slow: bool, slowIndex: nat)
    requires SortedFrom(names, idx[..], 0) && multiset(idx[..]) == multiset(Identity(|names|))
    requires forall i :: 0 <= i < |names| ==> |names[i]| <= MAX_NAME
    ensures fast == slow
    ensures fast ==> Matches(names, fastIndex, name) && Matches(names, slowIndex, name) && slowIndex <= fastIndex
  {
    fast, fastIndex := BinarySearch(names, idx, name);
    slow, slowIndex := Scan(names, name);
    if slow {
      EveryEntry(names, idx[..], slowIndex);
    }
  }

  lemma EveryEntry(names: Names, a: seq<nat>, i: nat)
    requires multiset(a) == multiset(Identity(|names|)) && i < |names|
    ensures i in a
  {
    assert Identity(|names|)[i] == i;
    assert i in multiset(Identity(|names|));
  }
}
