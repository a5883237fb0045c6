/** The shape of wepoll's intrusive red-black tree, as a value.

    A `Shape` says which node object sits where, with its key and colour.  A
    `Context` is a shape with one subtree missing, read from the hole upwards;
    it is what the fix-up loops of `tree_add` and `tree_del` walk along. */
module TreeShape {
  import opened Bits

  /** `tree_node_t` */
  class TreeNode {
    var left: TreeNode?
    var right: TreeNode?
    var parent: TreeNode?
    var key: nat
    var red: bool

    /** `tree_node_init` */
    constructor ()
      ensures left == null && right == null && parent == null && key == 0 && !red
    {
      left, right, parent, key, red := null, null, null, 0, false;
    }
  }

  datatype Side = Left | Right

  function Opposite(side: Side): Side {
    if side == Left then Right else Left
  }

  datatype Shape = Leaf | Node(left: Shape, at: TreeNode, key: nat, red: bool, right: Shape)

  datatype Context = Top | Below(up: Context, side: Side, at: TreeNode, key: nat, red: bool, sibling: Shape)

  /** The node whose `side` subtree is `cis` and whose other subtree is `trans`. */
  function Join(side: Side, cis: Shape, at: TreeNode, key: nat, red: bool, trans: Shape): Shape {
    if side == Left then Node(cis, at, key, red, trans) else Node(trans, at, key, red, cis)
  }

  function Sub(t: Shape, side: Side): Shape
    requires t.Node?
  {
    if side == Left then t.left else t.right
  }

  function Plug(c: Context, t: Shape): Shape {
    match c
    case Top => t
    case Below(up, side, at, key, red, sibling) => Plug(up, Join(side, t, at, key, red, sibling))
  }

  /** The context `inner` with its top placed in the hole of `outer`. */
  function Append(inner: Context, outer: Context): Context {
    match inner
    case Top => outer
    case Below(up, side, at, key, red, sibling) => Below(Append(up, outer), side, at, key, red, sibling)
  }

  function Length(c: Context): nat {
    match c
    case Top => 0
    case Below(up, _, _, _, _, _) => 1 + Length(up)
  }

  function Nodes(t: Shape): set<TreeNode> {
    match t
    case Leaf => {}
    case Node(l, at, _, _, r) => Nodes(l) + {at} + Nodes(r)
  }

  function ContextNodes(c: Context): set<TreeNode> {
    match c
    case Top => {}
    case Below(up, _, at, _, _, sibling) => ContextNodes(up) + {at} + Nodes(sibling)
  }

  /** No node object occurs twice. */
  ghost predicate Distinct(t: Shape) {
    match t
    case Leaf => true
    case Node(l, at, _, _, r) =>
      at !in Nodes(l) && at !in Nodes(r) && Nodes(l) !! Nodes(r) && Distinct(l) && Distinct(r)
  }

  ghost predicate DistinctContext(c: Context) {
    match c
    case Top => true
    case Below(up, _, at, _, _, sibling) =>
      at !in ContextNodes(up) && at !in Nodes(sibling) && Nodes(sibling) !! ContextNodes(up)
      && Distinct(sibling) && DistinctContext(up)
  }

  // ---- What the tree holds: its nodes with their keys, in search order ----

  datatype Entry = Entry(key: nat, at: TreeNode)

  function Entries(t: Shape): seq<Entry> {
    match t
    case Leaf => []
    case Node(l, at, key, _, r) => Entries(l) + [Entry(key, at)] + Entries(r)
  }

  function Before(c: Context): seq<Entry> {
    match c
    case Top => []
    case Below(up, Left, _, _, _, _) => Before(up)
    case Below(up, Right, at, key, _, sibling) => Before(up) + (Entries(sibling) + [Entry(key, at)])
  }

  function After(c: Context): seq<Entry> {
    match c
    case Top => []
    case Below(up, Left, at, key, _, sibling) => [Entry(key, at)] + Entries(sibling) + After(up)
    case Below(up, Right, _, _, _, _) => After(up)
  }

  ghost predicate Sorted(es: seq<Entry>) {
    forall i, j :: 0 <= i < j < |es| ==> es[i].key < es[j].key
  }

  ghost predicate KeysBelow(es: seq<Entry>, key: nat) {
    forall i :: 0 <= i < |es| ==> es[i].key < key
  }

  ghost predicate KeysAbove(es: seq<Entry>, key: nat) {
    forall i :: 0 <= i < |es| ==> key < es[i].key
  }

  ghost predicate HasKey(es: seq<Entry>, key: nat) {
    exists i :: 0 <= i < |es| && es[i].key == key
  }

  /** `after` is `before` with `e` added somewhere. */
  ghost predicate Inserted(before: seq<Entry>, after: seq<Entry>, e: Entry) {
    exists k :: 0 <= k <= |before| && after == before[..k] + [e] + before[k..]
  }

  /** `after` is `before` with one occurrence of `e` taken out. */
  ghost predicate Removed(before: seq<Entry>, after: seq<Entry>, e: Entry) {
    exists k :: 0 <= k < |before| && before[k] == e && after == before[..k] + before[k + 1..]
  }

  lemma SortedOnce(es: seq<Entry>, j: nat, k: nat)
    requires Sorted(es) && j < |es| && k < |es| && es[j] == es[k]
    ensures j == k
  {
  }

  /** Taking out what was put in gives back what was there. */
  lemma RemovedInserted(before: seq<Entry>, between: seq<Entry>, after: seq<Entry>, e: Entry)
    requires Inserted(before, between, e) && Removed(between, after, e) && Sorted(between)
    ensures after == before
  {
    var k :| 0 <= k <= |before| && between == before[..k] + [e] + before[k..];
    var j :| 0 <= j < |between| && between[j] == e && after == between[..j] + between[j + 1..];
    assert between[k] == e;
    SortedOnce(between, j, k);
    DropInserted(before, k, e);
  }

  lemma DropInserted(s: seq<Entry>, k: nat, e: Entry)
    requires k <= |s|
    ensures var t := s[..k] + [e] + s[k..]; t[..k] + t[k + 1..] == s
  {
  }

  // ---- Red-black balance ----

  predicate IsRed(t: Shape) { t.Node? && t.red }

  /** The number of black nodes on the leftmost path. */
  function BlackHeight(t: Shape): nat {
    match t
    case Leaf => 0
    case Node(l, _, _, red, _) => BlackHeight(l) + if red then 0 else 1
  }

  /** No red node has a red child, and every path meets equally many black nodes. */
  ghost predicate Balanced(t: Shape) {
    match t
    case Leaf => true
    case Node(l, _, _, red, r) =>
      Balanced(l) && Balanced(r) && BlackHeight(l) == BlackHeight(r)
      && (red ==> !IsRed(l) && !IsRed(r))
  }

  ghost predicate RedBlack(t: Shape) { Balanced(t) && !IsRed(t) }

  /** Plugging a balanced, black-rooted subtree of black height `h` into `c` gives a red-black tree. */
  ghost predicate Balances(c: Context, h: nat) {
    match c
    case Top => true
    case Below(up, _, _, _, red, sibling) =>
      Balanced(sibling) && BlackHeight(sibling) == h
      && (red ==> !IsRed(sibling) && up.Below? && !up.red)
      && Balances(up, h + if red then 0 else 1)
  }

  function Height(t: Shape): nat {
    match t
    case Leaf => 0
    case Node(l, _, _, _, r) => 1 + if Height(l) > Height(r) then Height(l) else Height(r)
  }

  // ---- Lemmas ----

  lemma Unjoin(side: Side, t: Shape)
    requires t.Node?
    ensures t == Join(side, Sub(t, side), t.at, t.key, t.red, Sub(t, Opposite(side)))
  {
  }

  lemma JoinShape(side: Side, cis: Shape, at: TreeNode, key: nat, red: bool, trans: Shape)
    ensures var t := Join(side, cis, at, key, red, trans);
            && t.Node? && t.at == at && t.key == key && t.red == red
            && Nodes(t) == Nodes(cis) + {at} + Nodes(trans)
            && Sub(t, side) == cis && Sub(t, Opposite(side)) == trans
            && (Distinct(t) <==> at !in Nodes(cis) && at !in Nodes(trans) && Nodes(cis) !! Nodes(trans)
                                 && Distinct(cis) && Distinct(trans))
  {
  }

  lemma Associate(a: seq<Entry>, b: seq<Entry>, c: seq<Entry>, d: seq<Entry>, e: seq<Entry>)
    ensures a + (b + c + d) + e == a + b + (c + d + e)
    ensures a + (b + c + d) + e == a + (b + c) + d + e
  {
  }

  lemma {:induction false} PlugEntries(c: Context, t: Shape)
    ensures Entries(Plug(c, t)) == Before(c) + Entries(t) + After(c)
  {
    match c
    case Top =>
    case Below(up, side, at, key, red, sibling) =>
      PlugEntries(up, Join(side, t, at, key, red, sibling));
      if side == Left {
        Associate(Before(up), Entries(t), [Entry(key, at)], Entries(sibling), After(up));
      } else {
        Associate(Before(up), Entries(sibling), [Entry(key, at)], Entries(t), After(up));
      }
  }

  lemma {:induction false} PlugNodes(c: Context, t: Shape)
    ensures Nodes(Plug(c, t)) == ContextNodes(c) + Nodes(t)
  {
    match c
    case Top =>
    case Below(up, side, at, key, red, sibling) =>
      PlugNodes(up, Join(side, t, at, key, red, sibling));
  }

  lemma {:induction false} PlugDistinct(c: Context, t: Shape)
    ensures Distinct(Plug(c, t)) <==> Distinct(t) && DistinctContext(c) && Nodes(t) !! ContextNodes(c)
  {
    match c
    case Top =>
    case Below(up, side, at, key, red, sibling) =>
      PlugDistinct(up, Join(side, t, at, key, red, sibling));
  }

  lemma {:induction false} AppendPlug(inner: Context, outer: Context, t: Shape)
    ensures Plug(Append(inner, outer), t) == Plug(outer, Plug(inner, t))
  {
    match inner
    case Top =>
    case Below(up, side, at, key, red, sibling) =>
      AppendPlug(up, outer, Join(side, t, at, key, red, sibling));
  }

  lemma {:induction false} AppendNodes(inner: Context, outer: Context)
    ensures ContextNodes(Append(inner, outer)) == ContextNodes(inner) + ContextNodes(outer)
  {
    match inner
    case Top =>
    case Below(up, _, _, _, _, _) => AppendNodes(up, outer);
  }

  /** A balanced subtree of the height the context expects completes a red-black tree. */
  lemma {:induction false} PlugBalanced(c: Context, t: Shape)
    requires Balances(c, BlackHeight(t)) && Balanced(t)
    requires IsRed(t) ==> c.Below? && !c.red
    ensures RedBlack(Plug(c, t))
  {
    match c
    case Top =>
    case Below(up, side, at, key, red, sibling) =>
      PlugBalanced(up, Join(side, t, at, key, red, sibling));
  }

  /** Cutting a red-black tree open: the converse of `PlugBalanced`. */
  lemma {:induction false} UnplugBalanced(c: Context, t: Shape)
    requires RedBlack(Plug(c, t))
    ensures Balances(c, BlackHeight(t)) && Balanced(t)
    ensures IsRed(t) ==> c.Below? && !c.red
  {
    match c
    case Top =>
    case Below(up, side, at, key, red, sibling) =>
      UnplugBalanced(up, Join(side, t, at, key, red, sibling));
  }

  /** The binary logarithm, rounded down. */
  function Log2(n: nat): nat
    requires n > 0
  {
    if n == 1 then 0 else 1 + Log2(n / 2)
  }

  lemma {:induction false} Log2Bound(k: nat, n: nat)
    requires Pow2(k) <= n
    ensures n > 0 && k <= Log2(n)
  {
    if k > 0 {
      Log2Bound(k - 1, n / 2);
    }
  }

  /** No path in a red-black tree of `n` keys is longer than `2 * log2(n + 1)`. */
  lemma {:induction false} VisitBound(t: Shape)
    requires RedBlack(t)
    ensures Height(t) <= 2 * Log2(|Entries(t)| + 1)
  {
    HeightBound(t);
    Log2Bound(BlackHeight(t), |Entries(t)| + 1);
  }

  /** The whole point of the balance: a tree of height `h` holds at least `2^(h/2) - 1` keys. */
  lemma {:induction false} HeightBound(t: Shape)
    requires Balanced(t)
    ensures Height(t) <= 2 * BlackHeight(t) + if IsRed(t) then 1 else 0
    ensures Pow2(BlackHeight(t)) <= |Entries(t)| + 1
  {
    match t
    case Leaf =>
    case Node(l, at, key, red, r) =>
      HeightBound(l);
      HeightBound(r);
  }

  // ---- Rotations ----

  function Rotated(side: Side, t: Shape): Shape
    requires t.Node? && Sub(t, Opposite(side)).Node?
  {
    var q := Sub(t, Opposite(side));
    Join(side, Join(side, Sub(t, side), t.at, t.key, t.red, Sub(q, side)), q.at, q.key, q.red, Sub(q, Opposite(side)))
  }

  lemma RotatedNodes(side: Side, t: Shape)
    requires t.Node? && Sub(t, Opposite(side)).Node?
    ensures Rotated(side, t).Node? && Nodes(Rotated(side, t)) == Nodes(t)
    ensures Distinct(t) ==> Distinct(Rotated(side, t))
  {
    hide Join, Distinct, Nodes, Sub, Entries;
    var q := Sub(t, Opposite(side));
    var (a, b, d) := (Sub(t, side), Sub(q, side), Sub(q, Opposite(side)));
    Unjoin(side, t);
    Unjoin(side, q);
    JoinShape(side, a, t.at, t.key, t.red, q);
    JoinShape(side, b, q.at, q.key, q.red, d);
    JoinShape(side, a, t.at, t.key, t.red, b);
    JoinShape(side, Join(side, a, t.at, t.key, t.red, b), q.at, q.key, q.red, d);
  }

  /** A rotation keeps the search order. */
  lemma RotatedEntries(side: Side, t: Shape)
    requires t.Node? && Sub(t, Opposite(side)).Node?
    ensures Entries(Rotated(side, t)) == Entries(t)
  {
    var q := Sub(t, Opposite(side));
    var (a, b, d) := (Entries(Sub(t, side)), Entries(Sub(q, side)), Entries(Sub(q, Opposite(side))));
    if side == Left {
      Associate([], a + [Entry(t.key, t.at)], b, [Entry(q.key, q.at)], d);
    } else {
      Associate(d, [Entry(q.key, q.at)], b, [Entry(t.key, t.at)], a);
    }
  }

  // ---- Search ----

  lemma {:induction false} KeyLeft(c: Context, t: Shape, key: nat)
    requires t.Node? && key < t.key && KeysAbove(After(c), key) && Sorted(Entries(Plug(c, t)))
    ensures KeysAbove(After(Below(c, Left, t.at, t.key, t.red, t.right)), key)
  {
    var d := Below(c, Left, t.at, t.key, t.red, t.right);
    PlugEntries(d, t.left);
    hide Entries;
    var es, k, after := Entries(Plug(c, t)), |Before(d) + Entries(t.left)|, After(d);
    forall i | 0 <= i < |after| ensures key < after[i].key {
      assert after[i] == es[k + i] && after[0] == es[k];
    }
  }

  lemma {:induction false} KeyRight(c: Context, t: Shape, key: nat)
    requires t.Node? && t.key < key && KeysBelow(Before(c), key) && Sorted(Entries(Plug(c, t)))
    ensures KeysBelow(Before(Below(c, Right, t.at, t.key, t.red, t.left)), key)
  {
    var d := Below(c, Right, t.at, t.key, t.red, t.left);
    PlugEntries(d, t.right);
    hide Entries;
    var es, before := Entries(Plug(c, t)), Before(d);
    forall i | 0 <= i < |before| ensures before[i].key < key {
      assert before[i] == es[i] && before[|before| - 1] == es[|before| - 1];
    }
  }

  lemma {:induction false} NoKeyAtHole(c: Context, key: nat)
    requires KeysBelow(Before(c), key) && KeysAbove(After(c), key)
    ensures !HasKey(Entries(Plug(c, Leaf)), key)
  {
    PlugEntries(c, Leaf);
  }

  lemma {:induction false} KeyHere(c: Context, t: Shape)
    requires t.Node?
    ensures var k := |Before(c)| + |Entries(t.left)|;
            k < |Entries(Plug(c, t))| && Entries(Plug(c, t))[k] == Entry(t.key, t.at)
    ensures HasKey(Entries(Plug(c, t)), t.key)
  {
    PlugEntries(c, t);
  }

  // ---- The steps of insertion ----

  /** Where `tree_add` stands: a red subtree that fits `c` but for a parent that may be red too. */
  ghost predicate InsertionPoint(c: Context, t: Shape) {
    Balanced(t) && IsRed(t) && Balances(c, BlackHeight(t))
  }

  /** Two cut trees hold the same entries in the same order. */
  ghost predicate SameEntries(c: Context, t: Shape, c0: Context, t0: Shape) {
    Before(c) + Entries(t) + After(c) == Before(c0) + Entries(t0) + After(c0)
    && ContextNodes(c) + Nodes(t) == ContextNodes(c0) + Nodes(t0)
  }

  /** The subtree two levels above the hole of `c`. */
  function Grand(c: Context, t: Shape): Shape
    requires c.Below? && c.up.Below?
  {
    Join(c.up.side, Join(c.side, t, c.at, c.key, c.red, c.sibling), c.up.at, c.up.key, c.up.red, c.up.sibling)
  }

  function Recolored(t: Shape): Shape
    requires t.Node? && t.left.Node? && t.right.Node?
  {
    Node(t.left.(red := false), t.at, t.key, true, t.right.(red := false))
  }

  lemma {:induction false} AscendEntries(c: Context, t: Shape)
    requires c.Below?
    ensures SameEntries(c.up, Join(c.side, t, c.at, c.key, c.red, c.sibling), c, t)
  {
    PlugEntries(c, t);
    PlugEntries(c.up, Join(c.side, t, c.at, c.key, c.red, c.sibling));
  }

  lemma {:induction false} RecoloredBalanced(c: Context, t: Shape)
    requires InsertionPoint(c, t) && c.Below? && c.red && IsRed(c.up.sibling)
    ensures InsertionPoint(c.up.up, Recolored(Grand(c, t)))
    ensures SameEntries(c.up.up, Recolored(Grand(c, t)), c, t)
  {
    assert Balances(c.up, BlackHeight(t));
    assert Balanced(c.up.sibling) && BlackHeight(c.up.sibling) == BlackHeight(t);
    assert Balanced(c.up.sibling.(red := false));
    var tp := Join(c.side, t, c.at, c.key, false, c.sibling);
    assert Balanced(tp) && BlackHeight(tp) == BlackHeight(t) + 1;
    assert Recolored(Grand(c, t)) == Join(c.up.side, tp, c.up.at, c.up.key, true, c.up.sibling.(red := false));
    RecoloredEntries(c, t);
  }

  lemma {:induction false} RecoloredEntries(c: Context, t: Shape)
    requires c.Below? && c.up.Below? && c.up.sibling.Node?
    ensures SameEntries(c.up.up, Recolored(Grand(c, t)), c, t)
  {
    AscendEntries(c, t);
    AscendEntries(c.up, Join(c.side, t, c.at, c.key, c.red, c.sibling));
    var g := Grand(c, t);
    assert Entries(Recolored(g).left) == Entries(g.left) && Nodes(Recolored(g).left) == Nodes(g.left);
    assert Entries(Recolored(g).right) == Entries(g.right) && Nodes(Recolored(g).right) == Nodes(g.right);
  }

  /** The rotation that makes a red node lean the same way as its red parent. */
  function OutwardContext(c: Context, t: Shape): Context
    requires c.Below? && t.Node?
  {
    Below(c.up, Opposite(c.side), t.at, t.key, t.red, Sub(t, c.side))
  }

  function OutwardShape(c: Context, t: Shape): Shape
    requires c.Below? && t.Node?
  {
    Join(Opposite(c.side), c.sibling, c.at, c.key, c.red, Sub(t, Opposite(c.side)))
  }

  lemma {:induction false} OutwardPoint(c: Context, t: Shape)
    requires InsertionPoint(c, t) && c.Below? && c.red
    ensures InsertionPoint(OutwardContext(c, t), OutwardShape(c, t))
    ensures SameEntries(OutwardContext(c, t), OutwardShape(c, t), c, t)
  {
    assert Balances(c.up, BlackHeight(t));
    var tp := Join(c.side, t, c.at, c.key, c.red, c.sibling);
    AscendEntries(c, t);
    AscendEntries(OutwardContext(c, t), OutwardShape(c, t));
    RotatedEntries(Opposite(c.side), tp);
    RotatedNodes(Opposite(c.side), tp);
  }

  /** The context of the red node once its parent has been rotated above its grandparent. */
  function Lifted(c: Context): Context
    requires c.Below? && c.up.Below?
  {
    Below(c.up.up, c.side, c.at, c.key, false,
          Join(c.side, c.sibling, c.up.at, c.up.key, true, c.up.sibling))
  }

  lemma {:induction false} LiftedPoint(c: Context, t: Shape)
    requires InsertionPoint(c, t) && c.Below? && c.red && c.up.side == c.side && !IsRed(c.up.sibling)
    ensures InsertionPoint(Lifted(c), t)
    ensures SameEntries(Lifted(c), t, c, t)
  {
    assert Balances(c.up, BlackHeight(t));
    AscendEntries(c, t);
    AscendEntries(c.up, Join(c.side, t, c.at, c.key, c.red, c.sibling));
    AscendEntries(Lifted(c), t);
    var rg := Join(c.side, Join(c.side, t, c.at, c.key, false, c.sibling), c.up.at, c.up.key, true, c.up.sibling);
    RotatedOuter(c.side, t, c.at, c.key, c.sibling, c.up.at, c.up.key, c.up.sibling);
    RotatedEntries(Opposite(c.side), rg);
    RotatedNodes(Opposite(c.side), rg);
  }

  lemma RotatedOuter(side: Side, t: Shape, p: TreeNode, pk: nat, s: Shape, g: TreeNode, gk: nat, u: Shape)
    ensures var rg := Join(side, Join(side, t, p, pk, false, s), g, gk, true, u);
            Sub(rg, side).Node?
              && Rotated(Opposite(side), rg) == Join(side, t, p, pk, false, Join(side, s, g, gk, true, u))
  {
  }

  /** The freshly placed red node is a point from which the rebalancing can start. */
  lemma {:induction false} PlacedPoint(c: Context, t: Shape, key: nat)
    requires RedBlack(Plug(c, Leaf)) && Sorted(Entries(Plug(c, Leaf)))
    requires KeysBelow(Before(c), key) && KeysAbove(After(c), key)
    requires t.Node? && t == Node(Leaf, t.at, key, true, Leaf)
    ensures InsertionPoint(c, t)
    ensures var es := Before(c) + Entries(t) + After(c);
            Sorted(es) && Inserted(Entries(Plug(c, Leaf)), es, Entry(key, t.at))
    ensures ContextNodes(c) + Nodes(t) == Nodes(Plug(c, Leaf)) + {t.at}
  {
    PlugNodes(c, Leaf);
    UnplugBalanced(c, Leaf);
    PlugEntries(c, Leaf);
    var before, es := Entries(Plug(c, Leaf)), Before(c) + Entries(t) + After(c);
    var k := |Before(c)|;
    assert before[..k] == Before(c) && before[k..] == After(c);
    assert Entries(t) == [Entry(key, t.at)];
    assert es == before[..k] + [Entry(key, t.at)] + before[k..];
  }

  /** When the parent is black or missing, painting the root black completes the insertion. */
  lemma {:induction false} AddedPoint(c: Context, t: Shape)
    requires InsertionPoint(c, t) && (c.Below? ==> !c.red)
    ensures var whole := Plug(c, t);
            && whole.Node? && RedBlack(whole.(red := false))
            && Entries(whole.(red := false)) == Before(c) + Entries(t) + After(c)
            && Nodes(whole.(red := false)) == Nodes(whole)
  {
    PlugEntries(c, t);
    PlugNodes(c, t);
    if c.Below? {
      PlugBalanced(c, t);
    }
  }

  // ---- The steps of removal ----

  /** The context of the sibling of `t`. */
  function Across(c: Context, t: Shape): Context
    requires c.Below?
  {
    Below(c.up, Opposite(c.side), c.at, c.key, c.red, t)
  }

  function NephewBlack(s: Shape, side: Side, red: bool): Shape
    requires s.Node? && Sub(s, side).Node?
  {
    Join(side, Sub(s, side).(red := false), s.at, s.key, red, Sub(s, Opposite(side)))
  }

  lemma NephewBlackSame(s: Shape, side: Side, red: bool)
    requires s.Node? && Sub(s, side).Node?
    ensures Nodes(NephewBlack(s, side, red)) == Nodes(s)
    ensures Entries(NephewBlack(s, side, red)) == Entries(s)
  {
    var n := Sub(s, side);
    assert Nodes(n.(red := false)) == Nodes(n) && Entries(n.(red := false)) == Entries(n);
  }

  /** The context of a subtree after its parent has been rotated below its sibling. */
  function Lowered(c: Context): Context
    requires c.Below? && c.sibling.Node?
  {
    var s := c.sibling;
    Below(Below(c.up, c.side, s.at, s.key, s.red, Sub(s, Opposite(c.side))), c.side, c.at, c.key, c.red, Sub(s, c.side))
  }

  lemma LoweredRotation(c: Context, t: Shape)
    requires c.Below? && c.sibling.Node?
    ensures var (r, l) := (Rotated(c.side, Join(c.side, t, c.at, c.key, c.red, c.sibling)), Lowered(c));
            && r.Node? && r.at == c.sibling.at && r.key == c.sibling.key && r.red == c.sibling.red
            && r == Join(c.side, Join(c.side, t, c.at, c.key, c.red, l.sibling),
                         l.up.at, l.up.key, l.up.red, l.up.sibling)
            && Sub(r, c.side) == Join(c.side, t, c.at, c.key, c.red, l.sibling)
            && Sub(r, Opposite(c.side)) == l.up.sibling
            && Sub(r, c.side).Node? && Sub(Sub(r, c.side), c.side) == t
              && Sub(Sub(r, c.side), Opposite(c.side)) == l.sibling
            && Sub(r, c.side).at == c.at && Sub(r, c.side).key == c.key && Sub(r, c.side).red == c.red
  {
  }

  /** Where `tree_del` stands: a balanced subtree one black level too low for `c`. */
  ghost predicate Deficient(c: Context, t: Shape) {
    Balanced(t) && Balances(c, BlackHeight(t) + 1)
  }

  function Repainted(c: Context, red: bool, siblingRed: bool): Context
    requires c.Below? && c.sibling.Node?
  {
    c.(red := red, sibling := c.sibling.(red := siblingRed))
  }

  lemma RepaintedNodes(c: Context, red: bool, siblingRed: bool)
    requires c.Below? && c.sibling.Node?
    ensures ContextNodes(Repainted(c, red, siblingRed)) == ContextNodes(c)
    ensures Before(Repainted(c, red, siblingRed)) == Before(c) && After(Repainted(c, red, siblingRed)) == After(c)
  {
    assert Entries(c.sibling.(red := siblingRed)) == Entries(c.sibling);
  }

  function RedSiblingLowered(c: Context): Context
    requires c.Below? && c.sibling.Node?
  {
    Lowered(Repainted(c, true, false))
  }

  lemma {:induction false} LoweredEntries(c: Context, t: Shape)
    requires c.Below? && c.sibling.Node?
    ensures SameEntries(Lowered(c), t, c, t)
  {
    var l := Lowered(c);
    var tp := Join(c.side, t, c.at, c.key, c.red, c.sibling);
    LoweredRotation(c, t);
    RotatedEntries(c.side, tp);
    RotatedNodes(c.side, tp);
    AscendEntries(c, t);
    AscendEntries(l, t);
    AscendEntries(l.up, Join(l.side, t, l.at, l.key, l.red, l.sibling));
  }

  lemma {:induction false} LowerRedSibling(c: Context, t: Shape)
    requires Deficient(c, t) && c.Below? && IsRed(c.sibling)
    ensures var l := RedSiblingLowered(c);
            && l.Below? && l.red && l.side == c.side && l.at == c.at && !IsRed(l.sibling) && Deficient(l, t)
            && SameEntries(l, t, c, t)
  {
    assert Balances(c.up, BlackHeight(t) + 2);
    LoweredEntries(Repainted(c, true, false), t);
    RepaintedNodes(c, true, false);
  }

  /** The near nephew takes the place of the sibling. */
  function NephewTurned(c: Context): Context
    requires c.Below? && c.sibling.Node? && Sub(c.sibling, c.side).Node?
  {
    c.(sibling := Rotated(Opposite(c.side), NephewBlack(c.sibling, c.side, true)))
  }

  lemma {:induction false} TurnedNephew(c: Context, t: Shape)
    requires Deficient(c, t) && c.Below? && c.sibling.Node? && !IsRed(c.sibling)
    requires IsRed(Sub(c.sibling, c.side)) && !IsRed(Sub(c.sibling, Opposite(c.side)))
    ensures var l := NephewTurned(c);
            && l.sibling.Node? && !IsRed(l.sibling) && IsRed(Sub(l.sibling, Opposite(l.side))) && Deficient(l, t)
            && SameEntries(l, t, c, t)
  {
    var r := NephewBlack(c.sibling, c.side, true);
    RotatedEntries(Opposite(c.side), r);
    RotatedNodes(Opposite(c.side), r);
    NephewBlackSame(c.sibling, c.side, true);
    var (s, near, far) := (c.sibling, Sub(c.sibling, c.side), Sub(c.sibling, Opposite(c.side)));
    RotatedOuter(c.side, Sub(near, c.side), near.at, near.key, Sub(near, Opposite(c.side)), s.at, s.key, far);
    Unjoin(c.side, near);
    assert Balanced(near) && Balanced(far);
    assert Balanced(Join(c.side, Sub(near, Opposite(c.side)), s.at, s.key, true, far));
    assert Balanced(NephewTurned(c).sibling);
  }

  /** The rotation that ends the loop. */
  function SiblingLifted(c: Context): Context
    requires c.Below? && c.sibling.Node? && Sub(c.sibling, Opposite(c.side)).Node?
  {
    Lowered(c.(red := false, sibling := NephewBlack(c.sibling, Opposite(c.side), c.red)))
  }

  lemma {:induction false} FinishedRemoval(c: Context, t: Shape)
    requires Deficient(c, t) && c.Below? && c.sibling.Node? && !IsRed(c.sibling)
    requires IsRed(Sub(c.sibling, Opposite(c.side))) && !IsRed(t)
    ensures RedBlack(Plug(SiblingLifted(c), t)) && SameEntries(SiblingLifted(c), t, c, t)
  {
    var s := NephewBlack(c.sibling, Opposite(c.side), c.red);
    NephewBlackSame(c.sibling, Opposite(c.side), c.red);
    var b := c.(red := false, sibling := s);
    LoweredEntries(b, t);
    assert Balances(c.up, BlackHeight(t) + 1 + if c.red then 0 else 1);
    var l := SiblingLifted(c);
    var (near, far) := (Sub(c.sibling, c.side), Sub(c.sibling, Opposite(c.side)));
    assert l.sibling == near && l.up.sibling == far.(red := false);
    assert Balanced(near) && Balanced(far) && BlackHeight(near) == BlackHeight(t) == BlackHeight(far);
    assert Balanced(Join(l.side, t, l.at, l.key, l.red, l.sibling));
    PlugBalanced(l.up, Join(l.side, t, l.at, l.key, l.red, l.sibling));
  }

  lemma {:induction false} ReddenedSibling(c: Context, t: Shape)
    requires Deficient(c, t) && c.Below? && c.sibling.Node? && !IsRed(c.sibling) && !IsRed(t)
    requires !IsRed(c.sibling.left) && !IsRed(c.sibling.right)
    ensures var t' := Join(c.side, t, c.at, c.key, c.red, c.sibling.(red := true));
            && t'.Node? && t'.red == c.red && SameEntries(c.up, t', c, t)
            && if c.red then RedBlack(Plug(c.up, t'.(red := false))) else Deficient(c.up, t')
  {
    var s := c.sibling.(red := true);
    assert Entries(s) == Entries(c.sibling) && Nodes(s) == Nodes(c.sibling);
    assert Balanced(s) && BlackHeight(s) == BlackHeight(t);
    assert Balanced(Join(c.side, t, c.at, c.key, false, s));
    AscendEntries(c, t);
    if c.red {
      PlugBalanced(c.up, Join(c.side, t, c.at, c.key, false, s));
    }
  }

  lemma {:induction false} AppendBalances(d: Context, c: Context, c': Context, h: nat)
    requires c.Below? && c'.Below? && c' == c.(at := c'.at, key := c'.key) && Balances(Append(d, c), h)
    ensures Balances(Append(d, c'), h)
  {
    match d
    case Top =>
    case Below(up, _, _, _, red, _) => AppendBalances(up, c, c', h + if red then 0 else 1);
  }

  /** `es` with the entry of `t` taken out of the tree that `t` completes. */
  ghost predicate CutsOut(es: seq<Entry>, c: Context, t: Shape)
    requires t.Node?
  {
    es == Before(c) + (Entries(t.left) + Entries(t.right)) + After(c)
  }

  lemma {:induction false} CutsOutOne(es: seq<Entry>, c: Context, t: Shape)
    requires t.Node? && CutsOut(es, c, t) && Sorted(Entries(Plug(c, t)))
    ensures Removed(Entries(Plug(c, t)), es, Entry(t.key, t.at)) && Sorted(es)
  {
    PlugEntries(c, t);
    TakeOut(Before(c), Entries(t.left), Entry(t.key, t.at), Entries(t.right), After(c));
  }

  lemma TakeOut(b: seq<Entry>, l: seq<Entry>, e: Entry, r: seq<Entry>, a: seq<Entry>)
    requires Sorted(b + (l + [e] + r) + a)
    ensures Removed(b + (l + [e] + r) + a, b + (l + r) + a, e) && Sorted(b + (l + r) + a)
  {
    var whole, es, k := b + (l + [e] + r) + a, b + (l + r) + a, |b| + |l|;
    assert whole[k] == e;
    assert es == whole[..k] + whole[k + 1..];
    forall i, j | 0 <= i < j < |es| ensures es[i].key < es[j].key {
      assert es[i] == whole[if i < k then i else i + 1] && es[j] == whole[if j < k then j else j + 1];
    }
  }

  /** Where the tree misses a black node once a node with at most one subtree `u` is bypassed. */
  lemma {:induction false} BypassPoint(c: Context, t: Shape, u: Shape)
    requires RedBlack(Plug(c, t)) && t.Node?
    requires (t.left == Leaf && u == t.right) || (t.right == Leaf && u == t.left)
    ensures Balanced(u) && Balances(c, BlackHeight(u) + if t.red then 0 else 1) && (t.red ==> !IsRed(u))
    ensures CutsOut(Before(c) + Entries(u) + After(c), c, t)
    ensures Distinct(t) && Nodes(t) !! ContextNodes(c) ==>
              ContextNodes(c) + Nodes(u) == ContextNodes(c) + Nodes(t) - {t.at}
  {
    UnplugBalanced(c, t);
    assert Entries(t.left) + Entries(t.right) == Entries(u);
  }

  /** The same when the leftmost node `m` of the right subtree takes the place of `t`. */
  lemma {:induction false} SuccessorPoint(c: Context, t: Shape, d: Context, m: Shape)
    requires RedBlack(Plug(c, t)) && t.Node? && t.right == Plug(d, m) && m.Node? && m.left == Leaf && Before(d) == []
    ensures var (b, u) := (Append(d, Below(c, Right, m.at, m.key, t.red, t.left)), m.right);
            && Balanced(u) && Balances(b, BlackHeight(u) + if m.red then 0 else 1) && (m.red ==> !IsRed(u))
            && CutsOut(Before(b) + Entries(u) + After(b), c, t)
  {
    var base, base' := Below(c, Right, t.at, t.key, t.red, t.left), Below(c, Right, m.at, m.key, t.red, t.left);
    var u := m.right;
    AppendPlug(d, base, m);
    UnplugBalanced(Append(d, base), m);
    AppendBalances(d, base, base', BlackHeight(m));
    AppendPlug(d, base', u);
    PlugEntries(Append(d, base'), u);
    PlugEntries(base', Plug(d, u));
    PlugEntries(d, u);
    PlugEntries(d, m);
    SuccessorEntries(c, t, d, m);
  }

  lemma SuccessorNodes(c: Context, t: Shape, d: Context, m: Shape)
    requires t.Node? && t.right == Plug(d, m) && m.Node? && m.left == Leaf && Distinct(t) && Nodes(t) !! ContextNodes(c)
    ensures m.at in Nodes(t.right) && m.at != t.at && m.at in Nodes(t)
    ensures m.at !in Nodes(t.left) && m.at !in ContextNodes(c)
    ensures m.at !in Nodes(Plug(d, m.right)) && m.at !in Nodes(m.right) && Nodes(m.right) <= Nodes(t.right)
    ensures Nodes(Plug(d, m.right)) <= Nodes(t.right) && Distinct(Plug(d, m.right)) && Distinct(m.right)
    ensures d.Below? ==> Plug(d, m.right).Node? && t.right.Node? && Plug(d, m.right).at == t.right.at
  {
    hide Distinct, DistinctContext, Nodes, ContextNodes;
    JoinShape(Left, t.left, t.at, t.key, t.red, t.right);
    JoinShape(Left, m.left, m.at, m.key, m.red, m.right);
    SameRoot(d, m, m.right);
    PlugNodes(d, m);
    PlugNodes(d, m.right);
    PlugDistinct(d, m);
    PlugDistinct(d, m.right);
  }

  lemma SuccessorContext(c: Context, t: Shape, d: Context, m: Shape)
    requires t.Node? && t.right == Plug(d, m) && m.Node? && m.left == Leaf && Distinct(t) && Nodes(t) !! ContextNodes(c)
    ensures ContextNodes(Append(d, Below(c, Right, t.at, t.key, t.red, t.left))) + Nodes(m) ==
            ContextNodes(c) + Nodes(t)
    ensures ContextNodes(Append(d, Below(c, Right, m.at, m.key, t.red, t.left))) + Nodes(m.right)
         == ContextNodes(c) + Nodes(t) - {t.at}
  {
    hide Distinct;
    PlugNodes(d, m);
    AppendNodes(d, Below(c, Right, t.at, t.key, t.red, t.left));
    AppendNodes(d, Below(c, Right, m.at, m.key, t.red, t.left));
    JoinShape(Left, t.left, t.at, t.key, t.red, t.right);
    assert t.at !in ContextNodes(d) + Nodes(m);
    assert t.at !in Nodes(m.right);
  }

  lemma {:induction false} SameRoot(d: Context, a: Shape, b: Shape)
    ensures d.Below? ==> Plug(d, a).Node? && Plug(d, b).Node? && Plug(d, a).at == Plug(d, b).at
  {
    match d
    case Top =>
    case Below(up, side, at, key, red, sibling) =>
      SameRoot(up, Join(side, a, at, key, red, sibling), Join(side, b, at, key, red, sibling));
  }

  lemma SuccessorEntries(c: Context, t: Shape, d: Context, m: Shape)
    requires t.Node? && m.Node? && m.left == Leaf && Before(d) == []
    requires Entries(t.right) == Before(d) + Entries(m) + After(d)
    ensures var base := Below(c, Right, m.at, m.key, t.red, t.left);
            Before(base) + (Before(d) + Entries(m.right) + After(d)) + After(base)
            == Before(c) + (Entries(t.left) + Entries(t.right)) + After(c)
  {
    var e := [Entry(m.key, m.at)];
    assert Entries(m) == [] + e + Entries(m.right);
    Splice(Before(c), Entries(t.left), e, Entries(m.right), After(d), After(c));
  }

  lemma Splice(a: seq<Entry>, l: seq<Entry>, e: seq<Entry>, r: seq<Entry>, d: seq<Entry>, z: seq<Entry>)
    ensures a + (l + e) + ([] + r + d) + z == a + (l + ([] + ([] + e + r) + d)) + z
  {
  }

  /** Removing a red node leaves a red-black tree. */
  lemma {:induction false} RedRemoved(c: Context, t: Shape)
    requires Balanced(t) && !IsRed(t) && Balances(c, BlackHeight(t))
    ensures RedBlack(Plug(c, t))
  {
    PlugBalanced(c, t);
  }

  /** A red root under the gap makes up for the missing black node. */
  lemma {:induction false} PaintedOver(c: Context, t: Shape)
    requires Deficient(c, t) && IsRed(t)
    ensures RedBlack(Plug(c, t.(red := false)))
    ensures SameEntries(c, t.(red := false), c, t)
  {
    PlugBalanced(c, t.(red := false));
  }

  lemma UnpaintedRoot(t: Shape)
    requires Balanced(t) && !IsRed(t)
    ensures RedBlack(Plug(Top, Blackened(t)))
  {
  }

  lemma {:induction false} SettledEntries(c: Context, t: Shape)
    ensures SameEntries(Top, Plug(c, t), c, t)
  {
    PlugEntries(c, t);
    PlugNodes(c, t);
  }

  /** `if (node) node->red = false` */
  function Blackened(t: Shape): Shape {
    match t
    case Leaf => Leaf
    case Node(_, _, _, _, _) => t.(red := false)
  }

  lemma RepaintedRoot(c: Context, t: Shape)
    ensures SameEntries(c, Blackened(t), c, t)
  {
  }
}
