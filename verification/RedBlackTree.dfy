/** wepoll's intrusive red-black tree: `tree_add`, `tree_del` and `tree_find` on linked nodes.

    The macros of the C file that are expanded once for each direction take a `side` here. */
module RedBlackTree {
  import opened TreeShape

  function Child(n: TreeNode, side: Side): TreeNode?
    reads n
  {
    if side == Left then n.left else n.right
  }

  /** The nodes reachable from `n`, whose parent is `p`, are linked as `t` says. */
  ghost predicate Linked(t: Shape, n: TreeNode?, p: TreeNode?)
    reads Nodes(t)
  {
    match t
    case Leaf => n == null
    case Node(l, at, key, red, r) =>
      n == at && at.parent == p && at.key == key && at.red == red
      && Linked(l, at.left, at) && Linked(r, at.right, at)
  }

  lemma LinkedRoot(t: Shape, n: TreeNode?, p: TreeNode?)
    requires Linked(t, n, p)
    ensures if n == null then t == Leaf else t.Node? && n == t.at && n in Nodes(t) && n.parent == p
  {
  }

  lemma RootColour(t: Shape, n: TreeNode?, p: TreeNode?)
    requires Linked(t, n, p)
    ensures IsRed(t) == (n != null && n.red)
  {
  }

  lemma JoinLinked(side: Side, cis: Shape, at: TreeNode, key: nat, red: bool, trans: Shape, n: TreeNode?, p: TreeNode?)
    ensures Linked(Join(side, cis, at, key, red, trans), n, p)
       <==> n == at && at.parent == p && at.key == key && at.red == red
            && Linked(cis, Child(at, side), at) && Linked(trans, Child(at, Opposite(side)), at)
  {
  }

  /** `tree_t` */
  class Tree {
    var root: TreeNode?
    ghost var shape: Shape

    /** `tree_init` */
    constructor ()
      ensures Valid() && Entries(shape) == []
    {
      root := null;
      shape := Leaf;
    }

    /** Pointer `n`, stored under parent `p`, fills the hole of `c` in this tree. */
    ghost predicate Holds(c: Context, n: TreeNode?, p: TreeNode?)
      reads this`root, ContextNodes(c)
    {
      match c
      case Top => p == null && root == n
      case Below(up, side, at, key, red, sibling) =>
        p == at && Child(at, side) == n && at.key == key && at.red == red
        && Linked(sibling, Child(at, Opposite(side)), at) && Holds(up, at, at.parent)
    }

    /** The tree is `t`, rooted at `n` below `p`, in the hole of `c`. */
    ghost predicate IsAt(c: Context, t: Shape, n: TreeNode?, p: TreeNode?)
      reads this`root, ContextNodes(c), Nodes(t)
    {
      Linked(t, n, p) && Holds(c, n, p) && Distinct(t) && DistinctContext(c) && Nodes(t) !! ContextNodes(c)
    }

    lemma Zip(c: Context, t: Shape, n: TreeNode?, p: TreeNode?)
      requires IsAt(c, t, n, p)
      ensures IsAt(Top, Plug(c, t), root, null)
      decreases c
    {
      match c
      case Top =>
      case Below(up, side, at, key, red, sibling) =>
        Zip(up, Join(side, t, at, key, red, sibling), at, at.parent);
    }

    /** Where `old` hung below `parent`, or at the root, `new_` hangs now. */
    method Replace(parent: TreeNode?, was: TreeNode, now: TreeNode?, ghost c: Context)
      requires Holds(c, was, parent) && DistinctContext(c) && was !in ContextNodes(c)
      modifies this`root, ContextNodes(c)`left, ContextNodes(c)`right
      ensures Holds(c, now, parent)
    {
      if parent != null {
        if parent.left == was {
          parent.left := now;
        } else {
          parent.right := now;
        }
      } else {
        root := now;
      }
    }

    /** Makes `p` the parent of subtree `t`, which `n` roots unless it is empty. */
    method Adopt(p: TreeNode?, n: TreeNode?, ghost t: Shape, ghost q: TreeNode?)
      requires Linked(t, n, q) && Distinct(t)
      modifies (if n == null then {} else {n})`parent
      ensures Linked(t, n, p)
    {
      assert t.Node? ==> allocated(Nodes(t.left)) && allocated(Nodes(t.right));
      if n != null {
        n.parent := p;
      }
    }

    /** `tree__rotate_left` and `tree__rotate_right` */
    method Rotate(node: TreeNode, side: Side, ghost c: Context, ghost t: Shape)
      requires t.Node? && Sub(t, Opposite(side)).Node?
      requires IsAt(c, t, node, node.parent)
      modifies this`root, Nodes(t), ContextNodes(c)
      ensures IsAt(c, Rotated(side, t), Rotated(side, t).at, Rotated(side, t).at.parent)
    {
      hide Join, Linked, Distinct, Nodes, Sub, Entries;
      ghost var a, tq := Sub(t, side), Sub(t, Opposite(side));
      ghost var b, d := Sub(tq, side), Sub(tq, Opposite(side));
      Unjoin(side, t);
      Unjoin(side, tq);
      JoinShape(side, a, t.at, t.key, t.red, tq);
      JoinShape(side, b, tq.at, tq.key, tq.red, d);
      JoinLinked(side, a, t.at, t.key, t.red, tq, node, node.parent);
      JoinLinked(side, b, tq.at, tq.key, tq.red, d, tq.at, node);
      assert allocated(Nodes(a)) && allocated(Nodes(b)) && allocated(Nodes(d)) && allocated(ContextNodes(c));
      LinkedRoot(tq, Child(node, Opposite(side)), node);

      var p := node;
      var q := Child(node, Opposite(side));
      var parent := p.parent;
      Replace(parent, p, q, c);
      RotateInner(p, q, side, parent, a, b, d);
      ghost var pp := Join(side, a, p, t.key, t.red, b);
      JoinLinked(side, a, p, t.key, t.red, b, p, q);
      JoinLinked(side, pp, q, tq.key, tq.red, d, q, parent);
      RotatedNodes(side, t);
      JoinShape(side, pp, q, tq.key, tq.red, d);
      assert Rotated(side, t) == Join(side, pp, q, tq.key, tq.red, d);
      assert Linked(Rotated(side, t), q, parent);
      assert Holds(c, q, parent);
    }

    /** The part of a rotation below `parent`: `b` moves from `q` to `p`. */
    method RotateInner(p: TreeNode, q: TreeNode, side: Side, parent: TreeNode?, ghost a: Shape, ghost b: Shape,
                       ghost d: Shape)
      requires p != q && p !in Nodes(a) + Nodes(b) + Nodes(d) && q !in Nodes(a) + Nodes(b) + Nodes(d)
      requires Nodes(a) !! Nodes(b) && Nodes(b) !! Nodes(d) && Distinct(b)
      requires Child(p, Opposite(side)) == q && Linked(a, Child(p, side), p)
      requires Linked(b, Child(q, side), q) && Linked(d, Child(q, Opposite(side)), q)
      modifies p`left, p`right, p`parent, q`left, q`right, q`parent, Nodes(b)`parent
      ensures q.parent == parent && p.parent == q && Child(q, side) == p
      ensures Linked(a, Child(p, side), p) && Linked(b, Child(p, Opposite(side)), p)
      ensures Linked(d, Child(q, Opposite(side)), q)
    {
      hide Linked, Distinct, Nodes;
      assert allocated(Nodes(a)) && allocated(Nodes(b)) && allocated(Nodes(d));
      var r := Child(q, side);
      LinkedRoot(b, r, q);
      q.parent := parent;
      p.parent := q;
      if side == Left {
        p.right := r;
      } else {
        p.left := r;
      }
      Adopt(p, r, b, q);
      if side == Left {
        q.left := p;
      } else {
        q.right := p;
      }
    }

    /** The tree is well linked, balanced and in search order. */
    ghost predicate Valid()
      reads this, Nodes(shape)
    {
      IsAt(Top, shape, root, null) && RedBlack(shape) && Sorted(Entries(shape))
    }

    // ---- Moving the cut between a subtree and its context ----

    lemma Ascend(c: Context, t: Shape, n: TreeNode?, p: TreeNode?)
      requires IsAt(c, t, n, p) && c.Below?
      ensures p == c.at && IsAt(c.up, Join(c.side, t, c.at, c.key, c.red, c.sibling), p, p.parent)
      ensures Child(p, c.side) == n
      ensures n != null ==> Child(p, Opposite(c.side)) != n
    {
      JoinShape(c.side, t, c.at, c.key, c.red, c.sibling);
      JoinLinked(c.side, t, c.at, c.key, c.red, c.sibling, c.at, c.at.parent);
      LinkedRoot(t, n, p);
      LinkedRoot(c.sibling, Child(p, Opposite(c.side)), p);
    }

    lemma HoldsParent(c: Context, t: Shape, n: TreeNode?, p: TreeNode?)
      requires IsAt(c, t, n, p)
      ensures if p == null then c == Top else c.Below? && p == c.at && c.red == p.red && p in ContextNodes(c)
    {
    }

    lemma Descend(c: Context, t: Shape, n: TreeNode, p: TreeNode?, side: Side)
      requires IsAt(c, t, n, p)
      ensures t.Node? && n == t.at && n.parent == p && n.key == t.key && n.red == t.red
      ensures IsAt(Below(c, side, n, t.key, t.red, Sub(t, Opposite(side))), Sub(t, side), Child(n, side), n)
    {
      LinkedRoot(t, n, p);
      Unjoin(side, t);
      JoinShape(side, Sub(t, side), t.at, t.key, t.red, Sub(t, Opposite(side)));
      JoinLinked(side, Sub(t, side), t.at, t.key, t.red, Sub(t, Opposite(side)), n, p);
    }

    method Paint(n: TreeNode, red: bool, ghost c: Context, ghost t: Shape)
      requires t.Node? && IsAt(c, t, n, n.parent)
      modifies n`red
      ensures IsAt(c, t.(red := red), n, n.parent)
    {
      hide Holds, Distinct, DistinctContext, ContextNodes;
      assert allocated(Nodes(t.left)) && allocated(Nodes(t.right)) && allocated(ContextNodes(c));
      JoinShape(Left, t.left, t.at, t.key, t.red, t.right);
      JoinShape(Left, t.left, t.at, t.key, red, t.right);
      assert n !in ContextNodes(c);
      n.red := red;
    }

    // ---- tree_add ----

    /** The macro `TREE__REBALANCE_AFTER_INSERT(cis, trans)` */
    method RebalanceAfterInsert(n: TreeNode, p: TreeNode, cis: Side, ghost c: Context, ghost t: Shape)
      returns (node: TreeNode, ghost c': Context, ghost t': Shape)
      requires IsAt(c, t, n, p) && InsertionPoint(c, t) && c.Below? && c.red && cis == c.up.side
      modifies this`root, Nodes(t), ContextNodes(c)
      ensures IsAt(c', t', node, node.parent) && InsertionPoint(c', t')
      ensures SameEntries(c', t', c, t)
      ensures c'.Below? && c'.red ==> Length(c') < Length(c)
    {
      hide Linked, Holds, Distinct, DistinctContext, Nodes, Rotated;
      node := n;
      var parent := p;
      var trans := Opposite(cis);
      var grandparent := parent.parent;
      ghost var _, tg := UncleAt(c, t, n, p);
      var uncle := Child(grandparent, trans);
      if uncle != null && uncle.red {
        PaintThree(parent, uncle, grandparent, cis, c.up.up, tg);
        node := grandparent;
        c', t' := c.up.up, Recolored(tg);
        RecoloredBalanced(c, t);
      } else {
        c', t' := c, t;
        Ascend(c, t, n, p);
        if node == Child(parent, trans) {
          OutwardPoint(c, t);
          c', t' := TurnOutward(node, parent, cis, c, t);
          node := parent;
          parent := node.parent;
        }
        LiftedPoint(c', t');
        c' := RotateGrandparent(node, parent, grandparent, cis, c', t');
      }
    }

    /** Makes the red node and its red parent lean the same way. */
    method TurnOutward(n: TreeNode, p: TreeNode, cis: Side, ghost c: Context, ghost t: Shape)
      returns (ghost c': Context, ghost t': Shape)
      requires IsAt(c, t, n, p) && InsertionPoint(c, t) && c.Below? && c.red && c.side == Opposite(cis)
      modifies this`root, Nodes(t), ContextNodes(c)
      ensures c' == OutwardContext(c, t) && t' == OutwardShape(c, t)
      ensures p.parent == n && IsAt(c', t', p, n)
    {
      hide Linked, Holds, Distinct, DistinctContext, Nodes, InsertionPoint;
      Ascend(c, t, n, p);
      ghost var tp := Join(c.side, t, c.at, c.key, c.red, c.sibling);
      JoinShape(c.side, t, c.at, c.key, c.red, c.sibling);
      Descend(c, t, n, p, cis);
      Rotate(p, cis, c.up, tp);
      c' := OutwardContext(c, t);
      t' := OutwardShape(c, t);
      JoinShape(cis, t', n, t.key, t.red, Sub(t, Opposite(cis)));
      Descend(c.up, Rotated(cis, tp), n, n.parent, cis);
      LinkedRoot(t', Child(n, cis), n);
    }

    method RotateGrandparent(n: TreeNode, p: TreeNode, g: TreeNode, cis: Side, ghost c: Context, ghost t: Shape)
      returns (ghost c': Context)
      requires IsAt(c, t, n, p) && InsertionPoint(c, t) && c.Below? && c.red && c.side == cis
      requires c.up.Below? && g == c.up.at && c.up.side == cis && !IsRed(c.up.sibling)
      modifies this`root, Nodes(t), ContextNodes(c)
      ensures c' == Lifted(c) && n.parent == p && IsAt(c', t, n, p)
    {
      hide Linked, Holds, Distinct, DistinctContext, Nodes, Rotated;
      LinkedRoot(t, n, p);
      Ascend(c, t, n, p);
      ghost var tp := Join(cis, t, p, c.key, c.red, c.sibling);
      JoinShape(cis, t, p, c.key, c.red, c.sibling);
      Ascend(c.up, tp, p, p.parent);
      Paint(p, false, c.up, tp);
      ghost var bp := Join(cis, t, p, c.key, false, c.sibling);
      JoinShape(cis, t, p, c.key, false, c.sibling);
      assert bp == tp.(red := false);
      Ascend(c.up, bp, p, g);
      ghost var tg := Join(cis, bp, g, c.up.key, c.up.red, c.up.sibling);
      JoinShape(cis, bp, g, c.up.key, c.up.red, c.up.sibling);
      Paint(g, true, c.up.up, tg);
      ghost var rg := Join(cis, bp, g, c.up.key, true, c.up.sibling);
      JoinShape(cis, bp, g, c.up.key, true, c.up.sibling);
      assert rg == tg.(red := true);
      Rotate(g, Opposite(cis), c.up.up, rg);
      c' := Lifted(c);
      RotatedOuter(cis, t, p, c.key, c.sibling, g, c.up.key, c.up.sibling);
      Descend(c.up.up, Rotated(Opposite(cis), rg), p, p.parent, cis);
      JoinShape(cis, t, p, c.key, false, c'.sibling);
      LinkedRoot(t, Child(p, cis), p);
    }

    /** From a red node under a red parent to the grandparent and the uncle. */
    lemma UncleAt(c: Context, t: Shape, n: TreeNode, p: TreeNode) returns (cis: Side, tg: Shape)
      requires IsAt(c, t, n, p) && InsertionPoint(c, t) && c.Below? && c.red
      ensures cis == c.up.side
      ensures tg == Grand(c, t) && p.parent == c.up.at
      ensures IsAt(c.up.up, tg, p.parent, p.parent.parent)
      ensures Child(p.parent, cis) == p && Child(p.parent, Opposite(cis)) != p
      ensures var uncle := Child(p.parent, Opposite(cis));
              if uncle == null then c.up.sibling == Leaf
              else c.up.sibling.Node? && c.up.sibling.at == uncle && c.up.sibling.red == uncle.red
                   && uncle in ContextNodes(c)
      ensures p in ContextNodes(c) && p.parent in ContextNodes(c)
    {
      hide Linked, Holds, Distinct, DistinctContext, Nodes, Rotated;
      cis := c.up.side;
      Ascend(c, t, n, p);
      var tp := Join(c.side, t, c.at, c.key, c.red, c.sibling);
      Ascend(c.up, tp, p, p.parent);
      tg := Grand(c, t);
      assert p in ContextNodes(c) && p.parent in ContextNodes(c);
      Descend(c.up.up, tg, p.parent, p.parent.parent, Opposite(cis));
      JoinShape(cis, tp, c.up.at, c.up.key, c.up.red, c.up.sibling);
      LinkedRoot(c.up.sibling, Child(p.parent, Opposite(cis)), p.parent);
      if Child(p.parent, Opposite(cis)) != null {
        ghost var below := Below(c.up.up, Opposite(cis), p.parent, tg.key, tg.red, tp);
        Descend(below, c.up.sibling, c.up.sibling.at, p.parent, Left);
      }
    }

    /** Both children of `g` turn black and `g` turns red. */
    method PaintThree(parent: TreeNode, uncle: TreeNode, g: TreeNode, cis: Side, ghost c: Context, ghost t: Shape)
      requires IsAt(c, t, g, g.parent) && Child(g, cis) == parent && Child(g, Opposite(cis)) == uncle
      modifies parent`red, uncle`red, g`red
      ensures t.Node? && t.left.Node? && t.right.Node? && IsAt(c, Recolored(t), g, g.parent)
    {
      hide Linked, Holds, Distinct, DistinctContext, Nodes, Rotated, IsAt;
      Descend(c, t, g, g.parent, Opposite(cis));
      ghost var cu := Below(c, Opposite(cis), g, t.key, t.red, Sub(t, cis));
      ghost var tu := Sub(t, Opposite(cis));
      Descend(cu, tu, uncle, g, Left);
      Paint(uncle, false, cu, tu);
      ghost var t1 := Join(Opposite(cis), tu.(red := false), g, t.key, t.red, Sub(t, cis));
      Ascend(cu, tu.(red := false), uncle, g);
      Descend(c, t1, g, g.parent, cis);
      ghost var cp := Below(c, cis, g, t.key, t.red, tu.(red := false));
      ghost var tp := Sub(t, cis);
      Descend(cp, tp, parent, g, Left);
      Paint(parent, false, cp, tp);
      Ascend(cp, tp.(red := false), parent, g);
      Paint(g, true, c, Join(cis, tp.(red := false), g, t.key, t.red, tu.(red := false)));
    }

    /** Puts `node` into the empty place below `parent` on `side`, or at the root. */
    method Hang(node: TreeNode, key: nat, parent: TreeNode?, side: Side, ghost c: Context)
      requires IsAt(c, Leaf, null, parent) && node !in ContextNodes(c) && (c.Below? ==> c.side == side)
      modifies this`root, node, ContextNodes(c)`left, ContextNodes(c)`right
      ensures node.parent == parent && IsAt(c, Node(Leaf, node, key, true, Leaf), node, parent)
    {
      assert allocated(ContextNodes(c));
      assert c.Below? ==> allocated(ContextNodes(c.up)) && allocated(Nodes(c.sibling));
      if parent == null {
        root := node;
      } else if side == Left {
        parent.left := node;
      } else {
        parent.right := node;
      }
      node.key := key;
      node.left, node.right := null, null;
      node.parent := parent;
      node.red := true;
    }

    /** The descent of `tree_add`, up to where the new node is coloured red. */
    method Place(node: TreeNode, key: nat) returns (ok: bool, ghost c: Context)
      requires Valid() && node !in Nodes(shape)
      modifies this`root, node, Nodes(shape)`left, Nodes(shape)`right
      ensures ok == !HasKey(old(Entries(shape)), key)
      ensures ok ==> IsAt(c, Node(Leaf, node, key, true, Leaf), node, node.parent) && Plug(c, Leaf) == shape
                     && KeysBelow(Before(c), key) && KeysAbove(After(c), key)
      ensures !ok ==> Valid() && root == old(root) && unchanged(node)
    {
      hide Linked, Holds, Distinct, DistinctContext, Nodes, Entries, RedBlack;
      var parent := root;
      c := Top;
      ghost var t := shape;
      LinkedRoot(t, root, null);
      if parent == null {
        NoKeyAtHole(Top, key);
        assert Plug(Top, Leaf) == shape;
        Hang(node, key, null, Left, Top);
        return true, Top;
      }
      while true
        invariant parent != null && IsAt(c, t, parent, parent.parent) && Plug(c, t) == shape
        invariant KeysBelow(Before(c), key) && KeysAbove(After(c), key)
        invariant root == old(root) && unchanged(node)
        decreases t
      {
        Descend(c, t, parent, parent.parent, Left);
        PlugNodes(c, t);
        if key < parent.key {
          KeyLeft(c, t, key);
          c, t := Below(c, Left, parent, t.key, t.red, t.right), t.left;
          LinkedRoot(t, parent.left, parent);
          if parent.left != null {
            parent := parent.left;
          } else {
            NoKeyAtHole(c, key);
            PlugNodes(c, t);
            Hang(node, key, parent, Left, c);
            return true, c;
          }
        } else if key > parent.key {
          Descend(c, t, parent, parent.parent, Right);
          KeyRight(c, t, key);
          c, t := Below(c, Right, parent, t.key, t.red, t.left), t.right;
          LinkedRoot(t, parent.right, parent);
          if parent.right != null {
            parent := parent.right;
          } else {
            NoKeyAtHole(c, key);
            PlugNodes(c, t);
            Hang(node, key, parent, Right, c);
            return true, c;
          }
        } else {
          KeyHere(c, t);
          Zip(c, t, parent, parent.parent);
          return false, c;
        }
      }
    }

    /** `tree_add` */
    method Add(node: TreeNode, key: nat) returns (r: int)
      requires Valid() && node !in Nodes(shape)
      modifies this, node, Nodes(shape)
      ensures Valid()
      ensures r == if HasKey(old(Entries(shape)), key) then -1 else 0
      ensures r == -1 ==> shape == old(shape) && root == old(root) && unchanged(node)
      ensures r == 0 ==> Inserted(old(Entries(shape)), Entries(shape), Entry(key, node))
                         && Nodes(shape) == old(Nodes(shape)) + {node}
    {
      hide Linked, Holds, Distinct, DistinctContext, Nodes, Entries, Inserted, Sorted, RedBlack, Balanced, Balances;
      var ok; ghost var c;
      ok, c := Place(node, key);
      if !ok {
        return -1;
      }
      ghost var t := Node(Leaf, node, key, true, Leaf);
      PlacedPoint(c, t, key);
      ghost var c0, t0 := c, t;
      var at, parent := node, node.parent;
      HoldsParent(c, t, at, parent);
      while parent != null && parent.red
        invariant IsAt(c, t, at, parent) && at.parent == parent && InsertionPoint(c, t)
        invariant SameEntries(c, t, c0, t0) && ContextNodes(c0) + Nodes(t0) == old(Nodes(shape)) + {node}
        invariant parent != null <==> c.Below?
        invariant c.Below? ==> c.red == parent.red
        decreases if c.Below? && c.red then Length(c) else 0
      {
        ghost var cis, _ := UncleAt(c, t, at, parent);
        if parent == parent.parent.left {
          at, c, t := RebalanceAfterInsert(at, parent, Left, c, t);
        } else {
          at, c, t := RebalanceAfterInsert(at, parent, Right, c, t);
        }
        parent := at.parent;
        HoldsParent(c, t, at, parent);
      }
      AddedPoint(c, t);
      Zip(c, t, at, parent);
      PlugNodes(c, t);
      shape := Plug(c, t);
      LinkedRoot(shape, root, null);
      assert root in old(Nodes(shape)) + {node};
      Paint(root, false, Top, shape);
      shape := shape.(red := false);
      return 0;
    }

    // ---- Working on the far side of the parent ----

    /** From a subtree to its sibling; applied twice it comes back. */
    lemma Cross(c: Context, t: Shape, n: TreeNode?, p: TreeNode?)
      requires IsAt(c, t, n, p) && c.Below?
      ensures p == c.at && Child(p, c.side) == n && p.key == c.key && p.red == c.red && p in ContextNodes(c)
      ensures IsAt(Across(c, t), c.sibling, Child(p, Opposite(c.side)), p)
    {
      Ascend(c, t, n, p);
      var tp := Join(c.side, t, c.at, c.key, c.red, c.sibling);
      JoinShape(c.side, t, c.at, c.key, c.red, c.sibling);
      Descend(c.up, tp, p, p.parent, Opposite(c.side));
    }

    method PaintParent(red: bool, ghost c: Context, ghost t: Shape, n: TreeNode?, p: TreeNode)
      requires IsAt(c, t, n, p) && c.Below?
      modifies p`red
      ensures IsAt(c.(red := red), t, n, p)
    {
      hide Linked, Holds, Distinct, DistinctContext, Nodes;
      Ascend(c, t, n, p);
      ghost var tp := Join(c.side, t, c.at, c.key, c.red, c.sibling);
      Paint(p, red, c.up, tp);
      JoinShape(c.side, t, c.at, c.key, red, c.sibling);
      Descend(c.up, tp.(red := red), p, p.parent, c.side);
    }

    method PaintSibling(red: bool, ghost c: Context, ghost t: Shape, n: TreeNode?, p: TreeNode, s: TreeNode)
      requires IsAt(c, t, n, p) && c.Below? && c.sibling.Node? && s == Child(p, Opposite(c.side))
      modifies s`red
      ensures IsAt(c.(sibling := c.sibling.(red := red)), t, n, p)
    {
      hide Linked, Holds, Distinct, DistinctContext, Nodes;
      Cross(c, t, n, p);
      ghost var x := Across(c, t);
      Descend(x, c.sibling, s, p, Left);
      Paint(s, red, x, c.sibling);
      Cross(x, c.sibling.(red := red), s, p);
    }

    method PaintNephew(side: Side, ghost c: Context, ghost t: Shape, n: TreeNode?, p: TreeNode, s: TreeNode,
                       f: TreeNode)
      requires IsAt(c, t, n, p) && c.Below? && c.sibling.Node? && s == Child(p, Opposite(c.side)) && f == Child(s, side)
      requires Sub(c.sibling, side).Node?
      modifies f`red
      ensures IsAt(c.(sibling := NephewBlack(c.sibling, side, c.sibling.red)), t, n, p)
    {
      hide Linked, Holds, Distinct, DistinctContext, Nodes;
      Cross(c, t, n, p);
      ghost var x := Across(c, t);
      Descend(x, c.sibling, s, p, side);
      ghost var y := Below(x, side, s, c.sibling.key, c.sibling.red, Sub(c.sibling, Opposite(side)));
      PaintBlackAbove(side, y, Sub(c.sibling, side), f, s);
      Cross(x, NephewBlack(c.sibling, side, c.sibling.red), s, p);
    }

    method PaintBlackAbove(side: Side, ghost y: Context, ghost f: Shape, n: TreeNode, s: TreeNode)
      requires IsAt(y, f, n, s) && y.Below? && f.Node?
      modifies n`red
      ensures IsAt(y.up, Join(y.side, f.(red := false), y.at, y.key, y.red, y.sibling), s, s.parent)
    {
      hide Linked, Holds, Distinct, DistinctContext, Nodes;
      Descend(y, f, n, s, Left);
      Paint(n, false, y, f);
      Ascend(y, f.(red := false), n, s);
    }

    method RotateSibling(side: Side, ghost c: Context, ghost t: Shape, n: TreeNode?, p: TreeNode, s: TreeNode)
      requires IsAt(c, t, n, p) && c.Below? && c.sibling.Node? && s == Child(p, Opposite(c.side))
      requires Sub(c.sibling, Opposite(side)).Node?
      modifies this`root, Nodes(t), ContextNodes(c)
      ensures IsAt(c.(sibling := Rotated(side, c.sibling)), t, n, p)
    {
      hide Linked, Holds, Distinct, DistinctContext, Nodes, Rotated;
      LinkedRoot(t, n, p);
      Cross(c, t, n, p);
      ghost var x := Across(c, t);
      Descend(x, c.sibling, s, p, Left);
      Rotate(s, side, x, c.sibling);
      ghost var r := Rotated(side, c.sibling);
      RotatedNodes(side, c.sibling);
      HoldsParent(x, r, r.at, r.at.parent);
      Cross(x, r, r.at, p);
      LinkedRoot(t, Child(p, c.side), p);
    }

    method RotateParent(ghost c: Context, ghost t: Shape, n: TreeNode?, p: TreeNode, side: Side)
      requires IsAt(c, t, n, p) && c.Below? && c.sibling.Node? && side == c.side
      modifies this`root, Nodes(t), ContextNodes(c)
      ensures IsAt(Lowered(c), t, n, p)
    {
      hide Linked, Holds, Distinct, DistinctContext, Nodes, Rotated;
      LinkedRoot(t, n, p);
      Ascend(c, t, n, p);
      ghost var tp := Join(side, t, c.at, c.key, c.red, c.sibling);
      JoinShape(side, t, c.at, c.key, c.red, c.sibling);
      Rotate(p, side, c.up, tp);
      LoweredRotation(c, t);
      ghost var r := Rotated(side, tp);
      Descend(c.up, r, r.at, r.at.parent, side);
      ghost var l := Lowered(c);
      ghost var rp := Sub(r, side);
      LinkedRoot(rp, Child(r.at, side), r.at);
      Descend(l.up, rp, p, r.at, side);
      LinkedRoot(t, Child(p, side), p);
    }

    // ---- tree_del ----

    /** The macro `TREE__REBALANCE_AFTER_REMOVE(cis, trans)` with the step to the parent that follows it;
        `done` is its `break`. */
    method RebalanceAfterRemove(n: TreeNode?, p: TreeNode, cis: Side, ghost c: Context, ghost t: Shape)
      returns (done: bool, ghost c': Context, ghost t': Shape)
      requires IsAt(c, t, n, p) && Deficient(c, t) && !IsRed(t) && c.Below? && c.side == cis
      modifies this`root, Nodes(t), ContextNodes(c)
      ensures SameEntries(c', t', c, t)
      ensures done ==> IsAt(Top, Plug(c', t'), root, null) && RedBlack(Plug(c', t'))
      ensures !done ==> IsAt(c', t', p, p.parent) && t'.Node?
      ensures !done && t'.red ==> RedBlack(Plug(c', t'.(red := false)))
      ensures !done && !t'.red ==> Deficient(c', t') && Length(c') < Length(c)
    {
      hide Linked, Holds, Distinct, DistinctContext, Nodes, Rotated, RedBlack, Balanced, BlackHeight, Entries, Plug;
      var trans := Opposite(cis);
      var parent := p;
      var sibling := Child(parent, trans);
      c', t' := c, t;
      SiblingThere(c, t, n, p);
      if sibling.red {
        LowerRedSibling(c, t);
        c' := RotateRedSibling(n, parent, sibling, cis, c, t);
        sibling := Child(parent, trans);
        SiblingThere(c', t, n, p);
      }
      NephewColour(c', t, n, p, sibling, Left);
      NephewColour(c', t, n, p, sibling, Right);
      if (sibling.left != null && sibling.left.red) || (sibling.right != null && sibling.right.red) {
        var far := Child(sibling, trans);
        if far == null || !far.red {
          TurnedNephew(c', t);
          c' := TurnNephew(n, parent, sibling, cis, c', t);
          sibling := Child(parent, trans);
          SiblingThere(c', t, n, p);
        }
        FinishedRemoval(c', t);
        c' := LiftSibling(n, parent, sibling, cis, c', t);
        Zip(c', t, n, parent);
        done := true;
      } else {
        ReddenedSibling(c', t);
        PaintSibling(true, c', t, n, parent, sibling);
        c' := c'.(sibling := c'.sibling.(red := true));
        Ascend(c', t, n, parent);
        t' := Join(c'.side, t, c'.at, c'.key, c'.red, c'.sibling);
        c' := c'.up;
        done := false;
      }
    }

    /** A removal that left a gap under `p` implies a sibling. */
    lemma SiblingThere(c: Context, t: Shape, n: TreeNode?, p: TreeNode)
      requires IsAt(c, t, n, p) && Deficient(c, t) && c.Below?
      ensures var s := Child(p, Opposite(c.side));
              && s != null && c.sibling.Node? && c.sibling.at == s && c.sibling.red == s.red
              && s in ContextNodes(c) && p in ContextNodes(c) && p == c.at && s.parent == p
      ensures Child(p, c.side) == n && Child(p, Opposite(c.side)) != n
    {
      hide Linked, Holds, Distinct, DistinctContext, Nodes;
      Ascend(c, t, n, p);
      assert BlackHeight(c.sibling) == BlackHeight(t) + 1;
      Cross(c, t, n, p);
      LinkedRoot(c.sibling, Child(p, Opposite(c.side)), p);
      Descend(Across(c, t), c.sibling, c.sibling.at, p, Left);
      InSibling(c);
    }

    lemma InSibling(c: Context)
      requires c.Below? && c.sibling.Node?
      ensures c.sibling.at in ContextNodes(c)
    {
    }

    lemma NephewColour(c: Context, t: Shape, n: TreeNode?, p: TreeNode, s: TreeNode, side: Side)
      requires IsAt(c, t, n, p) && c.Below? && c.sibling.Node? && s == Child(p, Opposite(c.side))
      ensures IsRed(Sub(c.sibling, side)) == (Child(s, side) != null && Child(s, side).red)
    {
      hide Linked, Holds, Distinct, DistinctContext, Nodes;
      Cross(c, t, n, p);
      Descend(Across(c, t), c.sibling, s, p, side);
      LinkedRoot(Sub(c.sibling, side), Child(s, side), s);
      if Child(s, side) != null {
        Descend(Below(Across(c, t), side, s, c.sibling.key, c.sibling.red, Sub(c.sibling, Opposite(side))),
                Sub(c.sibling, side), Child(s, side), s, Left);
      }
    }

    method RotateRedSibling(n: TreeNode?, p: TreeNode, s: TreeNode, cis: Side, ghost c: Context, ghost t: Shape)
      returns (ghost c': Context)
      requires IsAt(c, t, n, p) && c.Below? && c.side == cis && c.sibling.Node? && s == Child(p, Opposite(c.side))
      requires p in ContextNodes(c) && s in ContextNodes(c)
      modifies this`root, Nodes(t), ContextNodes(c)
      ensures c' == RedSiblingLowered(c) && IsAt(c', t, n, p)
    {
      hide Linked, Holds, Distinct, DistinctContext, Nodes, Rotated;
      PaintSibling(false, c, t, n, p, s);
      c' := c.(sibling := c.sibling.(red := false));
      PaintParent(true, c', t, n, p);
      c' := c'.(red := true);
      RepaintedNodes(c, true, false);
      RotateParent(c', t, n, p, cis);
      c' := Lowered(c');
    }

    method TurnNephew(n: TreeNode?, p: TreeNode, s: TreeNode, cis: Side, ghost c: Context, ghost t: Shape)
      returns (ghost c': Context)
      requires IsAt(c, t, n, p) && c.Below? && c.side == cis && c.sibling.Node? && s == Child(p, Opposite(c.side))
      requires Sub(c.sibling, c.side).Node?
      modifies this`root, Nodes(t), ContextNodes(c)
      ensures c' == NephewTurned(c) && IsAt(c', t, n, p)
    {
      hide Linked, Holds, Distinct, DistinctContext, Nodes, Rotated;
      SiblingsIn(c, t, n, p, s, c.side);
      var near := Child(s, cis);
      PaintNephew(cis, c, t, n, p, s, near);
      c' := c.(sibling := NephewBlack(c.sibling, c.side, c.sibling.red));
      PaintSibling(true, c', t, n, p, s);
      c' := c'.(sibling := c'.sibling.(red := true));
      RotateSibling(Opposite(cis), c', t, n, p, s);
      c' := NephewTurned(c);
    }

    method LiftSibling(n: TreeNode?, p: TreeNode, s: TreeNode, cis: Side, ghost c: Context, ghost t: Shape)
      returns (ghost c': Context)
      requires IsAt(c, t, n, p) && c.Below? && c.side == cis && c.sibling.Node? && s == Child(p, Opposite(c.side))
      requires Sub(c.sibling, Opposite(c.side)).Node?
      modifies this`root, Nodes(t), ContextNodes(c)
      ensures c' == SiblingLifted(c) && IsAt(c', t, n, p)
    {
      hide Linked, Holds, Distinct, DistinctContext, Nodes, Rotated;
      SiblingsIn(c, t, n, p, s, Opposite(c.side));
      var far := Child(s, Opposite(cis));
      PaintSibling(p.red, c, t, n, p, s);
      c' := c.(sibling := c.sibling.(red := c.red));
      PaintParent(false, c', t, n, p);
      c' := c'.(red := false);
      PaintNephew(Opposite(cis), c', t, n, p, s, far);
      c' := c'.(sibling := NephewBlack(c'.sibling, Opposite(c.side), c'.sibling.red));
      RotateParent(c', t, n, p, cis);
      c' := SiblingLifted(c);
    }

    lemma SiblingsIn(c: Context, t: Shape, n: TreeNode?, p: TreeNode, s: TreeNode, side: Side)
      requires IsAt(c, t, n, p) && c.Below? && c.sibling.Node? && s == Child(p, Opposite(c.side))
      requires Sub(c.sibling, side).Node?
      ensures p == c.at && p.red == c.red && c.sibling.at == s && Child(s, side) == Sub(c.sibling, side).at
      ensures {p, s, Sub(c.sibling, side).at} <= ContextNodes(c)
      ensures ContextNodes(c.(sibling := NephewBlack(c.sibling, side, true))) == ContextNodes(c)
      ensures ContextNodes(c.(red := false, sibling := NephewBlack(c.sibling, side, c.red))) == ContextNodes(c)
    {
      hide Linked, Holds, Distinct, DistinctContext;
      Cross(c, t, n, p);
      Descend(Across(c, t), c.sibling, s, p, side);
      LinkedRoot(Sub(c.sibling, side), Child(s, side), s);
      NephewBlackSame(c.sibling, side, true);
      NephewBlackSame(c.sibling, side, c.red);
      assert Sub(c.sibling, side).at in Nodes(c.sibling);
    }

    lemma Locate(c: Context, t: Shape, n: TreeNode?, p: TreeNode?, x: TreeNode) returns (c': Context, t': Shape)
      requires IsAt(c, t, n, p) && x in Nodes(t)
      ensures IsAt(c', t', x, x.parent) && t'.Node? && t'.key == x.key && t'.at == x && Plug(c', t') == Plug(c, t)
      decreases t
    {
      hide Linked, Holds, Distinct, DistinctContext;
      LinkedRoot(t, n, p);
      Descend(c, t, n, p, Left);
      if x == n {
        return c, t;
      }
      var side := if x in Nodes(t.left) then Left else Right;
      Descend(c, t, n, p, side);
      c', t' := Locate(Below(c, side, n, t.key, t.red, Sub(t, Opposite(side))), Sub(t, side), Child(n, side), n, x);
    }

    lemma AscendBy(d: Context, c: Context, t: Shape, n: TreeNode?, p: TreeNode?) returns (top: TreeNode?, q: TreeNode?)
      requires IsAt(Append(d, c), t, n, p)
      ensures IsAt(c, Plug(d, t), top, q)
      decreases d
    {
      if d == Top {
        return n, p;
      }
      Ascend(Append(d, c), t, n, p);
      top, q := AscendBy(d.up, c, Join(d.side, t, d.at, d.key, d.red, d.sibling), d.at, d.at.parent);
    }

    lemma DescendBy(d: Context, c: Context, t: Shape, top: TreeNode?, q: TreeNode?) returns (n: TreeNode?, p: TreeNode?)
      requires IsAt(c, Plug(d, t), top, q)
      ensures IsAt(Append(d, c), t, n, p)
      decreases d
    {
      if d == Top {
        return top, q;
      }
      var j := Join(d.side, t, d.at, d.key, d.red, d.sibling);
      n, p := DescendBy(d.up, c, j, top, q);
      LinkedRoot(j, n, p);
      JoinShape(d.side, t, d.at, d.key, d.red, d.sibling);
      Descend(Append(d.up, c), j, n, p, d.side);
      n, p := Child(d.at, d.side), d.at;
    }

    /** Takes out a node that has at most the one subtree `u`, rooted at `next`. */
    method Bypass(node: TreeNode, next: TreeNode?, parent: TreeNode?, ghost c: Context, ghost t: Shape, ghost u: Shape)
      requires IsAt(c, t, node, parent) && t.Node? && Linked(u, next, node)
      requires (t.left == Leaf && u == t.right) || (t.right == Leaf && u == t.left)
      modifies this`root, ContextNodes(c)`left, ContextNodes(c)`right, Nodes(u)`parent
      ensures IsAt(c, u, next, parent)
    {
      hide Linked, Holds, DistinctContext, Nodes;
      assert allocated(Nodes(u)) && allocated(ContextNodes(c));
      JoinShape(Left, t.left, t.at, t.key, t.red, t.right);
      LinkedRoot(t, node, parent);
      LinkedRoot(u, next, node);
      Replace(parent, node, next, c);
      Adopt(parent, next, u, node);
    }

    /** Puts `next` where `node` is, between the subtrees `l` and `r`. */
    method Substitute(node: TreeNode, next: TreeNode, left: TreeNode, right: TreeNode?, parent: TreeNode?,
                      ghost c: Context, ghost t: Shape, ghost r: Shape, ghost q: TreeNode?)
      requires IsAt(c, t, node, parent) && t.Node? && next != node && next !in ContextNodes(c)
      requires Linked(t.left, left, node) && next !in Nodes(t.left)
      requires Linked(r, right, q) && Distinct(r) && Nodes(r) <= Nodes(t.right) && next !in Nodes(r)
      modifies this`root, next, ContextNodes(c)`left, ContextNodes(c)`right, Nodes(t)`parent
      ensures next.key == old(next.key)
      ensures IsAt(c, Node(t.left, next, next.key, t.red, r), next, parent) && next.parent == parent
    {
      hide Linked, Holds, Distinct, DistinctContext, Nodes, ContextNodes;
      ghost var l := t.left;
      JoinShape(Left, l, t.at, t.key, t.red, t.right);
      JoinShape(Left, l, next, next.key, t.red, r);
      assert allocated(Nodes(l)) && allocated(Nodes(r)) && allocated(ContextNodes(c));
      LinkedRoot(l, left, node);
      LinkedRoot(r, right, q);
      Descend(c, t, node, parent, Left);
      Replace(parent, node, next, c);
      Furnish(node, next, left, right, parent, l, r, q);
    }

    /** `next` gets the colour, the subtrees and the parent. */
    method Furnish(node: TreeNode, next: TreeNode, left: TreeNode, right: TreeNode?, parent: TreeNode?,
                   ghost l: Shape, ghost r: Shape, ghost q: TreeNode?)
      requires Linked(l, left, node) && Distinct(l) && Linked(r, right, q) && Distinct(r) && Nodes(l) !! Nodes(r)
      requires next !in Nodes(l) && next !in Nodes(r) && next != node && left in Nodes(l)
               && (right != null ==> right in Nodes(r))
      modifies next, left`parent, (if right == null then {} else {right})`parent
      ensures Linked(Node(l, next, next.key, node.red, r), next, parent)
      ensures next.key == old(next.key) && next.parent == parent && node.red == old(node.red)
    {
      hide Linked, Distinct, Nodes;
      assert allocated(Nodes(l)) && allocated(Nodes(r));
      next.red := node.red;
      next.left := left;
      Adopt(next, left, l, node);
      next.parent := parent;
      next.right := right;
      Adopt(next, right, r, q);
      JoinLinked(Left, l, next, next.key, node.red, r, next, parent);
    }

    /** The first half of `tree_del`: takes `node` out and says where a black node may now be missing. */
    method Unlink(node: TreeNode, ghost c: Context, ghost t: Shape)
      returns (at: TreeNode?, parent: TreeNode?, red: bool, ghost b: Context, ghost u: Shape)
      requires IsAt(c, t, node, node.parent) && t.Node? && RedBlack(Plug(c, t))
      modifies this`root, Nodes(t), ContextNodes(c)
      ensures IsAt(b, u, at, parent)
      ensures Balanced(u) && Balances(b, BlackHeight(u) + if red then 0 else 1) && (red ==> !IsRed(u))
      ensures CutsOut(Before(b) + Entries(u) + After(b), c, t)
      ensures ContextNodes(b) + Nodes(u) == ContextNodes(c) + Nodes(t) - {node}
    {
      hide Linked, Holds, Distinct, DistinctContext, Nodes;
      var left, right := node.left, node.right;
      parent := node.parent;
      JoinShape(Left, t.left, t.at, t.key, t.red, t.right);
      Descend(c, t, node, parent, Left);
      Descend(c, t, node, parent, Right);
      LinkedRoot(t.left, left, node);
      LinkedRoot(t.right, right, node);
      if left == null {
        BypassPoint(c, t, t.right);
        red := node.red;
        Bypass(node, right, parent, c, t, t.right);
        return right, parent, red, c, t.right;
      } else if right == null {
        BypassPoint(c, t, t.left);
        red := node.red;
        Bypass(node, left, parent, c, t, t.left);
        return left, parent, red, c, t.left;
      }
      at, parent, red, b, u := UnlinkInner(node, left, right, c, t);
    }

    /** The successor of `node` takes its place. */
    method UnlinkInner(node: TreeNode, left: TreeNode, right: TreeNode, ghost c: Context, ghost t: Shape)
      returns (at: TreeNode?, parent: TreeNode?, red: bool, ghost b: Context, ghost u: Shape)
      requires IsAt(c, t, node, node.parent) && t.Node? && RedBlack(Plug(c, t))
      requires left == node.left && right == node.right
      modifies this`root, Nodes(t), ContextNodes(c)
      ensures IsAt(b, u, at, parent)
      ensures Balanced(u) && Balances(b, BlackHeight(u) + if red then 0 else 1) && (red ==> !IsRed(u))
      ensures CutsOut(Before(b) + Entries(u) + After(b), c, t)
      ensures ContextNodes(b) + Nodes(u) == ContextNodes(c) + Nodes(t) - {node}
    {
      hide Linked, Holds, Distinct, DistinctContext, Nodes, CutsOut, Balanced, BlackHeight, RedBlack, Entries;
      ghost var base := Below(c, Right, node, t.key, t.red, t.left);
      JoinShape(Left, t.left, t.at, t.key, t.red, t.right);
      Descend(c, t, node, node.parent, Left);
      LinkedRoot(t.left, left, node);
      Descend(c, t, node, node.parent, Right);
      ghost var d, m;
      var next;
      assert allocated(Nodes(t)) && allocated(ContextNodes(c));
      next, d, m := LeftEnd(right, node, base, t.right);
      LinkedRoot(m, next, next.parent);
      SuccessorPoint(c, t, d, m);
      SuccessorNodes(c, t, d, m);
      SuccessorContext(c, t, d, m);
      red := next.red;
      u := m.right;
      b := Append(d, Below(c, Right, m.at, m.key, t.red, t.left));
      if next != right {
        parent := next.parent;
        at := next.right;
        PullOut(next, at, parent, base, d, m);
        ReplaceFar(node, next, left, right, at, parent, c, t, d, m);
      } else {
        parent := next;
        at := next.right;
        ReplaceNear(node, next, left, at, c, t, m);
      }
    }

    /** The leftmost node below `right`. */
    method LeftEnd(right: TreeNode, node: TreeNode, ghost base: Context, ghost t: Shape)
      returns (next: TreeNode, ghost d: Context, ghost m: Shape)
      requires IsAt(base, t, right, node)
      ensures m.Node? && m.left == Leaf && m.key == next.key && m.red == next.red && m.at == next
      ensures t.Node? && t.at == right && Plug(d, m) == t && Before(d) == []
      ensures IsAt(Append(d, base), m, next, next.parent)
      ensures if d == Top then next == right && m == t else next != right
    {
      hide Linked, Holds, Distinct, DistinctContext, Nodes;
      next := right;
      d, m := Top, t;
      Descend(base, m, next, node, Left);
      LinkedRoot(m.left, next.left, next);
      while next.left != null
        invariant IsAt(Append(d, base), m, next, next.parent) && m.Node? && Plug(d, m) == t && Before(d) == []
        invariant next.left == null <==> m.left == Leaf
        invariant d == Top ==> next == right && m == t
        invariant d.Below? ==> right in ContextNodes(Append(d, base))
        decreases m
      {
        Descend(Append(d, base), m, next, next.parent, Left);
        d, m := Below(d, Left, next, m.key, m.red, m.right), m.left;
        LinkedRoot(m, next.left, next);
        next := next.left;
        Descend(Append(d, base), m, next, next.parent, Left);
        LinkedRoot(m.left, next.left, next);
      }
      Descend(Append(d, base), m, next, next.parent, Left);
      LinkedRoot(m, next, next.parent);
    }

    /** `parent->left = next->right`, for the leftmost node `next` of the right subtree. */
    method PullOut(next: TreeNode, at: TreeNode?, parent: TreeNode?, ghost base: Context, ghost d: Context,
                   ghost m: Shape)
      requires m.Node? && m.left == Leaf && IsAt(Append(d, base), m, next, parent) && at == next.right
      modifies this`root, ContextNodes(Append(d, base))`left, ContextNodes(Append(d, base))`right, Nodes(m.right)`parent
      ensures IsAt(Append(d, base), m.right, at, parent)
      ensures next.key == old(next.key) == m.key
    {
      hide Holds, Distinct, DistinctContext, Nodes;
      Descend(Append(d, base), m, next, parent, Right);
      Bypass(next, at, parent, Append(d, base), m, m.right);
    }

    method ReplaceNear(node: TreeNode, next: TreeNode, left: TreeNode, at: TreeNode?, ghost c: Context, ghost t: Shape,
                       ghost m: Shape)
      requires IsAt(c, t, node, node.parent) && t.Node? && m == t.right && m.Node? && m.left == Leaf
      requires left == node.left && next == node.right && at == next.right
      modifies this`root, Nodes(t), ContextNodes(c)
      ensures IsAt(Below(c, Right, m.at, m.key, t.red, t.left), m.right, at, next)
    {
      hide Linked, Holds, Distinct, DistinctContext, Nodes;
      SuccessorNodes(c, t, Top, m);
      Descend(c, t, node, node.parent, Left);
      Descend(c, t, node, node.parent, Right);
      Descend(Below(c, Right, node, t.key, t.red, t.left), m, next, node, Right);
      LinkedRoot(m.right, at, next);
      Substitute(node, next, left, at, node.parent, c, t, m.right, next);
      ghost var t' := Node(t.left, next, next.key, t.red, m.right);
      Descend(c, t', next, next.parent, Right);
      LinkedRoot(m.right, next.right, next);
    }

    method ReplaceFar(node: TreeNode, next: TreeNode, left: TreeNode, right: TreeNode, at: TreeNode?, parent: TreeNode?,
                      ghost c: Context, ghost t: Shape, ghost d: Context, ghost m: Shape)
      requires t.Node? && t.left.Node? && t.right.Node? && m.Node? && m.left == Leaf && t.right == Plug(d, m)
               && d.Below?
      requires Distinct(t) && Nodes(t) !! ContextNodes(c)
      requires node == t.at && next == m.at && next.key == m.key && left == t.left.at && right == t.right.at
      requires IsAt(Append(d, Below(c, Right, node, t.key, t.red, t.left)), m.right, at, parent)
      modifies this`root, Nodes(t), ContextNodes(c)
      ensures IsAt(Append(d, Below(c, Right, m.at, m.key, t.red, t.left)), m.right, at, parent)
    {
      hide Linked, Holds, Distinct, DistinctContext, Nodes;
      ghost var base, r := Below(c, Right, node, t.key, t.red, t.left), Plug(d, m.right);
      SuccessorNodes(c, t, d, m);
      HoldsParent(Append(d, base), m.right, at, parent);
      LinkedRoot(m.right, at, parent);
      ghost var top, q := AscendBy(d, base, m.right, at, parent);
      Ascend(base, r, top, q);
      ghost var t1 := Node(t.left, node, t.key, t.red, r);
      LinkedRoot(r, top, q);
      Descend(c, t1, node, node.parent, Left);
      LinkedRoot(t.left, node.left, node);
      JoinShape(Left, t.left, node, t.key, t.red, r);
      JoinShape(Left, t.left, node, t.key, t.red, t.right);
      Substitute(node, next, left, right, node.parent, c, t1, r, node);
      Descend(c, Node(t.left, next, next.key, t.red, r), next, next.parent, Right);
      ghost var base' := Below(c, Right, next, next.key, t.red, t.left);
      ghost var n, p := DescendBy(d, base', m.right, next.right, next);
      HoldsParent(Append(d, base'), m.right, n, p);
      LinkedRoot(m.right, n, p);
    }

    lemma HoldsRoot(c: Context, t: Shape, n: TreeNode?, p: TreeNode?)
      requires IsAt(c, t, n, p)
      ensures n == root <==> c == Top
      decreases c
    {
      LinkedRoot(t, n, p);
      if c.Below? {
        Ascend(c, t, n, p);
        Zip(c, t, n, p);
        RootInContext(c, t, n, p);
      }
    }

    lemma RootInContext(c: Context, t: Shape, n: TreeNode?, p: TreeNode?)
      requires Holds(c, n, p) && c.Below?
      ensures root in ContextNodes(c)
      decreases c
    {
      if c.up.Below? {
        RootInContext(c.up, t, p, p.parent);
      }
    }

    /** `tree_del` */
    method Del(node: TreeNode)
      requires Valid() && node in Nodes(shape)
      modifies this, Nodes(shape)
      ensures Valid()
      ensures Removed(old(Entries(shape)), Entries(shape), Entry(old(node.key), node))
      ensures Nodes(shape) == old(Nodes(shape)) - {node}
    {
      hide Linked, Holds, Distinct, DistinctContext, Nodes, Entries;
      ghost var c, t := Locate(Top, shape, root, null, node);
      ghost var b, u, es;
      var at, parent, red;
      PlugNodes(c, t);
      assert Plug(c, t) == shape;
      at, parent, red, b, u := Unlink(node, c, t);
      es := Before(b) + Entries(u) + After(b);
      CutsOutOne(es, c, t);
      assert Removed(old(Entries(shape)), es, Entry(old(node.key), node)) && Sorted(es);
      hide Removed, Sorted;
      if red {
        RedRemoved(b, u);
        Conclude(b, u, at, parent);
        return;
      }
      RootColour(u, at, parent);
      LinkedRoot(u, at, parent);
      if at != null && at.red {
        Descend(b, u, at, parent, Left);
        PaintedOver(b, u);
        Paint(at, false, b, u);
        Conclude(b, u.(red := false), at, parent);
        return;
      }
      ghost var b0, u0 := b, u;
      while true
        invariant IsAt(b, u, at, parent) && Deficient(b, u) && !IsRed(u)
        invariant SameEntries(b, u, b0, u0)
        decreases Length(b)
      {
        HoldsRoot(b, u, at, parent);
        if at == root {
          UnpaintedRoot(u);
          break;
        }
        HoldsParent(b, u, at, parent);
        SiblingThere(b, u, at, parent);
        var done;
        if at == parent.left {
          done, b, u := RebalanceAfterRemove(at, parent, Left, b, u);
        } else {
          done, b, u := RebalanceAfterRemove(at, parent, Right, b, u);
        }
        if done {
          at := root;
          SettledEntries(b, u);
          b, u, parent := Top, Plug(b, u), null;
          UnpaintedRoot(u);
          break;
        }
        at := parent;
        parent := parent.parent;
        Descend(b, u, at, parent, Left);
        if at.red {
          break;
        }
      }
      LinkedRoot(u, at, parent);
      if at != null {
        Paint(at, false, b, u);
        RepaintedRoot(b, u);
        u := u.(red := false);
      }
      Conclude(b, u, at, parent);
    }

    /** Closes the tree again around the place worked on. */
    ghost method Conclude(c: Context, t: Shape, n: TreeNode?, p: TreeNode?)
      requires IsAt(c, t, n, p) && RedBlack(Plug(c, t)) && Sorted(Before(c) + Entries(t) + After(c))
      modifies this`shape
      ensures shape == Plug(c, t) && Valid()
      ensures Entries(shape) == Before(c) + Entries(t) + After(c) && Nodes(shape) == ContextNodes(c) + Nodes(t)
    {
      hide Linked, Holds, Distinct, DistinctContext, Nodes, Entries, RedBlack;
      Zip(c, t, n, p);
      PlugEntries(c, t);
      PlugNodes(c, t);
      shape := Plug(c, t);
    }

    /** `tree_find` */
    method Find(key: nat) returns (node: TreeNode?, ghost visits: nat)
      requires Valid()
      ensures node == null <==> !HasKey(Entries(shape), key)
      ensures node != null ==> Entry(key, node) in Entries(shape) && node.key == key
      ensures visits <= 2 * Log2(|Entries(shape)| + 1)
    {
      hide Linked, Holds, Distinct, DistinctContext, Nodes, Entries;
      node := root;
      visits := 0;
      ghost var c, t := Top, shape;
      LinkedRoot(t, node, null);
      ghost var p: TreeNode? := null;
      while node != null
        invariant IsAt(c, t, node, p) && (node == null <==> t == Leaf) && Plug(c, t) == shape
        invariant KeysBelow(Before(c), key) && KeysAbove(After(c), key)
        invariant visits + Height(t) <= Height(shape)
        decreases t
      {
        visits := visits + 1;
        Descend(c, t, node, p, Left);
        if key < node.key {
          KeyLeft(c, t, key);
          c, t, p := Below(c, Left, node, t.key, t.red, t.right), t.left, node;
          node := node.left;
        } else if key > node.key {
          Descend(c, t, node, p, Right);
          KeyRight(c, t, key);
          c, t, p := Below(c, Right, node, t.key, t.red, t.left), t.right, node;
          node := node.right;
        } else {
          KeyHere(c, t);
          VisitBound(shape);
          return;
        }
        LinkedRoot(t, node, p);
      }
      NoKeyAtHole(c, key);
      VisitBound(shape);
    }
  }
}
