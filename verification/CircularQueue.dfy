/** wepoll's intrusive circular queue: the head is a node like any other, and a node that is in no queue points
    at itself. */
module CircularQueue {

  class QueueNode {
    var prev: QueueNode
    var next: QueueNode

    /** `queue_node_init` for a new node. */
    constructor ()
      ensures Alone()
    {
      prev, next := this, this;
    }

    ghost predicate Alone()
      reads this
    {
      prev == this && next == this
    }
  }

  class Queue {
    const head: QueueNode
    ghost var nodes: seq<QueueNode>

    /** Once around, from the head back to the head. */
    ghost function Loop(): seq<QueueNode>
      reads this
    {
      [head] + nodes + [head]
    }

    ghost function Memory(): set<QueueNode>
      reads this
    {
      set n | n in Loop()
    }

    ghost predicate Valid()
      reads this, Memory()
    {
      && head !in nodes
      && (forall i, j :: 0 <= i < j < |nodes| ==> nodes[i] != nodes[j])
      && Linked(Loop())
    }

    /** `queue_init` */
    constructor ()
      ensures Valid() && nodes == [] && fresh(head)
    {
      head := new QueueNode();
      nodes := [];
    }

    /** `queue_is_empty` */
    method IsEmpty() returns (empty: bool)
      requires Valid()
      ensures empty == (nodes == [])
    {
      assert Loop()[0].next == Loop()[1] && Loop()[|nodes|].next == Loop()[|nodes| + 1];
      assert Loop()[|nodes| + 1].prev == Loop()[|nodes|];
      empty := !(head.prev != head);
    }

    /** `queue_is_enqueued`, for a node that is in this queue or in none. */
    method IsEnqueued(node: QueueNode) returns (enqueued: bool)
      requires Valid() && node != head && (node in nodes || node.Alone())
      ensures enqueued == (node in nodes)
    {
      if node in nodes {
        ghost var k :| 0 <= k < |nodes| && nodes[k] == node;
        assert Loop()[k + 1] == node && Loop()[k + 1].prev == Loop()[k];
      }
      enqueued := node.prev != node;
    }

    /** `queue_first` */
    method First() returns (node: QueueNode?)
      requires Valid()
      ensures node == if nodes == [] then null else nodes[0]
    {
      var empty := IsEmpty();
      assert Loop()[0].next == Loop()[1];
      node := if empty then null else head.next;
    }

    /** `queue_last` */
    method Last() returns (node: QueueNode?)
      requires Valid()
      ensures node == if nodes == [] then null else nodes[|nodes| - 1]
    {
      var empty := IsEmpty();
      assert Loop()[|nodes| + 1].prev == Loop()[|nodes|];
      node := if empty then null else head.prev;
    }

    /** `queue_prepend` */
    method Prepend(node: QueueNode)
      requires Valid() && node !in Memory()
      modifies this`nodes, node, Memory()
      ensures Valid() && nodes == [node] + old(nodes)
    {
      ghost var loop := Loop();
      FirstLink();
      node.next := head.next;
      node.prev := head;
      node.next.prev := node;
      head.next := node;
      nodes := [node] + nodes;
      forall i | 0 <= i < |Loop()| - 1
        ensures Loop()[i].next == Loop()[i + 1] && Loop()[i + 1].prev == Loop()[i]
      {
        if i > 1 {
          var j := i - 1;
          assert Loop()[i] == loop[j] && Loop()[i + 1] == loop[j + 1];
          assert old(loop[j].next) == loop[j + 1] && old(loop[j + 1].prev) == loop[j];
        }
      }
    }

    /** `queue_append` */
    method Append(node: QueueNode)
      requires Valid() && node !in Memory()
      modifies this`nodes, node, Memory()
      ensures Valid() && nodes == old(nodes) + [node]
    {
      ghost var loop := Loop();
      ghost var n := |loop| - 2;
      LastLink();
      node.next := head;
      node.prev := head.prev;
      node.prev.next := node;
      head.prev := node;
      nodes := nodes + [node];
      forall i | 0 <= i < |Loop()| - 1
        ensures Loop()[i].next == Loop()[i + 1] && Loop()[i + 1].prev == Loop()[i]
      {
        if i < n {
          assert Loop()[i] == loop[i] && Loop()[i + 1] == loop[i + 1];
          assert old(loop[i].next) == loop[i + 1] && old(loop[i + 1].prev) == loop[i];
        }
      }
    }

    /** `queue__detach_node`, for node number `k`: it keeps its own links. */
    method Detach(node: QueueNode, ghost k: nat)
      requires Valid() && k < |nodes| && nodes[k] == node
      modifies this`nodes, Memory()
      ensures Valid() && nodes == old(nodes[..k] + nodes[k + 1..]) && node !in Memory()
    {
      ghost var loop := Loop();
      assert loop[k].next == loop[k + 1] && loop[k + 1].prev == loop[k];
      assert loop[k + 1].next == loop[k + 2] && loop[k + 2].prev == loop[k + 1];
      Apart(k);
      node.prev.next := node.next;
      node.next.prev := node.prev;
      nodes := nodes[..k] + nodes[k + 1..];
      forall i | 0 <= i < |Loop()| - 1
        ensures Loop()[i].next == Loop()[i + 1] && Loop()[i + 1].prev == Loop()[i]
      {
        if i < k {
          assert Loop()[i] == loop[i] && Loop()[i + 1] == loop[i + 1];
          assert old(loop[i].next) == loop[i + 1] && old(loop[i + 1].prev) == loop[i];
        } else if i > k {
          var j := i + 1;
          assert Loop()[i] == loop[j] && Loop()[i + 1] == loop[j + 1];
          assert old(loop[j].next) == loop[j + 1] && old(loop[j + 1].prev) == loop[j];
        }
      }
    }

    lemma FirstLink()
      requires Valid()
      ensures Ring(Loop()) && head.next == Loop()[1]
    {
      assert Loop()[0].next == Loop()[1];
    }

    lemma LastLink()
      requires Valid()
      ensures Ring(Loop()) && head.prev == Loop()[|nodes|]
    {
      assert Loop()[|nodes| + 1].prev == Loop()[|nodes|];
    }

    lemma Apart(k: nat)
      requires Valid() && k < |nodes|
      ensures Ring(Loop()) && Loop()[k] != nodes[k] && Loop()[k + 2] != nodes[k]
      ensures nodes[k] !in nodes[..k] + nodes[k + 1..]
    {
    }

    /** `queue_remove` */
    method Remove(node: QueueNode, ghost k: nat)
      requires Valid() && k < |nodes| && nodes[k] == node
      modifies this`nodes, node, Memory()
      ensures Valid() && nodes == old(nodes[..k] + nodes[k + 1..]) && node !in Memory() && node.Alone()
    {
      Detach(node, k);
      node.prev := node;
      node.next := node;
    }

    /** `queue_move_to_start` */
    method MoveToStart(node: QueueNode, ghost k: nat)
      requires Valid() && k < |nodes| && nodes[k] == node
      modifies this`nodes, node, Memory()
      ensures Valid() && nodes == [node] + old(nodes[..k] + nodes[k + 1..])
    {
      Detach(node, k);
      Prepend(node);
    }

    /** `queue_move_to_end` */
    method MoveToEnd(node: QueueNode, ghost k: nat)
      requires Valid() && k < |nodes| && nodes[k] == node
      modifies this`nodes, node, Memory()
      ensures Valid() && nodes == old(nodes[..k] + nodes[k + 1..]) + [node]
    {
      Detach(node, k);
      Append(node);
    }
  }

  /** Only the two ends are the same node. */
  ghost predicate Ring(loop: seq<QueueNode>) {
    forall i, j :: 0 <= i < j < |loop| && loop[i] == loop[j] ==> i == 0 && j == |loop| - 1
  }

  ghost predicate Linked(loop: seq<QueueNode>)
    reads set n | n in loop
  {
    forall i :: 0 <= i < |loop| - 1 ==> loop[i].next == loop[i + 1] && loop[i + 1].prev == loop[i]
  }
}
