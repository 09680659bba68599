/**
 The doubly linked list of resident pages that the LRU and FFIFO handlers keep, with its
 head, tail and count.
 */
module DllLists {
  import opened Sequences

  class DllNode {
    const key: nat
    var next: DllNode?
    var prev: DllNode?

    constructor (key: nat, next: DllNode?)
      ensures this.key == key && this.next == next && this.prev == null
    {
      this.key := key;
      this.next := next;
      this.prev := null;
    }
  }

  ghost function Keys(nodes: seq<DllNode>): (keys: seq<nat>)
    ensures |keys| == |nodes| && forall i | 0 <= i < |keys| :: keys[i] == nodes[i].key
  {
    seq(|nodes|, i requires 0 <= i < |nodes| => nodes[i].key)
  }

  /** The nodes are chained in this order, forwards and backwards. */
  ghost predicate Linked(nodes: seq<DllNode>)
    reads nodes
  {
    && Distinct(nodes)
    && (forall i {:trigger nodes[i].prev} | 0 <= i < |nodes| ::
          nodes[i].prev == if i == 0 then null else nodes[i - 1])
    && (forall i {:trigger nodes[i].next} | 0 <= i < |nodes| ::
          nodes[i].next == if i == |nodes| - 1 then null else nodes[i + 1])
  }

  /** The two assignments that take a node out of its chain. */
  method Bypass(node: DllNode, ghost nodes: seq<DllNode>, ghost k: nat)
    requires Linked(nodes) && k < |nodes| && nodes[k] == node
    modifies nodes
    ensures Linked(Taken(nodes, k))
    ensures node.prev == old(node.prev) && node.next == old(node.next)
  {
    if node.prev != null {
      node.prev.next := node.next;
    }
    if node.next != null {
      node.next.prev := node.prev;
    }
    TakenDistinct(nodes, k);
    ghost var rest := Taken(nodes, k);
    forall i {:trigger rest[i].prev} | 0 <= i < |rest|
      ensures rest[i].prev == if i == 0 then null else rest[i - 1]
    {
      assert rest[i] == nodes[if i < k then i else i + 1];
      assert i > 0 ==> rest[i - 1] == nodes[if i - 1 < k then i - 1 else i];
    }
    forall i {:trigger rest[i].next} | 0 <= i < |rest|
      ensures rest[i].next == if i == |rest| - 1 then null else rest[i + 1]
    {
      assert rest[i] == nodes[if i < k then i else i + 1];
      assert i + 1 < |rest| ==> rest[i + 1] == nodes[if i + 1 < k then i + 1 else i + 2];
    }
  }

  /** The three assignments that put a node before the head of a chain. */
  method Attach(node: DllNode, head: DllNode, ghost nodes: seq<DllNode>)
    requires Linked(nodes) && |nodes| > 0 && head == nodes[0] && node !in nodes
    modifies node, head
    ensures Linked([node] + nodes)
  {
    node.next := head;
    node.prev := null;
    head.prev := node;
  }

  class DllList {
    var head: DllNode?
    var tail: DllNode?
    var count: nat
    ghost var nodes: seq<DllNode>  // head first
    ghost var repr: set<DllNode>

    ghost predicate Valid()
      reads this, repr
    {
      && count == |nodes|
      && (forall i | 0 <= i < |nodes| :: nodes[i] in repr)
      && Linked(nodes)
      && head == (if |nodes| == 0 then null else nodes[0])
      && tail == (if |nodes| == 0 then null else nodes[|nodes| - 1])
    }

    constructor ()
      ensures Valid() && nodes == [] && repr == {}
    {
      head, tail, count := null, null, 0;
      nodes, repr := [], {};
    }

    /** `createdllListNode`. */
    method Create(key: nat) returns (node: DllNode)
      requires Valid()
      modifies this, repr
      ensures Valid() && fresh(node) && node.key == key
      ensures nodes == [node] + old(nodes) && repr == old(repr) + {node}
    {
      node := new DllNode(key, head);
      if count > 0 {
        head.prev := node;
      } else {
        tail := node;
      }
      head := node;
      count := count + 1;
      nodes, repr := [node] + nodes, repr + {node};
    }

    /** `moveListNodeToFront`; k is where the node is. */
    method MoveToFront(node: DllNode, ghost k: nat)
      requires Valid() && k < |nodes| && nodes[k] == node
      modifies this, repr
      ensures Valid() && repr == old(repr)
      ensures nodes == [node] + Taken(old(nodes), k)
    {
      if head == node {
        assert k == 0;
        return;
      }
      ghost var rest := Taken(nodes, k);
      TakenDistinct(nodes, k);
      Bypass(node, nodes, k);
      if tail == node {
        tail := node.prev;
      }
      // a list of one node was left alone above, so count > 1 and there is a head to link to
      Attach(node, head, rest);
      head := node;
      nodes := [node] + rest;
    }

    /** `deletedllListNode`; k is where the node is. */
    method Delete(node: DllNode, ghost k: nat)
      requires Valid() && k < |nodes| && nodes[k] == node
      modifies this, repr
      ensures Valid() && repr == old(repr)
      ensures nodes == Taken(old(nodes), k)
    {
      if node == head {
        head := node.next;
      }
      if node == tail {
        tail := node.prev;
      }
      Bypass(node, nodes, k);
      count := count - 1;
      nodes := Taken(nodes, k);
    }
  }
}
