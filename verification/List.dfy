/** src/lib/list.c: the intrusive doubly linked list between two sentinels. The
    ghost sequence `nodes` is what every operation is specified by. */
module List {
  import opened Sequences

  class Node {
    var prev: Node?
    var next: Node?
    const key: int

    constructor (key: int)
      ensures this.key == key && prev == null && next == null
    {
      this.key := key;
      prev, next := null, null;
    }
  }

  /** prev and next are each other's inverse along the list. */
  ghost predicate Linked(all: seq<Node>)
    reads all
  {
    && (forall i {:trigger all[i].next} | 0 <= i < |all| - 1 :: all[i].next == all[i + 1])
    && (forall i {:trigger all[i].prev} | 0 < i < |all| :: all[i].prev == all[i - 1])
  }

  lemma ApartFrom(all: seq<Node>, k: nat)
    requires Distinct(all) && k < |all|
    ensures forall i | 0 <= i < |all| && i != k :: all[i] != all[k]
  {}

  lemma ApartInserted(all: seq<Node>, k: nat, node: Node)
    requires Distinct(all) && k <= |all| && node !in all
    ensures Distinct(InsertAt(all, k, node))
  {
    InsertAtIndex(all, k, node);
  }

  lemma ApartRemoved(all: seq<Node>, k: nat)
    requires Distinct(all) && k < |all|
    ensures Distinct(RemoveAt(all, k))
  {
    RemoveAtIndex(all, k);
  }

  lemma Links(all: seq<Node>, k: nat)
    requires Linked(all) && k + 1 < |all|
    ensures all[k].next == all[k + 1] && all[k + 1].prev == all[k]
  {}

  lemma Neighbours(all: seq<Node>, k: nat)
    requires Linked(all) && 0 < k < |all| - 1
    ensures all[k].prev == all[k - 1] && all[k].next == all[k + 1]
  {}

  /** The links of every node. */
  ghost function Nexts(all: seq<Node>): (r: seq<Node?>)
    reads all
    ensures |r| == |all| && forall i {:trigger r[i]} {:trigger all[i].next} | 0 <= i < |all| :: r[i] == all[i].next
  {
    seq(|all|, i requires 0 <= i < |all| reads all => all[i].next)
  }

  ghost function Prevs(all: seq<Node>): (r: seq<Node?>)
    reads all
    ensures |r| == |all| && forall i {:trigger r[i]} {:trigger all[i].prev} | 0 <= i < |all| :: r[i] == all[i].prev
  {
    seq(|all|, i requires 0 <= i < |all| reads all => all[i].prev)
  }

  /** Links that no assignment touched: all but n in a row. */
  lemma OtherLinks(all: seq<Node>, nexts: seq<Node?>, prevs: seq<Node?>, k: nat, n: nat)
    requires |nexts| == |prevs| == |all|
    requires forall i | 0 <= i < |all| - 1 :: nexts[i] == all[i + 1]
    requires forall i | 0 < i < |all| :: prevs[i] == all[i - 1]
    requires forall i {:trigger all[i].next} | 0 <= i < |all| && !(k <= i < k + n) :: all[i].next == nexts[i]
    requires forall i {:trigger all[i].prev} | 0 <= i < |all| && !(k < i <= k + n) :: all[i].prev == prevs[i]
    ensures forall i {:trigger all[i].next} | 0 <= i < |all| - 1 && !(k <= i < k + n) :: all[i].next == all[i + 1]
    ensures forall i {:trigger all[i].prev} | 0 < i < |all| && !(k < i <= k + n) :: all[i].prev == all[i - 1]
  {}

  /** A new node between all[k - 1] and all[k]: the other links only move along. */
  lemma InsertedLinks(all: seq<Node>, r: seq<Node>, k: nat)
    requires 0 < k < |all| && |r| == |all| + 1
    requires (forall i | 0 <= i < k :: r[i] == all[i]) && (forall i | k < i < |r| :: r[i] == all[i - 1])
    requires forall i {:trigger all[i].next} | 0 <= i < |all| - 1 && i != k - 1 :: all[i].next == all[i + 1]
    requires forall i {:trigger all[i].prev} | 0 < i < |all| && i != k :: all[i].prev == all[i - 1]
    requires r[k].prev == all[k - 1] && r[k].next == all[k] && all[k - 1].next == r[k] && all[k].prev == r[k]
    ensures Linked(r)
  {
    forall i | 0 <= i < |r| - 1 ensures r[i].next == r[i + 1] {
      if i < k - 1 { assert all[i].next == all[i + 1]; } else if i > k { assert all[i - 1].next == all[i]; }
    }
    forall i | 0 < i < |r| ensures r[i].prev == r[i - 1] {
      if i < k { assert all[i].prev == all[i - 1]; } else if i > k + 1 { assert all[i - 1].prev == all[i - 2]; }
    }
  }

  /** all[k] gone and its neighbours joined. */
  lemma RemovedLinks(all: seq<Node>, r: seq<Node>, k: nat)
    requires 0 < k < |all| - 1 && |r| == |all| - 1
    requires (forall i | 0 <= i < k :: r[i] == all[i]) && (forall i | k <= i < |r| :: r[i] == all[i + 1])
    requires forall i {:trigger all[i].next} | 0 <= i < |all| - 1 && i != k - 1 && i != k :: all[i].next == all[i + 1]
    requires forall i {:trigger all[i].prev} | 0 < i < |all| && i != k && i != k + 1 :: all[i].prev == all[i - 1]
    requires all[k - 1].next == all[k + 1] && all[k + 1].prev == all[k - 1]
    ensures Linked(r)
  {
    forall i | 0 <= i < |r| - 1 ensures r[i].next == r[i + 1] {
      if i < k - 1 { assert all[i].next == all[i + 1]; } else if i >= k { assert all[i + 1].next == all[i + 2]; }
    }
    forall i | 0 < i < |r| ensures r[i].prev == r[i - 1] {
      if i < k { assert all[i].prev == all[i - 1]; } else if i > k { assert all[i + 1].prev == all[i]; }
    }
  }

  /** Inserting and removing between the sentinels. */
  lemma InsertBetween(h: Node, nodes: seq<Node>, t: Node, k: nat, x: Node)
    requires k <= |nodes|
    ensures [h] + InsertAt(nodes, k, x) + [t] == InsertAt([h] + nodes + [t], k + 1, x)
  {}

  lemma RemoveBetween(h: Node, nodes: seq<Node>, t: Node, k: nat)
    requires k < |nodes|
    ensures [h] + RemoveAt(nodes, k) + [t] == RemoveAt([h] + nodes + [t], k + 1)
  {}

  class List {
    const head: Node
    const tail: Node
    ghost var nodes: seq<Node>

    /** The nodes with the sentinels around them. */
    ghost function All(): (r: seq<Node>)
      reads this
      ensures |r| == |nodes| + 2 && r[0] == head && r[|nodes| + 1] == tail
      ensures forall i | 0 <= i < |nodes| :: r[i + 1] == nodes[i]
    {
      [head] + nodes + [tail]
    }

    ghost function Place(i: nat): Node
      requires i < |nodes| + 2
      reads this
    {
      All()[i]
    }

    ghost predicate Valid()
      reads this, head, tail, nodes
    {
      Distinct(All()) && Linked(All()) && head.prev == null && tail.next == null
    }

    /** list_init. */
    constructor ()
      ensures Valid() && nodes == [] && fresh(All())
    {
      head := new Node(0);
      tail := new Node(0);
      nodes := [];
      new;
      head.next := tail;
      tail.prev := head;
    }

    /** list_insert_before: node goes in front of the anchor at place k. */
    method InsertBefore(anchor: Node, node: Node, ghost k: nat)
      requires Valid() && k <= |nodes| && anchor == All()[k + 1] && node !in All()
      modifies this`nodes, node, anchor`prev, anchor.prev`next
      ensures Valid() && nodes == InsertAt(old(nodes), k, node)
    {
      hide Distinct, InsertAt, RemoveAt, Nexts, Prevs;
      ghost var all, nexts, prevs := All(), Nexts(All()), Prevs(All());
      InsertBetween(head, nodes, tail, k, node);
      Links(all, k);
      ApartFrom(all, k);
      ApartFrom(all, k + 1);
      node.prev := anchor.prev;
      node.next := anchor;
      anchor.prev.next := node;
      anchor.prev := node;
      nodes := InsertAt(nodes, k, node);
      InsertAtIndex(all, k + 1, node);
      ApartInserted(all, k + 1, node);
      OtherLinks(all, nexts, prevs, k, 1);
      hide Linked;
      InsertedLinks(all, InsertAt(all, k + 1, node), k + 1);
    }

    /** list_insert_after: node goes behind the anchor at place k. */
    method InsertAfter(anchor: Node, node: Node, ghost k: nat)
      requires Valid() && k <= |nodes| && anchor == All()[k] && node !in All()
      modifies this`nodes, node, anchor`next, anchor.next`prev
      ensures Valid() && nodes == InsertAt(old(nodes), k, node)
    {
      hide Distinct, InsertAt, RemoveAt, Nexts, Prevs;
      ghost var all, nexts, prevs := All(), Nexts(All()), Prevs(All());
      InsertBetween(head, nodes, tail, k, node);
      Links(all, k);
      ApartFrom(all, k);
      ApartFrom(all, k + 1);
      node.prev := anchor;
      node.next := anchor.next;
      anchor.next.prev := node;
      anchor.next := node;
      nodes := InsertAt(nodes, k, node);
      InsertAtIndex(all, k + 1, node);
      ApartInserted(all, k + 1, node);
      OtherLinks(all, nexts, prevs, k, 1);
      hide Linked;
      InsertedLinks(all, InsertAt(all, k + 1, node), k + 1);
    }

    /** list_remove: node leaves its place k and both its links are cleared. */
    method Remove(node: Node, ghost k: nat)
      requires Valid() && k < |nodes| && nodes[k] == node
      modifies this`nodes, node, node.prev`next, node.next`prev
      ensures Valid() && nodes == RemoveAt(old(nodes), k)
      ensures node.prev == null && node.next == null
    {
      hide Distinct, InsertAt, RemoveAt, Nexts, Prevs;
      ghost var all, nexts, prevs := All(), Nexts(All()), Prevs(All());
      RemoveBetween(head, nodes, tail, k);
      ApartFrom(all, k);
      ApartFrom(all, k + 1);
      ApartFrom(all, k + 2);
      Neighbours(all, k + 1);
      node.prev.next := node.next;
      node.next.prev := node.prev;
      node.prev := null;
      node.next := null;
      nodes := RemoveAt(nodes, k);
      RemoveAtIndex(all, k + 1);
      ApartRemoved(all, k + 1);
      OtherLinks(all, nexts, prevs, k, 2);
      hide Linked;
      RemovedLinks(all, RemoveAt(all, k + 1), k + 1);
    }

    /** list_search: whether node is linked in this list. */
    method Search(node: Node) returns (found: bool)
      requires Valid()
      ensures found <==> node in nodes
    {
      var next := head.next;
      ghost var i := 0;
      while next != tail
        invariant i <= |nodes| && next == All()[i + 1] && node !in nodes[..i]
        decreases |nodes| - i
      {
        assert next == nodes[i];
        if next == node {
          return true;
        }
        next := next.next;
        i := i + 1;
      }
      assert nodes[..i] == nodes by { AtTail(i); }
      return false;
    }

    lemma AtTail(i: nat)
      requires Valid() && i <= |nodes| && All()[i + 1] == tail
      ensures i == |nodes|
    {}

    /** list_empty. */
    method Empty() returns (empty: bool)
      requires Valid()
      ensures empty <==> nodes == []
    {
      assert head.next == All()[1];
      if nodes != [] { assert All()[1] == nodes[0]; }
      empty := head.next == tail;
    }

    /** list_size. */
    method Size() returns (size: nat)
      requires Valid()
      ensures size == |nodes|
    {
      size := 0;
      var next := head.next;
      while next != tail
        invariant size <= |nodes| && next == All()[size + 1]
        decreases |nodes| - size
      {
        next := next.next;
        size := size + 1;
      }
      AtTail(size);
    }

    /** list_push: a new first node. */
    method Push(node: Node)
      requires Valid() && node !in All()
      modifies this`nodes, node, head`next, head.next`prev
      ensures Valid() && nodes == [node] + old(nodes)
    {
      InsertAfter(head, node, 0);
    }

    /** list_pushback: a new last node. */
    method PushBack(node: Node)
      requires Valid() && node !in All()
      modifies this`nodes, node, tail`prev, tail.prev`next
      ensures Valid() && nodes == old(nodes) + [node]
    {
      InsertBefore(tail, node, |nodes|);
    }

    ghost function Keys(): (r: seq<int>)
      reads this
      ensures |r| == |nodes|
    {
      seq(|nodes|, i requires 0 <= i < |nodes| reads this => nodes[i].key)
    }

    /** list_pop: the first node, unlinked. */
    method Pop() returns (node: Node)
      requires Valid() && nodes != []
      modifies this`nodes, nodes[0], head`next, Place(2)`prev
      ensures Valid() && nodes == old(nodes)[1..] && node == old(nodes)[0] && node.prev == null && node.next == null
    {
      Links(All(), 0);
      Links(All(), 1);
      node := head.next;
      Remove(node, 0);
    }

    /** list_popback: the last node, unlinked. */
    method PopBack() returns (node: Node)
      requires Valid() && nodes != []
      modifies this`nodes, nodes[|nodes| - 1], tail`prev, Place(|nodes| - 1)`next
      ensures Valid() && nodes == old(nodes)[..|old(nodes)| - 1] && node == old(nodes)[|old(nodes)| - 1]
      ensures node.prev == null && node.next == null
    {
      Links(All(), |nodes|);
      Links(All(), |nodes| - 1);
      node := tail.prev;
      Remove(node, |nodes| - 1);
    }

    /** The loop of list_insert_sort: the first node with a larger key, or the tail. */
    method FindAnchor(key: int) returns (anchor: Node, ghost k: nat)
      requires Valid()
      ensures k == InsertPos(Keys(), key) <= |nodes| && anchor == All()[k + 1]
    {
      hide Distinct;
      anchor := tail;
      var ptr := head.next;
      k := 0;
      while ptr != tail
        invariant k <= |nodes| && ptr == All()[k + 1] && anchor == tail
        invariant forall j | 0 <= j < k :: nodes[j].key <= key
        decreases |nodes| - k
      {
        if ptr.key > key {
          anchor := ptr;
          break;
        }
        ptr := ptr.next;
        k := k + 1;
      }
      if anchor == tail && ptr == tail { AtTail(k); }
      FirstLarger(Keys(), key, k);
    }

    /** list_insert_sort: behind the last node whose key is not larger. */
    method InsertSort(node: Node)
      requires Valid() && node !in All() && node.prev == null && node.next == null
      modifies this`nodes, node, Place(InsertPos(Keys(), node.key) + 1)`prev,
               Place(InsertPos(Keys(), node.key))`next
      ensures Valid()
      ensures nodes == InsertAt(old(nodes), InsertPos(old(Keys()), node.key), node)
    {
      hide Distinct, InsertPos;
      var anchor, k := FindAnchor(node.key);
      Links(All(), k);
      InsertBefore(anchor, node, k);
    }
  }
}
