/** Intrusive circular doubly linked lists: a head node and entries that link to
    each other in both directions. The same nodes are shared by every list they
    move through. */
module LinkedList {

  /** An entry; the head of a list is a node whose data is not used. */
  class Node<T> {
    var next: Node?<T>
    var prev: Node?<T>
    var data: T

    /** A node by itself is an empty list. */
    constructor (data: T)
      ensures next == prev == this && this.data == data
    {
      this.data := data;
      next, prev := this, this;
    }
  }

  /** Position i of the circle: the head, the entries in order, the head again. */
  ghost function At<T>(head: Node<T>, nodes: seq<Node<T>>, i: nat): Node<T>
    requires i <= |nodes| + 1
  {
    if i == 0 || i == |nodes| + 1 then head else nodes[i - 1]
  }

  ghost predicate Distinct<T>(head: Node<T>, nodes: seq<Node<T>>) {
    head !in nodes && forall i, j :: 0 <= i < j < |nodes| ==> nodes[i] != nodes[j]
  }

  ghost predicate Disjoint<T>(a: seq<Node<T>>, b: seq<Node<T>>) {
    forall i, j :: 0 <= i < |a| && 0 <= j < |b| ==> a[i] != b[j]
  }

  /** A well-formed list: both directions run through the head and the entries in order. */
  ghost predicate Ring<T>(head: Node<T>, nodes: seq<Node<T>>)
    reads head, nodes
  {
    Distinct(head, nodes) &&
    forall i {:trigger At(head, nodes, i)} :: 0 <= i <= |nodes| ==>
      At(head, nodes, i).next == At(head, nodes, i + 1) && At(head, nodes, i + 1).prev == At(head, nodes, i)
  }

  ghost function Data<T>(nodes: seq<Node<T>>): (s: seq<T>)
    reads nodes
    ensures |s| == |nodes| && forall i :: 0 <= i < |s| ==> s[i] == nodes[i].data
  {
    seq(|nodes|, i requires 0 <= i < |nodes| reads nodes => nodes[i].data)
  }

  lemma DataCons<T>(nodes: seq<Node<T>>)
    requires nodes != []
    ensures Data(nodes) == [nodes[0].data] + Data(nodes[1..])
  {
  }

  lemma DataSnoc<T>(nodes: seq<Node<T>>, last: Node<T>)
    ensures Data(nodes + [last]) == Data(nodes) + [last.data]
  {
  }

  /** Puts lnew between two neighbours, which may be one node. */
  method Insert<T>(lnew: Node<T>, prev: Node<T>, next: Node<T>, ghost head: Node<T>, ghost nodes: seq<Node<T>>, ghost k: nat)
    requires Ring(head, nodes) && k <= |nodes| && prev == At(head, nodes, k) && next == At(head, nodes, k + 1)
    requires lnew != head && lnew !in nodes
    modifies lnew`next, lnew`prev, prev`next, next`prev
    ensures Ring(head, nodes[..k] + [lnew] + nodes[k..])
  {
    ghost var after := nodes[..k] + [lnew] + nodes[k..];
    next.prev := lnew;
    lnew.next := next;
    lnew.prev := prev;
    prev.next := lnew;
    forall i {:trigger At(head, after, i)} | 0 <= i <= |after|
      ensures At(head, after, i).next == At(head, after, i + 1) && At(head, after, i + 1).prev == At(head, after, i)
    {
      if i < k {
        assert At(head, after, i) == At(head, nodes, i) && At(head, after, i + 1) == At(head, nodes, i + 1);
      } else if i > k + 1 {
        assert At(head, after, i) == At(head, nodes, i - 1) && At(head, after, i + 1) == At(head, nodes, i);
      }
    }
  }

  /** list_add_tail. */
  method AddTail<T>(lnew: Node<T>, head: Node<T>, ghost nodes: seq<Node<T>>)
    requires Ring(head, nodes) && lnew != head && lnew !in nodes
    modifies lnew`next, lnew`prev, head`prev, At(head, nodes, |nodes|)`next
    ensures Ring(head, nodes + [lnew]) && Data(nodes) == old(Data(nodes)) && lnew.data == old(lnew.data)
  {
    assert At(head, nodes, |nodes| + 1) == head;
    assert At(head, nodes, |nodes|).next == head;
    Insert(lnew, head.prev, head, head, nodes, |nodes|);
    assert nodes[..|nodes|] + [lnew] + nodes[|nodes|..] == nodes + [lnew];
  }

  /** list_add. */
  method AddFirst<T>(lnew: Node<T>, head: Node<T>, ghost nodes: seq<Node<T>>)
    requires Ring(head, nodes) && lnew != head && lnew !in nodes
    modifies lnew`next, lnew`prev, head`next, At(head, nodes, 1)`prev
    ensures Ring(head, [lnew] + nodes)
  {
    assert At(head, nodes, 0) == head;
    Insert(lnew, head, head.next, head, nodes, 0);
    assert nodes[..0] + [lnew] + nodes[0..] == [lnew] + nodes;
  }

  /** list_del: the neighbours are joined, the entry's own links become null. */
  method Delete<T>(entry: Node<T>, ghost head: Node<T>, ghost nodes: seq<Node<T>>, ghost k: nat)
    requires Ring(head, nodes) && k < |nodes| && entry == nodes[k]
    modifies entry`next, entry`prev, At(head, nodes, k)`next, At(head, nodes, k + 2)`prev
    ensures Ring(head, nodes[..k] + nodes[k + 1..]) && Data(nodes) == old(Data(nodes))
    ensures entry.next == entry.prev == null
  {
    ghost var after := nodes[..k] + nodes[k + 1..];
    assert At(head, nodes, k + 1) == entry;
    assert At(head, nodes, k).next == entry;
    var prev: Node<T>, next: Node<T> := entry.prev, entry.next;
    next.prev := prev;
    prev.next := next;
    entry.next := null;
    entry.prev := null;
    forall i {:trigger At(head, after, i)} | 0 <= i <= |after|
      ensures At(head, after, i).next == At(head, after, i + 1) && At(head, after, i + 1).prev == At(head, after, i)
    {
      if i < k {
        assert At(head, after, i) == At(head, nodes, i);
      } else if i > k {
        assert At(head, after, i) == At(head, nodes, i + 1) && At(head, after, i + 1) == At(head, nodes, i + 2);
      } else {
        assert At(head, after, i) == At(head, nodes, i) && At(head, after, i + 1) == At(head, nodes, i + 2);
      }
    }
  }

  /** The test for an empty list looks at one link. */
  lemma EmptyIff<T>(head: Node<T>, nodes: seq<Node<T>>)
    requires Ring(head, nodes)
    ensures head.next == head <==> nodes == []
    ensures nodes != [] ==> head.next == nodes[0]
  {
    assert At(head, nodes, 0).next == At(head, nodes, 1);
  }

  /** list_splice: all entries of one list, in order, to the front of another. */
  method Splice<T>(list: Node<T>, head: Node<T>, ghost moved: seq<Node<T>>, ghost nodes: seq<Node<T>>)
    requires Ring(list, moved) && Ring(head, nodes)
    requires list != head && list !in nodes && head !in moved && Disjoint(moved, nodes)
    modifies head`next, At(list, moved, 1)`prev, At(list, moved, |moved|)`next, At(head, nodes, 1)`prev
    ensures Ring(head, moved + nodes)
  {
    ghost var after := moved + nodes;
    EmptyIff(list, moved);
    if list.next == list {
      assert after == nodes;
      return;
    }
    assert At(list, moved, |moved|).next == At(list, moved, |moved| + 1);
    assert At(head, nodes, 0).next == At(head, nodes, 1);
    var first: Node<T>, last: Node<T>, at: Node<T> := list.next, list.prev, head.next;
    first.prev := head;
    head.next := first;
    last.next := at;
    at.prev := last;
    forall i {:trigger At(head, after, i)} | 0 <= i <= |after|
      ensures At(head, after, i).next == At(head, after, i + 1) && At(head, after, i + 1).prev == At(head, after, i)
    {
      if 0 < i < |moved| {
        assert At(head, after, i) == At(list, moved, i) && At(head, after, i + 1) == At(list, moved, i + 1);
      } else if i > |moved| {
        assert At(head, after, i) == At(head, nodes, i - |moved|) && At(head, after, i + 1) == At(head, nodes, i - |moved| + 1);
      } else if i == |moved| {
        assert At(head, after, i + 1) == At(head, nodes, 1);
      }
    }
  }

  /** One turn of the loop: the successor is read before the entry is deleted. */
  method DeleteFirst<T>(pos: Node<T>, ghost head: Node<T>, ghost nodes: seq<Node<T>>) returns (iter: Node<T>)
    requires Ring(head, nodes) && nodes != [] && pos == nodes[0]
    modifies pos`next, pos`prev, head`next, At(head, nodes, 2)`prev
    ensures Ring(head, nodes[1..]) && pos.next == pos.prev == null
    ensures iter == if |nodes| == 1 then head else nodes[1]
  {
    hide Ring;
    NextAt(head, nodes);
    assert nodes[..0] + nodes[1..] == nodes[1..];
    iter := pos.next;
    Delete(pos, head, nodes, 0);
  }

  /** Walks the whole list, deleting each entry after its successor was read. */
  method DeleteAll<T>(head: Node<T>, ghost nodes: seq<Node<T>>) returns (freed: seq<Node<T>>)
    requires Ring(head, nodes)
    modifies head, nodes
    ensures freed == nodes && Ring(head, [])
    ensures forall k :: 0 <= k < |nodes| ==> nodes[k].next == nodes[k].prev == null
  {
    hide Ring, Distinct;
    EmptyIff(head, nodes);
    var pos: Node<T> := head.next;
    freed := [];
    ghost var i := 0;
    assert nodes[0..] == nodes;
    RingDistinct(head, nodes);
    while pos != head
      invariant i <= |nodes| && freed == nodes[..i] && Ring(head, nodes[i..])
      invariant pos == if i == |nodes| then head else nodes[i]
      invariant forall k :: 0 <= k < i ==> nodes[k].next == nodes[k].prev == null
      decreases |nodes| - i
    {
      Apart(head, nodes, i);
      assert nodes[i..][1..] == nodes[i + 1..];
      var iter := DeleteFirst(pos, head, nodes[i..]);
      freed := freed + [pos];
      pos, i := iter, i + 1;
    }
    assert nodes[i..] == [];
  }

  lemma Apart<T>(head: Node<T>, nodes: seq<Node<T>>, i: nat)
    requires Distinct(head, nodes) && i < |nodes|
    ensures forall k :: 0 <= k < i ==> nodes[k] != nodes[i] && nodes[k] != head && (i + 1 < |nodes| ==> nodes[k] != nodes[i + 1])
    ensures nodes[i..][0] == nodes[i] && (i + 1 < |nodes| ==> nodes[i..][1] == nodes[i + 1])
  {
  }

  lemma RingDistinct<T>(head: Node<T>, nodes: seq<Node<T>>)
    requires Ring(head, nodes)
    ensures Distinct(head, nodes)
  {
  }

  lemma NextAt<T>(head: Node<T>, nodes: seq<Node<T>>)
    requires Ring(head, nodes) && nodes != []
    ensures nodes[0].next == if |nodes| == 1 then head else nodes[1]
  {
    assert At(head, nodes, 1).next == At(head, nodes, 2);
  }
}
