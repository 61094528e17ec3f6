/** The doubly linked list of cache entries (Go's container/list, with the entry stored in the
    element): nodes is the front-to-back sequence that the pointers represent. */
module LinkedList {
  import opened Common
  import opened CacheModel
  import opened Responses

  class Element {
    var prev: Element?
    var next: Element?
    var key: Text
    var value: CachedResponse
    var size: int

    constructor (key: Text, value: CachedResponse, size: int)
      ensures this.key == key && this.value == value && this.size == size
    {
      prev, next := null, null;
      this.key, this.value, this.size := key, value, size;
    }
  }

  class List {
    var front: Element?
    var back: Element?
    var len: nat
    ghost var nodes: seq<Element>

    ghost predicate Valid()
      reads this, nodes`prev, nodes`next
    {
      && len == |nodes|
      && (forall i, j :: 0 <= i < j < |nodes| ==> nodes[i] != nodes[j])
      && front == (if nodes == [] then null else nodes[0])
      && back == (if nodes == [] then null else nodes[|nodes| - 1])
      && (forall i {:trigger nodes[i].prev} :: 0 <= i < |nodes| ==>
            nodes[i].prev == if i == 0 then null else nodes[i - 1])
      && (forall i {:trigger nodes[i].next} :: 0 <= i < |nodes| ==>
            nodes[i].next == if i == |nodes| - 1 then null else nodes[i + 1])
    }

    ghost function NodeSet(): set<Element>
      reads `nodes
    {
      set e | e in nodes
    }

    constructor ()
      ensures Valid() && nodes == []
    {
      front, back, len, nodes := null, null, 0, [];
    }

    method PushFront(e: Element)
      requires Valid() && e !in nodes
      modifies this, NodeSet()`prev, e`prev, e`next
      ensures Valid() && nodes == [e] + old(nodes)
    {
      e.prev, e.next := null, front;
      if front == null {
        back := e;
      } else {
        front.prev := e;
      }
      front := e;
      len := len + 1;
      nodes := [e] + nodes;
    }

    method Remove(e: Element, ghost i: nat)
      requires Valid() && i < |nodes| && nodes[i] == e
      modifies this, NodeSet()`prev, NodeSet()`next
      ensures Valid() && nodes == Cut(old(nodes), i)
      ensures e !in nodes
    {
      hide Cut;
      if e.prev == null {
        front := e.next;
      } else {
        e.prev.next := e.next;
      }
      if e.next == null {
        back := e.prev;
      } else {
        e.next.prev := e.prev;
      }
      e.prev, e.next := null, null;
      len := len - 1;
      nodes := Cut(nodes, i);
    }

    method MoveToFront(e: Element, ghost i: nat)
      requires Valid() && i < |nodes| && nodes[i] == e
      modifies this, NodeSet()`prev, NodeSet()`next
      ensures Valid() && nodes == [e] + Cut(old(nodes), i)
    {
      if front == e {
        return;
      }
      Remove(e, i);
      PushFront(e);
    }
  }
}
