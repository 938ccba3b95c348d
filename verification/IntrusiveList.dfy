/** The intrusive linked lists of list.h, on nodes that carry their own links. */
module IntrusiveList {

  class Node {
    var next: Node?
    var prev: Node?

    constructor ()
      ensures next == null && prev == null
    {
      next, prev := null, null;
    }
  }

  function Nodes(s: seq<Node>): set<Node> {
    set x | x in s
  }

  ghost predicate Distinct(s: seq<Node>) {
    forall i, j :: 0 <= i < j < |s| ==> s[i] != s[j]
  }

  lemma {:induction false} DistinctConcat(s: seq<Node>, t: seq<Node>)
    requires Distinct(s) && Distinct(t) && forall x :: x in t ==> x !in s
    ensures Distinct(s + t)
  {
    forall i, j | 0 <= i < j < |s + t| ensures (s + t)[i] != (s + t)[j] {
      assert i < |s| <= j ==> s[i] in s && t[j - |s|] in t;
    }
  }

  /** The `next` links run through `s` and end in `end`. */
  ghost predicate Chained(s: seq<Node>, end: Node?)
    reads Nodes(s)
  {
    && Distinct(s)
    && (forall i :: 0 <= i < |s| - 1 ==> s[i].next == s[i + 1])
    && (s != [] ==> s[|s| - 1].next == end)
  }

  /** The `prev` links run back through `s`. */
  ghost predicate BackChained(s: seq<Node>)
    reads Nodes(s)
  {
    && (forall i :: 0 < i < |s| ==> s[i].prev == s[i - 1])
    && (s != [] ==> s[0].prev == null)
  }

  function InsertedAfter(s: seq<Node>, k: nat, x: Node): seq<Node>
    requires k < |s|
  {
    s[..k + 1] + [x] + s[k + 1..]
  }

  function Removed(s: seq<Node>, k: nat): seq<Node>
    requires k < |s|
  {
    s[..k] + s[k + 1..]
  }

  class SinglyLinkedList {
    var size: nat
    var first: Node?
    var last: Node?
    ghost var nodes: seq<Node>   // what the list holds, in order

    ghost predicate Valid()
      reads this, Nodes(nodes)
    {
      && size == |nodes| && Chained(nodes, null)
      && (if nodes == [] then first == null && last == null else first == nodes[0] && last == nodes[|nodes| - 1])
    }

    constructor ()
      ensures Valid() && nodes == []
    {
      size, first, last, nodes := 0, null, null, [];
    }

    method PushBack(x: Node)
      requires Valid() && x !in nodes
      modifies this, x, last
      ensures Valid() && nodes == old(nodes) + [x]
    {
      x.next := null;
      if size == 0 {
        first := x;
      } else {
        last.next := x;
      }
      last := x;
      size := size + 1;
      nodes := nodes + [x];
    }

    method PushFront(x: Node)
      requires Valid() && x !in nodes
      modifies this, x
      ensures Valid() && nodes == [x] + old(nodes)
    {
      if size == 0 {
        last := x;
      }
      x.next := first;
      first := x;
      size := size + 1;
      nodes := [x] + nodes;
    }

    method PopFront()
      requires Valid() && nodes != []
      modifies this
      ensures Valid() && nodes == old(nodes)[1..]
    {
      first := first.next;
      if first == null {
        last := null;
      }
      size := size - 1;
      nodes := nodes[1..];
    }

    /** Inserts `x` behind the `k`-th node, which is `prev`. */
    method Insert(prev: Node, x: Node, ghost k: nat)
      requires Valid() && k < |nodes| && nodes[k] == prev && x !in nodes
      modifies this, x, prev
      ensures Valid() && nodes == InsertedAfter(old(nodes), k, x)
    {
      ghost var s := nodes;
      x.next := prev.next;
      prev.next := x;
      if last == prev {
        last := x;
      }
      size := size + 1;
      nodes := InsertedAfter(nodes, k, x);
      assert forall i :: 0 <= i <= k ==> nodes[i] == s[i];
      assert forall i :: k + 1 < i < |nodes| ==> nodes[i] == s[i - 1];
    }

    /** Takes out `x`, the node behind the `k`-th one, which is `prev`. */
    method Extract(prev: Node, x: Node, ghost k: nat)
      requires Valid() && k + 1 < |nodes| && nodes[k] == prev && nodes[k + 1] == x
      modifies this, prev
      ensures Valid() && nodes == Removed(old(nodes), k + 1)
    {
      ghost var s := nodes;
      prev.next := x.next;
      if last == x {
        last := prev;
      }
      size := size - 1;
      nodes := Removed(nodes, k + 1);
      assert forall i :: 0 <= i <= k ==> nodes[i] == s[i];
      assert forall i :: k < i < |nodes| ==> nodes[i] == s[i + 1];
    }

    /** Takes over all nodes of another list. */
    method AppendBack(l: SinglyLinkedList)
      requires Valid() && l.Valid() && l != this && (forall x :: x in l.nodes ==> x !in nodes)
      modifies this, l, last
      ensures Valid() && l.Valid() && nodes == old(nodes) + old(l.nodes) && l.nodes == []
    {
      if l.size == 0 {
        assert nodes + l.nodes == nodes;
        return;
      }
      ghost var s, t := nodes, l.nodes;
      DistinctConcat(s, t);
      if size == 0 {
        size, first, last := l.size, l.first, l.last;
      } else {
        last.next := l.first;
        last := l.last;
        size := size + l.size;
      }
      nodes := s + t;
      l.size, l.first, l.last, l.nodes := 0, null, null, [];
      assert forall i :: 0 <= i < |s| ==> nodes[i] == s[i];
      assert forall i :: |s| <= i < |nodes| ==> nodes[i] == t[i - |s|];
    }
  }

  class DoublyLinkedList {
    var size: nat
    var first: Node?
    var last: Node?
    ghost var nodes: seq<Node>

    ghost predicate Valid()
      reads this, Nodes(nodes)
    {
      && size == |nodes| && Chained(nodes, null) && BackChained(nodes)
      && (if nodes == [] then first == null && last == null else first == nodes[0] && last == nodes[|nodes| - 1])
    }

    constructor ()
      ensures Valid() && nodes == []
    {
      size, first, last, nodes := 0, null, null, [];
    }

    method PushFront(x: Node)
      requires Valid() && x !in nodes
      modifies this, x, first
      ensures Valid() && nodes == [x] + old(nodes)
    {
      ghost var s := nodes;
      x.prev := null;
      if size == 0 {
        last := x;
      } else {
        first.prev := x;
      }
      x.next := first;
      first := x;
      size := size + 1;
      nodes := [x] + nodes;
      assert forall i :: 0 < i < |nodes| ==> nodes[i] == s[i - 1];
    }

    method PushBack(x: Node)
      requires Valid() && x !in nodes
      modifies this, x, last
      ensures Valid() && nodes == old(nodes) + [x]
    {
      ghost var s := nodes;
      x.next := null;
      if size == 0 {
        first := x;
      } else {
        last.next := x;
      }
      x.prev := last;
      last := x;
      size := size + 1;
      nodes := nodes + [x];
      assert forall i :: 0 <= i < |s| ==> nodes[i] == s[i];
    }

    /** Inserts `x` before `y`, the `k`-th node. */
    method Insert(x: Node, y: Node, ghost k: nat)
      requires Valid() && k < |nodes| && nodes[k] == y && x !in nodes
      modifies this, x, y, y.prev, first
      ensures Valid() && nodes == old(nodes)[..k] + [x] + old(nodes)[k..]
    {
      ghost var s := nodes;
      if y == first {
        PushFront(x);
        assert s[..k] + [x] + s[k..] == [x] + s;
        return;
      }
      InsertBetween(x, y, k);
    }

    method InsertBetween(x: Node, y: Node, ghost k: nat)
      requires Valid() && 0 < k < |nodes| && nodes[k] == y && x !in nodes
      modifies this, x, y, y.prev
      ensures Valid() && nodes == old(nodes)[..k] + [x] + old(nodes)[k..]
    {
      ghost var s := nodes;
      assert s[k - 1].next == s[k] && y.prev == s[k - 1];
      var prev := y.prev;
      assert prev.next == y;
      prev.next := x;
      x.prev := prev;
      x.next := y;
      y.prev := x;
      size := size + 1;
      nodes := s[..k] + [x] + s[k..];
      assert forall i :: 0 <= i < k ==> nodes[i] == s[i];
      assert forall i :: k < i < |nodes| ==> nodes[i] == s[i - 1];
    }

    method PopFront()
      requires Valid() && nodes != []
      modifies this, first, first.next
      ensures Valid() && nodes == old(nodes)[1..]
    {
      assert |nodes| > 1 ==> nodes[0].next == nodes[1];
      first := first.next;
      if first == null {
        last := null;
      } else {
        first.prev := null;
      }
      size := size - 1;
      nodes := nodes[1..];
    }

    /** Takes out `x`, the `k`-th node. */
    method Remove(x: Node, ghost k: nat)
      requires Valid() && k < |nodes| && nodes[k] == x
      modifies this, x.prev, x.next
      ensures Valid() && nodes == Removed(old(nodes), k)
    {
      ghost var s := nodes;
      assert x.prev == if k == 0 then null else s[k - 1];
      assert x.next == if k == |s| - 1 then null else s[k + 1];
      var prev, next := x.prev, x.next;
      if prev != null {
        prev.next := next;
      }
      if next != null {
        next.prev := prev;
      }
      if first == x {
        first := next;
      }
      if last == x {
        last := prev;
      }
      size := size - 1;
      nodes := Removed(nodes, k);
      assert forall i :: 0 <= i < k ==> nodes[i] == s[i];
      assert forall i :: k <= i < |nodes| ==> nodes[i] == s[i + 1];
    }
  }
}
