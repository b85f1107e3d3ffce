/** The doubly linked thread list with a sentinel node at each end.

    Source: kern/thread/threadlist.c. */
module ThreadList {

  /** struct threadlistnode: embedded in its thread, or a sentinel of a list. */
  class Node {
    var prev: Node?
    var next: Node?

    /** threadlistnode_init. */
    constructor ()
      ensures prev == null && next == null
    {
      prev, next := null, null;
    }
  }

  /** s with x put in at index k. */
  function InsertAt<T>(s: seq<T>, k: nat, x: T): (r: seq<T>)
    requires k <= |s|
    ensures |r| == |s| + 1
    ensures forall i {:trigger r[i]} :: 0 <= i < |r| ==> r[i] == if i < k then s[i] else if i == k then x else s[i - 1]
  {
    s[..k] + [x] + s[k..]
  }

  function RemoveAt<T>(s: seq<T>, k: nat): seq<T>
    requires k < |s|
  {
    s[..k] + s[k + 1..]
  }

  ghost predicate Distinct<T>(s: seq<T>) { forall i, j :: 0 <= i < j < |s| ==> s[i] != s[j] }

  /** Taking out what was put in gives the list back, and so does putting back what was
      taken out. */
  lemma InsertRemove<T>(s: seq<T>, k: nat, x: T)
    ensures k <= |s| ==> RemoveAt(InsertAt(s, k, x), k) == s
    ensures k < |s| ==> InsertAt(RemoveAt(s, k), k, s[k]) == s
  {
  }

  class List {
    const head: Node
    const tail: Node
    var count: nat
    ghost var nodes: seq<Node>      // sentinels included

    /** Neighbours point at each other, the ends point nowhere, and no node is
        linked in twice. */
    ghost predicate Valid()
      reads this, nodes
    {
      && |nodes| >= 2 && nodes[0] == head && nodes[|nodes| - 1] == tail && Distinct(nodes)
      && count == |nodes| - 2
      && head.prev == null && tail.next == null
      && (forall i {:trigger nodes[i].next} :: 0 <= i < |nodes| - 1 ==> nodes[i].next == nodes[i + 1])
      && (forall i {:trigger nodes[i].prev} :: 0 < i < |nodes| ==> nodes[i].prev == nodes[i - 1])
    }

    /** The threads on the list, first to last. */
    ghost function Threads(): seq<Node>
      requires Valid()
      reads this, nodes
    {
      nodes[1..|nodes| - 1]
    }

    /** threadlist_init. */
    constructor ()
      ensures Valid() && Threads() == [] && fresh(head) && fresh(tail)
    {
      head := new Node();
      tail := new Node();
      count := 0;
      new;
      head.next := tail;
      tail.prev := head;
      nodes := [head, tail];
    }

    /** threadlist_isempty. */
    method IsEmpty() returns (r: bool)
      requires Valid()
      ensures r <==> Threads() == []
    {
      r := count == 0;
    }

    /** The list once t is linked in before the node that was at index k. */
    lemma Linked(was: seq<Node>, k: nat, t: Node)
      requires 0 < k < |was| && Distinct(was) && t !in was && nodes == InsertAt(was, k, t)
      requires was[0] == head && was[|was| - 1] == tail && count == |was| - 1
      requires head.prev == null && tail.next == null
      requires was[k - 1].next == t && t.next == was[k] && was[k].prev == t && t.prev == was[k - 1]
      requires forall i {:trigger was[i].next} :: 0 <= i < |was| - 1 && i != k - 1 ==> was[i].next == was[i + 1]
      requires forall i {:trigger was[i].prev} :: 0 < i < |was| && i != k ==> was[i].prev == was[i - 1]
      ensures Valid()
    {
      forall i {:trigger nodes[i].next} | 0 <= i < |nodes| - 1 ensures nodes[i].next == nodes[i + 1] {
        if i < k { assert nodes[i] == was[i]; } else if i > k { assert nodes[i] == was[i - 1]; }
      }
      forall i {:trigger nodes[i].prev} | 0 < i < |nodes| ensures nodes[i].prev == nodes[i - 1] {
        if i < k { assert nodes[i] == was[i]; } else if i > k { assert nodes[i] == was[i - 1]; }
      }
    }

    /** threadlist_insertafternode, with the count: put t after the node at index k. */
    method InsertAfterNode(onlist: Node, t: Node, ghost k: nat)
      requires Valid() && k < |nodes| - 1 && nodes[k] == onlist
      requires t !in nodes && t.prev == null && t.next == null
      modifies this, nodes, t
      ensures Valid() && nodes == InsertAt(old(nodes), k + 1, t)
    {
      t.prev := onlist;
      t.next := onlist.next;
      t.prev.next := t;
      t.next.prev := t;
      ghost var was := nodes;
      nodes := InsertAt(was, k + 1, t);
      count := count + 1;
      Linked(was, k + 1, t);
    }

    /** threadlist_insertbeforenode, with the count: put t before the node at index k. */
    method InsertBeforeNode(t: Node, onlist: Node, ghost k: nat)
      requires Valid() && 0 < k < |nodes| && nodes[k] == onlist
      requires t !in nodes && t.prev == null && t.next == null
      modifies this, nodes, t
      ensures Valid() && nodes == InsertAt(old(nodes), k, t)
    {
      t.prev := onlist.prev;
      t.next := onlist;
      t.prev.next := t;
      t.next.prev := t;
      ghost var was := nodes;
      nodes := InsertAt(was, k, t);
      count := count + 1;
      Linked(was, k, t);
    }

    /** threadlist_removenode, with the count: unlink the thread at index k. */
    method RemoveNode(t: Node, ghost k: nat)
      requires Valid() && 0 < k < |nodes| - 1 && nodes[k] == t
      modifies this, nodes
      ensures Valid() && nodes == RemoveAt(old(nodes), k)
      ensures t.prev == null && t.next == null
    {
      t.prev.next := t.next;
      t.next.prev := t.prev;
      t.prev := null;
      t.next := null;
      nodes := RemoveAt(nodes, k);
      count := count - 1;
    }

    /** threadlist_addhead. */
    method AddHead(t: Node)
      requires Valid() && t !in nodes && t.prev == null && t.next == null
      modifies this, nodes, t
      ensures Valid() && Threads() == [t] + old(Threads())
    {
      InsertAfterNode(head, t, 0);
    }

    /** threadlist_addtail. */
    method AddTail(t: Node)
      requires Valid() && t !in nodes && t.prev == null && t.next == null
      modifies this, nodes, t
      ensures Valid() && Threads() == old(Threads()) + [t]
    {
      InsertBeforeNode(t, tail, |nodes| - 1);
    }

    /** threadlist_remhead: the first thread, or null when there is none. */
    method RemHead() returns (r: Node?)
      requires Valid()
      modifies this, nodes
      ensures Valid() && (r == null <==> old(Threads()) == [])
      ensures r == null ==> nodes == old(nodes)
      ensures r != null ==> old(Threads()) == [r] + Threads() && r.prev == null && r.next == null && r !in nodes
    {
      var n := head.next;
      assert n == nodes[1];
      if n.next == null {
        assert |nodes| == 2;
        return null;
      }
      RemoveNode(n, 1);
      r := n;
    }

    /** threadlist_remtail: the last thread, or null when there is none. */
    method RemTail() returns (r: Node?)
      requires Valid()
      modifies this, nodes
      ensures Valid() && (r == null <==> old(Threads()) == [])
      ensures r == null ==> nodes == old(nodes)
      ensures r != null ==> old(Threads()) == Threads() + [r] && r.prev == null && r.next == null && r !in nodes
    {
      var n := tail.prev;
      assert n == nodes[|nodes| - 2];
      if n.prev == null {
        assert |nodes| == 2;
        return null;
      }
      RemoveNode(n, |nodes| - 2);
      r := n;
    }

    /** threadlist_insertafter and threadlist_insertbefore, next to a thread that is on
        the list. */
    method InsertAfter(onlist: Node, t: Node, ghost k: nat)
      requires Valid() && k < |Threads()| && Threads()[k] == onlist
      requires t !in nodes && t.prev == null && t.next == null
      modifies this, nodes, t
      ensures Valid() && Threads() == InsertAt(old(Threads()), k + 1, t)
    {
      InsertAfterNode(onlist, t, k + 1);
    }

    method InsertBefore(t: Node, onlist: Node, ghost k: nat)
      requires Valid() && k < |Threads()| && Threads()[k] == onlist
      requires t !in nodes && t.prev == null && t.next == null
      modifies this, nodes, t
      ensures Valid() && Threads() == InsertAt(old(Threads()), k, t)
    {
      InsertBeforeNode(t, onlist, k + 1);
    }

    /** threadlist_remove. */
    method Remove(t: Node, ghost k: nat)
      requires Valid() && k < |Threads()| && Threads()[k] == t
      modifies this, nodes
      ensures Valid() && Threads() == RemoveAt(old(Threads()), k)
      ensures t.prev == null && t.next == null && t !in nodes
    {
      RemoveNode(t, k + 1);
    }
  }
}
