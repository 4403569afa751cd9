/**
 * The doubly linked list behind the LRU cache (LRUCache DoubleLinkedList.java
 * and Node.java). Two sentinel nodes, `head` and `tail`, bound the list; the
 * nodes between them are the cache entries, most recently used first.
 *
 * The ghost field `Spine` lists every linked node from `head` to `tail`; the
 * invariant `Valid` says that consecutive spine nodes point at each other in
 * both directions and that no node occurs twice.
 */
module LinkedList {

  class Node<K(0), V(0)> {
    /** Assigned once, by the constructor. */
    const key: K
    var value: V
    var next: Node?<K, V>
    var previous: Node?<K, V>

    constructor (key: K, value: V)
      ensures this.key == key && this.value == value
      ensures next == null && previous == null
    {
      this.key := key;
      this.value := value;
      next := null;
      previous := null;
    }

    /** A sentinel: Java creates it with a null key and value; here they keep their default. */
    constructor Sentinel()
      ensures next == null && previous == null
    {
      next := null;
      previous := null;
    }
  }

  /** No element occurs twice. */
  ghost predicate Distinct<T>(s: seq<T>)
  {
    forall i, j :: 0 <= i < j < |s| ==> s[i] != s[j]
  }

  /** `s` without its element at `i`. */
  function RemoveAt<T>(s: seq<T>, i: int): (r: seq<T>)
    requires 0 <= i < |s|
    ensures |r| == |s| - 1
    ensures forall j :: 0 <= j < i ==> r[j] == s[j]
    ensures forall j :: i <= j < |r| ==> r[j] == s[j + 1]
  {
    s[..i] + s[i + 1..]
  }

  lemma RemoveAtKeepsDistinct<T>(s: seq<T>, i: int)
    requires Distinct(s) && 0 <= i < |s|
    ensures Distinct(RemoveAt(s, i)) && s[i] !in RemoveAt(s, i)
  {
    var r := RemoveAt(s, i);
    forall j, k | 0 <= j < k < |r|
      ensures r[j] != r[k]
    {
      assert r[j] == if j < i then s[j] else s[j + 1];
      assert r[k] == if k < i then s[k] else s[k + 1];
    }
    forall j | 0 <= j < |r|
      ensures r[j] != s[i]
    {
      assert r[j] == if j < i then s[j] else s[j + 1];
    }
  }

  /** Dropping an inner element commutes with dropping the two ends. */
  lemma RemoveAtInner<T>(s: seq<T>, i: int)
    requires 0 < i < |s| - 1
    ensures RemoveAt(s, i)[1..|s| - 2] == RemoveAt(s[1..|s| - 1], i - 1)
  {
  }

  class DoubleLinkedList<K(0), V(0)> {
    /** Assigned once, by the constructor. */
    const head: Node<K, V>
    const tail: Node<K, V>
    /** head, the entries in order, tail. */
    ghost var Spine: seq<Node<K, V>>
    /** The list and every node ever linked into it. */
    ghost var Repr: set<object>

    ghost predicate Valid()
      reads this, Spine`next, Spine`previous
    {
      && |Spine| >= 2 && Spine[0] == head && Spine[|Spine| - 1] == tail
      && (forall i {:trigger Spine[i].next} :: 0 <= i < |Spine| - 1 ==> Spine[i].next == Spine[i + 1])
      && (forall i {:trigger Spine[i].previous} :: 0 < i < |Spine| ==> Spine[i].previous == Spine[i - 1])
      && Distinct(Spine)
      && this in Repr && (forall i :: 0 <= i < |Spine| ==> Spine[i] in Repr)
    }

    lemma NodesDistinct()
      requires Valid()
      ensures Distinct(Nodes())
    {
      var ns := Nodes();
      forall i, j | 0 <= i < j < |ns|
        ensures ns[i] != ns[j]
      {
        assert ns[i] == Spine[i + 1] && ns[j] == Spine[j + 1];
      }
    }

    /** The first entry occurs nowhere else in the list. */
    lemma FirstOnce()
      requires Valid() && |Spine| > 2
      ensures Nodes()[0] !in Nodes()[1..]
    {
      var ns := Nodes();
      forall j | 0 <= j < |ns[1..]|
        ensures ns[1..][j] != ns[0]
      {
        assert ns[1..][j] == Spine[j + 2] && ns[0] == Spine[1];
      }
    }

    /** The entry nodes, without the two sentinels. */
    ghost function Nodes(): seq<Node<K, V>>
      reads this
      requires |Spine| >= 2
    {
      Spine[1..|Spine| - 1]
    }

    /** Where a linked node sits in the spine; unique because no node occurs twice. */
    ghost function Position(n: Node<K, V>): (i: nat)
      reads this
      requires n in Spine
      ensures i < |Spine| && Spine[i] == n
    {
      var i :| 0 <= i < |Spine| && Spine[i] == n; i
    }

    /** A new list holds only the two sentinels, linked to each other. */
    constructor ()
      ensures Valid() && fresh(head) && fresh(tail) && fresh(Repr)
      ensures Spine == [head, tail] && Nodes() == []
      ensures head.next == tail && tail.previous == head
    {
      head := new Node.Sentinel();
      tail := new Node.Sentinel();
      new;
      head.next := tail;
      tail.previous := head;
      Spine := [head, tail];
      Repr := {this, head, tail};
    }

    /** Links `node` right after `head`, in front of every other entry. */
    method AddFirst(node: Node<K, V>)
      requires Valid() && node !in Spine
      modifies Repr, node
      ensures Repr == old(Repr) + {node}
      ensures Valid()
      ensures Spine == [head, node] + old(Spine)[1..]
      ensures Nodes() == [node] + old(Nodes())
      ensures node.value == old(node.value)
      ensures forall i :: 0 <= i < |old(Nodes())| ==> old(Nodes())[i].value == old(Nodes()[i].value)
    {
      ghost var s := Spine;
      assert head.next == s[1];
      node.next := head.next;
      node.previous := head;
      head.next.previous := node;
      head.next := node;
      Spine := [head, node] + s[1..];
      Repr := Repr + {node};
      assert forall i :: 2 <= i < |Spine| ==> Spine[i] == s[i - 1];
      forall i | 2 <= i < |Spine| - 1
        ensures Spine[i].next == Spine[i + 1]
      {
        assert Spine[i] == s[i - 1] && Spine[i + 1] == s[i];
        assert s[i - 1] != s[0] && old(s[i - 1].next) == s[i];
      }
      forall i | 3 <= i < |Spine|
        ensures Spine[i].previous == Spine[i - 1]
      {
        assert Spine[i] == s[i - 1] && Spine[i - 1] == s[i - 2];
        assert s[i - 1] != s[1] && old(s[i - 1].previous) == s[i - 2];
      }
    }

    /** Unlinks `node`: its two neighbours now point at each other. */
    method Remove(node: Node<K, V>)
      requires Valid() && node in Nodes()
      modifies Repr
      ensures Repr == old(Repr)
      ensures Valid()
      ensures Spine == old(RemoveAt(Spine, Position(node)))
      ensures Nodes() == old(RemoveAt(Nodes(), Position(node) - 1))
      ensures node !in Spine
      ensures node.previous == old(node.previous) && node.next == old(node.next)
      ensures forall i :: 0 <= i < |old(Nodes())| ==> old(Nodes())[i].value == old(Nodes()[i].value)
    {
      ghost var s := Spine;
      ghost var i := Position(node);
      assert 0 < i < |s| - 1;
      assert node.previous == s[i - 1] && node.next == s[i + 1];
      node.previous.next := node.next;
      node.next.previous := node.previous;
      Spine := RemoveAt(s, i);
      RemoveAtKeepsDistinct(s, i);
      RemoveAtInner(s, i);
      forall j | 0 <= j < |Spine| - 1
        ensures Spine[j].next == Spine[j + 1]
      {
        if j < i - 1 {
          assert Spine[j] == s[j] && Spine[j + 1] == s[j + 1];
          assert s[j] != s[i - 1] && old(s[j].next) == s[j + 1];
        } else if i <= j {
          assert Spine[j] == s[j + 1] && Spine[j + 1] == s[j + 2];
          assert s[j + 1] != s[i - 1] && old(s[j + 1].next) == s[j + 2];
        }
      }
      forall j | 0 < j < |Spine|
        ensures Spine[j].previous == Spine[j - 1]
      {
        if j < i {
          assert Spine[j] == s[j] && Spine[j - 1] == s[j - 1];
          assert s[j] != s[i + 1] && old(s[j].previous) == s[j - 1];
        } else if i < j {
          assert Spine[j] == s[j + 1] && Spine[j - 1] == s[j];
          assert s[j + 1] != s[i + 1] && old(s[j + 1].previous) == s[j];
        }
      }
    }

    /** Makes `node` the first entry, keeping the order of the others. */
    method MoveToFront(node: Node<K, V>)
      requires Valid() && node in Nodes()
      modifies Repr
      ensures Repr == old(Repr)
      ensures Valid()
      ensures Nodes() == [node] + old(RemoveAt(Nodes(), Position(node) - 1))
      ensures forall i :: 0 <= i < |old(Nodes())| ==> old(Nodes())[i].value == old(Nodes()[i].value)
    {
      ghost var ns := Nodes();
      ghost var p := Position(node) - 1;
      assert Spine[p + 1] in Repr;
      Remove(node);
      ghost var rs := Nodes();
      AddFirst(node);
      forall i | 0 <= i < |ns|
        ensures ns[i].value == old(ns[i].value)
      {
        if i < p {
          assert rs[i] == ns[i];
        } else if i > p {
          assert rs[i - 1] == ns[i];
        }
      }
    }

    /** Unlinks and returns the entry just before `tail`, the least recently used one. */
    method RemoveLast() returns (last: Node<K, V>)
      requires Valid() && |Nodes()| > 0
      modifies Repr
      ensures Repr == old(Repr)
      ensures Valid()
      ensures last == old(Nodes()[|Nodes()| - 1])
      ensures Nodes() == old(Nodes()[..|Nodes()| - 1])
      ensures Spine == old(RemoveAt(Spine, |Spine| - 2))
      ensures last.previous == old(Spine[|Spine| - 3]) && last.next == tail
      ensures forall i :: 0 <= i < |old(Nodes())| ==> old(Nodes())[i].value == old(Nodes()[i].value)
    {
      assert tail.previous == Spine[|Spine| - 2];
      last := tail.previous;
      assert Position(last) == |Spine| - 2;
      Remove(last);
    }
  }
}
