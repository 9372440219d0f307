/**
 * The list container: `head`, `tail` and the element counter, with O(1)
 * pushes and pops at both ends, `retain`, `clear`, indexed lookup, the two
 * iterators and the " -> " rendering.
 *
 * The ghost field `Chain` lists the live nodes head to tail; `Valid()` ties
 * `head`, `tail` and `numElements` to it and requires the chain to be
 * `Linked`. `Repr` is a set holding at least the live nodes: the frame of
 * the mutating methods. The ghost field `Contents`, which `Valid()` ties to
 * the nodes' data position by position, is the list's abstract value.
 */
module Dll {
  import opened Wrappers
  import opened Nodes
  import opened Iters
  import opened Sequences

  class LinkedList<T> {
    var head: ListNode?<T>
    var tail: ListNode?<T>
    var numElements: nat
    ghost var Chain: seq<ListNode<T>>
    ghost var Repr: set<ListNode<T>>
    ghost var Contents: seq<T>  // the elements, head to tail

    /** The list's invariant: its fields describe a linked chain, and `Contents` mirrors the chain's data. */
    ghost predicate Valid()
      reads this, Repr
    {
      Chained() && Mirrored()
    }

    /** `Chain` lies inside `Repr` and is linked; head, tail and the counter describe it. */
    ghost predicate Chained()
      reads this, Repr
    {
      (forall i | 0 <= i < |Chain| :: Chain[i] in Repr) &&
      Linked(Chain) && numElements == |Chain| &&
      (|Chain| == 0 ==> head == null && tail == null) &&
      (|Chain| > 0 ==> head == Chain[0] && tail == Chain[|Chain| - 1])
    }

    /** `Contents` holds the data of `Chain`, position by position. */
    ghost predicate Mirrored()
      reads this, Repr
    {
      |Contents| == |Chain| && forall i | 0 <= i < |Chain| :: Chain[i] in Repr && Chain[i].data == Contents[i]
    }

    /** An empty list: no head, no tail, no elements. */
    constructor ()
      ensures Valid() && Contents == [] && Chain == [] && fresh(Repr)
      ensures head == null && tail == null && numElements == 0
    {
      head := null;
      tail := null;
      numElements := 0;
      Chain := [];
      Repr := {};
      Contents := [];
    }

    /**
     * The structural invariants every mutation re-establishes: the head has
     * no predecessor and the tail no successor, the links mirror each other,
     * the list is empty exactly when it has neither head nor tail, head and
     * tail coincide exactly when there is one element, and the counter equals
     * the number of nodes reachable from the head.
     */
    lemma Invariants()
      requires Valid()
      ensures (head == null) == (tail == null) == (numElements == 0)
      ensures head != null ==> head.prev == null && tail.next == null
      ensures (head != null && head == tail) <==> numElements == 1
      ensures forall n | n in Chain && n.next != null :: n.next.prev == n
      ensures forall n | n in Chain && n.prev != null :: n.prev.next == n
      ensures numElements > 0 ==> Hop(head, numElements, Chain) == null
      ensures forall k: nat :: k < numElements ==> Hop(head, k, Chain) != null
    {
      ReachableCount(Chain);
      forall n | n in Chain && n.next != null ensures n.next.prev == n {
        var i :| 0 <= i < |Chain| && Chain[i] == n;
        assert i < |Chain| - 1 && LinkedAt(Chain, i);
      }
      forall n | n in Chain && n.prev != null ensures n.prev.next == n {
        var i :| 0 <= i < |Chain| && Chain[i] == n;
        assert i > 0 && LinkedAt(Chain, i - 1);
      }
      if numElements > 1 {
        NoRepeat(Chain, 0, |Chain| - 1);
      }
    }

    /** The counter agrees with the elements. `Valid` implies it, and the getters need no more. */
    ghost predicate Counted()
      reads this
    {
      numElements == |Contents|
    }

    /** The number of elements. */
    function Len(): (r: nat)
      reads this
      requires Counted()
      ensures r == |Contents|
    {
      numElements
    }

    /** Whether the list holds no element. */
    function IsEmpty(): (r: bool)
      reads this
      requires Counted()
      ensures r <==> Contents == []
    {
      numElements == 0
    }

    method PushFront(value: T)
      requires Valid()
      modifies this, Repr
      ensures Valid()
      ensures Contents == [value] + old(Contents)
      ensures fresh(Chain[0]) && Chain[1..] == old(Chain) && Repr == old(Repr) + {Chain[0]}
    {
      forall i | 1 <= i < |Chain| ensures Chain[i] != Chain[0] {
        NoRepeat(Chain, 0, i);
      }
      var node := new ListNode.From(value);
      var oldHead := head;
      if oldHead != null {
        oldHead.prev := node;
        node.next := oldHead;
        head := node;
      } else {
        head := node;
        tail := node;
      }
      numElements := numElements + 1;
      Chain := [node] + Chain;
      Contents := [value] + Contents;
      Repr := Repr + {node};
      forall i | 1 <= i < |Chain| - 1 ensures LinkedAt(Chain, i) {
        assert old(LinkedAt(Chain, i - 1));
      }
    }

    method PushBack(value: T)
      requires Valid()
      modifies this, Repr
      ensures Valid()
      ensures Contents == old(Contents) + [value]
      ensures fresh(Chain[|Chain| - 1]) && Chain[..|Chain| - 1] == old(Chain) && Repr == old(Repr) + {Chain[|Chain| - 1]}
    {
      forall i | 0 <= i < |Chain| - 1 ensures Chain[i] != Chain[|Chain| - 1] {
        NoRepeat(Chain, i, |Chain| - 1);
      }
      var node := new ListNode.From(value);
      var oldTail := tail;
      if oldTail != null {
        oldTail.next := node;
        node.prev := oldTail;
        tail := node;
      } else {
        head := node;
        tail := node;
      }
      numElements := numElements + 1;
      Chain := Chain + [node];
      Contents := Contents + [value];
      Repr := Repr + {node};
      forall i | 0 <= i < |Chain| - 2 ensures LinkedAt(Chain, i) {
        assert old(LinkedAt(Chain, i));
      }
      forall i | 0 <= i < |Chain| - 1 ensures Chain[i] in Repr && Chain[i].data == Contents[i] {
        assert old(Chain[i] in Repr && Chain[i].data == Contents[i]);
      }
    }

    /** Removes and returns the first element; on an empty list returns None and changes nothing. */
    method PopFront() returns (r: Option<T>)
      requires Valid()
      modifies this, Repr
      ensures Valid()
      ensures old(Contents) == [] ==> r == None && Contents == [] && Chain == old(Chain)
      ensures old(Contents) != [] ==> r == Some(old(Contents)[0]) && Contents == old(Contents)[1..]
      ensures old(Chain) != [] ==> Chain == old(Chain)[1..]
      ensures Repr == old(Repr)
    {
      var oldHead := head;
      head := null;
      if oldHead == null {
        r := None;
      } else {
        numElements := numElements - 1;
        if numElements == 0 {
          head := null;
          tail := null;
        } else {
          assert LinkedAt(Chain, 0);
          forall i | 1 <= i < |Chain| ensures Chain[i] != Chain[0] {
            NoRepeat(Chain, 0, i);
          }
          forall i | 2 <= i < |Chain| ensures Chain[i] != Chain[1] {
            NoRepeat(Chain, 1, i);
          }
          var newHead := oldHead.next;
          oldHead.next := null;
          newHead.prev := null;
          head := newHead;
        }
        r := Some(oldHead.data);
        Chain := Chain[1..];
        Contents := Contents[1..];
        forall i | 0 <= i < |Chain| - 1 ensures LinkedAt(Chain, i) {
          assert old(LinkedAt(Chain, i + 1));
        }
      }
    }

    /** Removes and returns the last element; on an empty list returns None and changes nothing. */
    method PopBack() returns (r: Option<T>)
      requires Valid()
      modifies this, Repr
      ensures Valid()
      ensures old(Contents) == [] ==> r == None && Contents == [] && Chain == old(Chain)
      ensures old(Contents) != [] ==>
        r == Some(old(Contents)[|old(Contents)| - 1]) && Contents == old(Contents)[..|old(Contents)| - 1]
      ensures old(Chain) != [] ==> Chain == old(Chain)[..|old(Chain)| - 1]
      ensures Repr == old(Repr)
    {
      var oldTail := tail;
      tail := null;
      if oldTail == null {
        r := None;
      } else {
        numElements := numElements - 1;
        if numElements == 0 {
          head := null;
          tail := null;
        } else {
          assert LinkedAt(Chain, |Chain| - 2);
          forall i | 0 <= i < |Chain| - 1 ensures Chain[i] != Chain[|Chain| - 1] {
            NoRepeat(Chain, i, |Chain| - 1);
          }
          forall i | 0 <= i < |Chain| - 2 ensures Chain[i] != Chain[|Chain| - 2] {
            NoRepeat(Chain, i, |Chain| - 2);
          }
          var newTail := oldTail.prev;
          oldTail.prev := null;
          newTail.next := null;
          tail := newTail;
        }
        r := Some(oldTail.data);
        Chain := Chain[..|Chain| - 1];
        Contents := Contents[..|Contents| - 1];
        forall i | 0 <= i < |Chain| - 1 ensures LinkedAt(Chain, i) {
          assert old(LinkedAt(Chain, i));
        }
      }
    }

    /**
     * Keeps exactly the elements satisfying `keep`, in their original order,
     * by unlinking every other node in one forward pass; no node is created.
     *
     * The source takes `head` out of the list before the pass and puts a node
     * back only when it unlinks a node that has no predecessor, so when the
     * first element is kept its list ends with no head and a positive count;
     * that loop cannot meet this postcondition. Here the pass starts from a
     * copy of `head`, which stays in place until the head node is unlinked.
     */
    method Retain(keep: T -> bool)
      requires Valid()
      modifies this, Repr
      ensures Valid()
      ensures Contents == Filter(old(Contents), keep)
      ensures Repr == old(Repr)
    {
      ghost var data0 := Contents;
      ghost var i := 0;
      var current := head;
      while current != null
        invariant Valid() && Repr == old(Repr)
        invariant i <= |data0| && Contents == Retained(data0, i, keep)
        invariant current == if Kept(data0, i, keep) < |Chain| then Chain[Kept(data0, i, keep)] else null
        decreases |data0| - i
      {
        current := Visit(current, keep, data0, i);
        i := i + 1;
      }
      RetainedAt(data0, i, keep);
      RetainedAll(data0, keep);
    }

    /**
     * One turn of the `retain` loop. `node` sits right after the nodes kept
     * so far and holds `s[i]`, the `i`-th of the elements the loop started
     * from; it is unlinked when its element fails `keep`, and the turn moves
     * on to the node that followed it.
     */
    method Visit(node: ListNode<T>, keep: T -> bool, ghost s: seq<T>, ghost i: nat) returns (next: ListNode?<T>)
      requires Valid() && i <= |s| && Contents == Retained(s, i, keep)
      requires Kept(s, i, keep) < |Chain| && Chain[Kept(s, i, keep)] == node
      modifies this, Repr
      ensures Valid() && Repr == old(Repr)
      ensures i < |s| && Contents == Retained(s, i + 1, keep)
      ensures next == if Kept(s, i + 1, keep) < |Chain| then Chain[Kept(s, i + 1, keep)] else null
    {
      ghost var k := Kept(s, i, keep);
      RetainedStep(s, i, keep);
      if k < |Chain| - 1 {
        assert LinkedAt(Chain, k);
      }
      if !keep(node.data) {
        Unlink(node, k);
      }
      next := node.next;
    }

    /**
     * Takes `node`, the node at position `k`, out of the chain:
     * its predecessor's forward link and its successor's back link bypass
     * it, and `head` or `tail` moves when it was an endpoint.
     */
    method Unlink(node: ListNode<T>, ghost k: nat)
      requires Valid() && k < |Chain| && Chain[k] == node
      modifies this, Repr
      ensures Valid() && Chain == Without(old(Chain), k) && Repr == old(Repr)
      ensures Contents == Without(old(Contents), k)
      ensures node.next == old(node.next)
    {
      if k > 0 {
        assert LinkedAt(Chain, k - 1);
      }
      if k < |Chain| - 1 {
        assert LinkedAt(Chain, k);
      }
      forall i | 0 <= i < |Chain| && i != k ensures Chain[i] != node {
        if i < k { NoRepeat(Chain, i, k); } else { NoRepeat(Chain, k, i); }
      }
      if k > 0 {
        forall i | 0 <= i < |Chain| && i != k - 1 ensures Chain[i] != Chain[k - 1] {
          if i < k - 1 { NoRepeat(Chain, i, k - 1); } else { NoRepeat(Chain, k - 1, i); }
        }
      }
      if k < |Chain| - 1 {
        forall i | 0 <= i < |Chain| && i != k + 1 ensures Chain[i] != Chain[k + 1] {
          if i < k + 1 { NoRepeat(Chain, i, k + 1); } else { NoRepeat(Chain, k + 1, i); }
        }
      }
      var before, after := node.prev, node.next;
      if before == null {
        head := after;
      } else {
        before.next := after;
      }
      if after == null {
        tail := before;
      } else {
        after.prev := before;
      }
      numElements := numElements - 1;
      Chain := Without(Chain, k);
      Contents := Without(Contents, k);
      forall i | 0 <= i < |Chain| - 1 ensures LinkedAt(Chain, i) {
        if i < k - 1 {
          assert old(LinkedAt(Chain, i));
        } else if i >= k {
          assert old(LinkedAt(Chain, i + 1));
        }
      }
    }

    /** Drops every node: the list becomes empty. */
    method Clear()
      requires Valid()
      modifies this
      ensures Valid() && Contents == [] && Chain == [] && Repr == {}
      ensures head == null && tail == null && numElements == 0
    {
      head := null;
      tail := null;
      numElements := 0;
      Chain := [];
      Repr := {};
      Contents := [];
    }

    /** The node at position `index`, reached by `index` hops from the head, or null past the end. */
    method GetPtr(index: nat) returns (r: ListNode?<T>)
      requires Valid()
      ensures index < |Chain| ==> r == Chain[index]
      ensures index >= |Chain| ==> r == null
    {
      if index >= numElements {
        return null;
      }
      var current := head;
      for k := 0 to index
        invariant current == Chain[k]
      {
        assert LinkedAt(Chain, k);
        current := current.next;
      }
      r := current;
    }

    /** The element at position `index`, or None when `index` is not below the length. */
    method Get(index: nat) returns (r: Option<T>)
      requires Valid()
      ensures index < |Contents| ==> r == Some(Contents[index])
      ensures index >= |Contents| ==> r == None
    {
      var ptr := GetPtr(index);
      r := if ptr == null then None else Some(ptr.data);
    }

    /** A cursor on the head that yields copies of the elements. */
    method Iter() returns (it: ListIter<T>)
      requires Valid()
      ensures fresh(it) && it.Valid() && it.nodes == Chain && it.pos == 0
    {
      it := new ListIter(head, Chain);
    }

    /** A cursor on the head that yields a handle to each node. */
    method IterMut() returns (it: ListIterMut<T>)
      requires Valid()
      ensures fresh(it) && it.Valid() && it.nodes == Chain && it.pos == 0
    {
      it := new ListIterMut(head, Chain);
    }

    /**
     * Walks the list with the mutable cursor and replaces each element by
     * `f` of it, through the handle the cursor yields. Links, length and the
     * node identities stay as they were.
     */
    method UpdateEach(f: T -> T)
      requires Valid()
      modifies this, Repr
      ensures Valid() && Chain == old(Chain) && Repr == old(Repr)
      ensures Contents == MapSeq(old(Contents), f)
    {
      ghost var data0 := Contents;
      var it := IterMut();
      while true
        invariant Valid() && Chain == old(Chain) && Repr == old(Repr)
        invariant fresh(it) && it.nodes == Chain && it.pos <= |Chain|
        invariant it.current == if it.pos < |Chain| then Chain[it.pos] else null
        invariant |Contents| == |data0|
        invariant forall j | 0 <= j < it.pos :: Contents[j] == f(data0[j])
        invariant forall j | it.pos <= j < |Chain| :: Contents[j] == data0[j]
        decreases |Chain| - it.pos
      {
        ghost var p := it.pos;
        var element := it.Next();
        if element == null {
          break;
        }
        Assign(element, p, f(element.data));
      }
    }

    /** Stores `value` in `node`, the node at position `k`, as a write through a handle the mutable cursor yielded. */
    method Assign(node: ListNode<T>, ghost k: nat, value: T)
      requires Valid() && k < |Chain| && Chain[k] == node
      modifies this, node
      ensures Valid() && Chain == old(Chain) && Repr == old(Repr)
      ensures Contents == old(Contents)[k := value]
    {
      forall j | 0 <= j < |Chain| && j != k ensures Chain[j] != node {
        if j < k { NoRepeat(Chain, j, k); } else { NoRepeat(Chain, k, j); }
      }
      node.data := value;
      Contents := Contents[k := value];
      LinkedKeptByDataWrites(Chain);
    }

    /** The list's text: the elements through `show`, joined by " -> "; the empty list gives "". */
    method Fmt(show: T -> string) returns (s: string)
      requires Valid()
      ensures s == Render(Contents, show)
    {
      var it := Iter();
      s := "";
      var first := it.Next();
      if first.Some? {
        s := show(first.value);
        assert Contents[..1] == [first.value];
        while true
          invariant fresh(it) && it.Valid() && it.nodes == Chain
          invariant 1 <= it.pos <= |Chain|
          invariant s == Render(Contents[..it.pos], show)
          decreases |Chain| - it.pos
        {
          var next := it.Next();
          if next.None? {
            break;
          }
          ghost var shown := Contents[..it.pos];
          assert shown[..|shown| - 1] == Contents[..it.pos - 1];
          s := s + " -> " + show(next.value);
        }
        assert Contents[..it.pos] == Contents;
      }
    }
  }
}
