/**
 * The storage unit of the list and the policy that links nodes together.
 *
 * `next` is the owning forward link and `prev` the non-owning back link.
 * Reference counting is not modelled: a back link is an ordinary nullable
 * reference, and the fact that it always leads to a live predecessor is part
 * of `Linked`, so "upgrade" never fails in the model.
 */
module Nodes {

  class ListNode<T> {
    var data: T
    var next: ListNode?<T>
    var prev: ListNode?<T>

    /** Builds a node holding exactly `data`, `next` and `prev`. */
    constructor (data: T, next: ListNode?<T>, prev: ListNode?<T>)
      ensures this.data == data && this.next == next && this.prev == prev
    {
      this.data := data;
      this.next := next;
      this.prev := prev;
    }

    /** Builds an unlinked node holding `data`. */
    constructor From(data: T)
      ensures this.data == data && next == null && prev == null
    {
      this.data := data;
      next := null;
      prev := null;
    }
  }

  /** Node equality compares the payloads only; the links play no part. */
  function Equal<T(==)>(a: ListNode<T>, b: ListNode<T>): bool
    reads a, b
  {
    a.data == b.data
  }

  /** Node equality is symmetric and transitive, as `PartialEq` requires. */
  lemma EqualSymmetricTransitive<T>(a: ListNode<T>, b: ListNode<T>, c: ListNode<T>)
    ensures Equal(a, b) == Equal(b, a)
    ensures Equal(a, b) && Equal(b, c) ==> Equal(a, c)
  {
  }

  /** Relinking nodes leaves their equality as it was, so long as their payloads stay. */
  twostate lemma EqualIgnoresRelinking<T>(a: ListNode<T>, b: ListNode<T>)
    requires a.data == old(a.data) && b.data == old(b.data)
    ensures Equal(a, b) == old(Equal(a, b))
  {
  }

  /**
   * The structural invariant of a chain of nodes, listed head to tail:
   * the first has no predecessor, the last has no successor, and every
   * forward link is mirrored by the back link. That no node occurs twice
   * follows from these (`LinkedDistinct`).
   */
  ghost predicate Linked<T>(nodes: seq<ListNode<T>>)
    reads nodes
  {
    (|nodes| > 0 ==> nodes[0].prev == null && nodes[|nodes| - 1].next == null) &&
    (forall i | 0 <= i < |nodes| - 1 :: LinkedAt(nodes, i))
  }

  /** No node occurs twice in `nodes`. */
  ghost predicate Distinct<T>(nodes: seq<ListNode<T>>)
  {
    forall i, j | 0 <= i < j < |nodes| :: nodes[i] != nodes[j]
  }

  /** Position `i` of `nodes` links forward to position `i + 1`, and back. */
  ghost predicate LinkedAt<T>(nodes: seq<ListNode<T>>, i: int)
    reads nodes
    requires 0 <= i < |nodes| - 1
  {
    nodes[i].next == nodes[i + 1] && nodes[i + 1].prev == nodes[i]
  }

  /**
   * Two positions of a linked chain hold different nodes: were they the
   * same node, their successors would be too, and so on until one of them
   * is the tail, whose successor is null while the other's is not.
   */
  lemma {:induction false} NoRepeat<T>(nodes: seq<ListNode<T>>, i: nat, j: nat)
    requires Linked(nodes) && i < j < |nodes|
    ensures nodes[i] != nodes[j]
    decreases |nodes| - j
  {
    assert LinkedAt(nodes, i);
    if j < |nodes| - 1 {
      assert LinkedAt(nodes, j);
      NoRepeat(nodes, i + 1, j + 1);
    }
  }

  /** No node occurs twice in a linked chain. */
  lemma LinkedDistinct<T>(nodes: seq<ListNode<T>>)
    requires Linked(nodes)
    ensures Distinct(nodes)
  {
    forall i, j | 0 <= i < j < |nodes| ensures nodes[i] != nodes[j] {
      NoRepeat(nodes, i, j);
    }
  }

  /** A chain stays linked across any heap change that leaves its links alone. */
  twostate lemma LinkedKeptByDataWrites<T>(nodes: seq<ListNode<T>>)
    requires old(Linked(nodes))
    requires forall i | 0 <= i < |nodes| :: nodes[i].next == old(nodes[i].next) && nodes[i].prev == old(nodes[i].prev)
    ensures Linked(nodes)
  {
    forall i | 0 <= i < |nodes| - 1 ensures LinkedAt(nodes, i) {
      assert old(LinkedAt(nodes, i));
    }
  }

  /** The node reached from `n` by following `k` forward links inside `nodes`. */
  ghost function Hop<T>(n: ListNode?<T>, k: nat, nodes: seq<ListNode<T>>): ListNode?<T>
    reads nodes
  {
    if k == 0 || n == null || n !in nodes then n else Hop(n.next, k - 1, nodes)
  }

  /** In a linked chain, `k` forward hops from position `i` land on position `i + k`, or on nothing past the tail. */
  lemma {:induction false} HopIndex<T>(nodes: seq<ListNode<T>>, i: nat, k: nat)
    requires Linked(nodes) && i < |nodes|
    ensures Hop(nodes[i], k, nodes) == if i + k < |nodes| then nodes[i + k] else null
    decreases k
  {
    if k > 0 {
      if i + 1 < |nodes| {
        assert LinkedAt(nodes, i);
        HopIndex(nodes, i + 1, k - 1);
      } else {
        assert nodes[i].next == null;
      }
    }
  }

  /** Following `next` from a node of a linked chain never comes back to it. */
  lemma ForwardAcyclic<T>(nodes: seq<ListNode<T>>, i: nat, k: nat)
    requires Linked(nodes) && i < |nodes| && k > 0
    ensures Hop(nodes[i], k, nodes) != nodes[i]
  {
    HopIndex(nodes, i, k);
    if i + k < |nodes| {
      NoRepeat(nodes, i, i + k);
    }
  }

  /** Exactly `|nodes|` nodes are reachable from the head of a linked chain. */
  lemma ReachableCount<T>(nodes: seq<ListNode<T>>)
    requires Linked(nodes)
    ensures |nodes| > 0 ==> Hop(nodes[0], |nodes|, nodes) == null
    ensures forall k: nat :: k < |nodes| ==> Hop(nodes[0], k, nodes) == nodes[k]
  {
    if |nodes| > 0 {
      HopIndex(nodes, 0, |nodes|);
      forall k: nat | k < |nodes| ensures Hop(nodes[0], k, nodes) == nodes[k] {
        HopIndex(nodes, 0, k);
      }
    }
  }
}
