/**
 * Forward cursors over a chain of nodes. Each cursor holds the node it will
 * yield next and advances along `next` links. The ghost `nodes` is the chain
 * being walked, head to tail, and the ghost `pos` counts the nodes already
 * yielded.
 */
module Iters {
  import opened Wrappers
  import opened Nodes

  /** Yields a copy of each element in turn. */
  class ListIter<T> {
    var current: ListNode?<T>
    ghost var nodes: seq<ListNode<T>>
    ghost var pos: nat

    ghost predicate Valid()
      reads this, nodes
    {
      Linked(nodes) && pos <= |nodes| &&
      current == if pos < |nodes| then nodes[pos] else null
    }

    /** A cursor placed on `head`, the first node of the chain `chain`. */
    constructor (head: ListNode?<T>, ghost chain: seq<ListNode<T>>)
      requires Linked(chain)
      requires head == if |chain| > 0 then chain[0] else null
      ensures Valid() && nodes == chain && pos == 0
    {
      current := head;
      nodes := chain;
      pos := 0;
    }

    /**
     * Takes the current node: an exhausted cursor yields nothing and stays
     * exhausted; otherwise it yields that node's data and moves to its `next`.
     */
    method Next() returns (r: Option<T>)
      requires Valid()
      modifies this
      ensures Valid() && nodes == old(nodes)
      ensures old(current) == null ==> r == None && current == null
      ensures old(current) != null ==> r == Some(old(current.data)) && current == old(current.next)
      ensures old(pos) < |nodes| ==> r == Some(nodes[old(pos)].data) && pos == old(pos) + 1
      ensures old(pos) == |nodes| ==> r == None && pos == old(pos)
    {
      if pos < |nodes| - 1 {
        assert LinkedAt(nodes, pos);
      }
      var taken := current;
      current := null;
      if taken == null {
        r := None;
      } else {
        current := taken.next;
        pos := pos + 1;
        r := Some(taken.data);
      }
    }
  }

  /** Yields each node in turn as a handle through which its data can be changed in place. */
  class ListIterMut<T> {
    var current: ListNode?<T>
    ghost var nodes: seq<ListNode<T>>
    ghost var pos: nat

    ghost predicate Valid()
      reads this, nodes
    {
      Linked(nodes) && pos <= |nodes| &&
      current == if pos < |nodes| then nodes[pos] else null
    }

    /** A cursor placed on `head`, the first node of the chain `chain`. */
    constructor (head: ListNode?<T>, ghost chain: seq<ListNode<T>>)
      requires Linked(chain)
      requires head == if |chain| > 0 then chain[0] else null
      ensures Valid() && nodes == chain && pos == 0
    {
      current := head;
      nodes := chain;
      pos := 0;
    }

    /**
     * Takes the current node: an exhausted cursor yields nothing and stays
     * exhausted; otherwise it yields the node itself, the next node of the
     * chain in order, and moves to its `next`.
     */
    method Next() returns (handle: ListNode?<T>)
      requires Valid()
      modifies this
      ensures Valid() && nodes == old(nodes)
      ensures old(current) == null ==> handle == null && current == null
      ensures old(current) != null ==> handle == old(current) && current == old(current.next)
      ensures old(pos) < |nodes| ==> handle == nodes[old(pos)] && pos == old(pos) + 1
      ensures old(pos) == |nodes| ==> handle == null && pos == old(pos)
    {
      if pos < |nodes| - 1 {
        assert LinkedAt(nodes, pos);
      }
      var taken := current;
      current := null;
      if taken != null {
        current := taken.next;
        pos := pos + 1;
      }
      handle := taken;
    }
  }
}
