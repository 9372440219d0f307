/**
 * Sequence-level specifications of the list operations: the value `retain`
 * leaves, step by step and as a whole, the elementwise update that
 * `iter_mut` clients perform, and the " -> " rendering.
 */
module Sequences {
  import opened Wrappers

  /** `s` with its element at position `k` taken out; the rest keep their order. */
  ghost function Without<X>(s: seq<X>, k: nat): (r: seq<X>)
    requires k < |s|
    ensures |r| == |s| - 1
    ensures forall i | 0 <= i < k :: r[i] == s[i]
    ensures forall i | k <= i < |r| :: r[i] == s[i + 1]
  {
    seq(|s| - 1, i requires 0 <= i < |s| - 1 => if i < k then s[i] else s[i + 1])
  }

  /** Taking out the first element after a prefix `a` drops the head of what follows it. */
  lemma WithoutAfter<X>(a: seq<X>, b: seq<X>)
    requires |b| > 0
    ensures Without(a + b, |a|) == a + b[1..]
  {
  }

  /** The elements of `s` that satisfy `keep`, in their original order. */
  function Filter<T>(s: seq<T>, keep: T -> bool): seq<T>
  {
    if |s| == 0 then []
    else (if keep(s[0]) then [s[0]] else []) + Filter(s[1..], keep)
  }

  /** Filtering distributes over concatenation. */
  lemma {:induction false} FilterAppend<T>(a: seq<T>, b: seq<T>, keep: T -> bool)
    ensures Filter(a + b, keep) == Filter(a, keep) + Filter(b, keep)
  {
    if |a| == 0 {
      assert a + b == b;
    } else {
      var head := if keep(a[0]) then [a[0]] else [];
      calc {
        Filter(a + b, keep);
        { assert (a + b)[0] == a[0] && (a + b)[1..] == a[1..] + b; }
        head + Filter(a[1..] + b, keep);
        { FilterAppend(a[1..], b, keep); }
        head + (Filter(a[1..], keep) + Filter(b, keep));
        (head + Filter(a[1..], keep)) + Filter(b, keep);
      }
    }
  }

  /** Extending a prefix by one element extends its filtered image by that element, when kept. */
  lemma FilterSnoc<T>(s: seq<T>, i: nat, keep: T -> bool)
    requires i < |s|
    ensures Filter(s[..i + 1], keep) == Filter(s[..i], keep) + (if keep(s[i]) then [s[i]] else [])
  {
    assert s[..i + 1] == s[..i] + [s[i]];
    FilterAppend(s[..i], [s[i]], keep);
  }

  /**
   * One step of `retain` on the abstract value when the next element is
   * dropped: the list, made of the filtered prefix and the unvisited rest,
   * loses the element at the boundary.
   */
  lemma RetainDrops<T>(s: seq<T>, i: nat, keep: T -> bool)
    requires i < |s| && !keep(s[i])
    ensures Without(Filter(s[..i], keep) + s[i..], |Filter(s[..i], keep)|) == Filter(s[..i + 1], keep) + s[i + 1..]
  {
    FilterSnoc(s, i, keep);
    WithoutAfter(Filter(s[..i], keep), s[i..]);
    assert s[i..][1..] == s[i + 1..];
  }

  /** One step of `retain` on the abstract value when the next element is kept: nothing changes. */
  lemma RetainKeeps<T>(s: seq<T>, i: nat, keep: T -> bool)
    requires i < |s| && keep(s[i])
    ensures Filter(s[..i], keep) + s[i..] == Filter(s[..i + 1], keep) + s[i + 1..]
  {
    FilterSnoc(s, i, keep);
    assert s[i..] == [s[i]] + s[i + 1..];
  }

  /** How many of the first `i` elements of `s` satisfy `keep`. */
  ghost function Kept<T>(s: seq<T>, i: nat, keep: T -> bool): nat
    requires i <= |s|
  {
    if i == 0 then 0 else Kept(s, i - 1, keep) + (if keep(s[i - 1]) then 1 else 0)
  }

  /**
   * The list after `retain` has visited its first `i` elements: each visited
   * element that fails `keep` has been taken out, at the position just past
   * the kept ones.
   */
  ghost function Retained<T>(s: seq<T>, i: nat, keep: T -> bool): seq<T>
    requires i <= |s|
  {
    if i == 0 then s
    else
      var r := Retained(s, i - 1, keep);
      if keep(s[i - 1]) || Kept(s, i - 1, keep) >= |r| then r else Without(r, Kept(s, i - 1, keep))
  }

  /** After `i` visits the list is the filtered prefix followed by the unvisited suffix. */
  lemma {:induction false} RetainedSplit<T>(s: seq<T>, i: nat, keep: T -> bool)
    requires i <= |s|
    ensures Retained(s, i, keep) == Filter(s[..i], keep) + s[i..]
    ensures Kept(s, i, keep) == |Filter(s[..i], keep)|
  {
    if i > 0 {
      RetainedSplit(s, i - 1, keep);
      FilterSnoc(s, i - 1, keep);
      if keep(s[i - 1]) {
        RetainKeeps(s, i - 1, keep);
      } else {
        RetainDrops(s, i - 1, keep);
      }
    }
  }

  /** The next element to visit sits right after the kept ones. */
  lemma RetainedAt<T>(s: seq<T>, i: nat, keep: T -> bool)
    requires i <= |s|
    ensures |Retained(s, i, keep)| == Kept(s, i, keep) + |s| - i
    ensures i < |s| ==> Retained(s, i, keep)[Kept(s, i, keep)] == s[i]
  {
    RetainedSplit(s, i, keep);
  }

  /**
   * One visit: while elements remain past the kept ones, the one at the
   * visiting position is `s[i]`; keeping it moves past it, rejecting it
   * removes it.
   */
  lemma RetainedStep<T>(s: seq<T>, i: nat, keep: T -> bool)
    requires i <= |s| && Kept(s, i, keep) < |Retained(s, i, keep)|
    ensures i < |s| && Retained(s, i, keep)[Kept(s, i, keep)] == s[i]
    ensures keep(s[i]) ==> Retained(s, i + 1, keep) == Retained(s, i, keep) && Kept(s, i + 1, keep) == Kept(s, i, keep) + 1
    ensures !keep(s[i]) ==>
      Retained(s, i + 1, keep) == Without(Retained(s, i, keep), Kept(s, i, keep)) && Kept(s, i + 1, keep) == Kept(s, i, keep)
  {
    RetainedAt(s, i, keep);
  }

  /** Once every element has been visited, what remains is exactly the filtered list. */
  lemma RetainedAll<T>(s: seq<T>, keep: T -> bool)
    ensures Retained(s, |s|, keep) == Filter(s, keep)
  {
    RetainedSplit(s, |s|, keep);
    assert s[..|s|] == s;
  }

  /** `f` applied to every element of `s`. */
  function MapSeq<T, U>(s: seq<T>, f: T -> U): (r: seq<U>)
    ensures |r| == |s| && forall i | 0 <= i < |s| :: r[i] == f(s[i])
  {
    seq(|s|, i requires 0 <= i < |s| => f(s[i]))
  }

  /** The text of a list: each element through `show`, joined by " -> ". */
  function Render<T>(s: seq<T>, show: T -> string): string
  {
    if |s| == 0 then ""
    else if |s| == 1 then show(s[0])
    else Render(s[..|s| - 1], show) + " -> " + show(s[|s| - 1])
  }

  /** One more element at the back extends the text by the separator and that element's text. */
  lemma RenderSnoc<T>(s: seq<T>, x: T, show: T -> string)
    requires |s| > 0
    ensures Render(s + [x], show) == Render(s, show) + " -> " + show(x)
  {
  }

  /** Reference definition: `parts` separated by `sep`, built from the front. */
  function Join(parts: seq<string>, sep: string): string
  {
    if |parts| == 0 then ""
    else if |parts| == 1 then parts[0]
    else parts[0] + sep + Join(parts[1..], sep)
  }

  /**
   * `Filter` returns exactly the elements of `s` that satisfy `keep`, each
   * as often as it occurs in `s`, and nothing else.
   */
  lemma {:induction false} FilterExact<T>(s: seq<T>, keep: T -> bool)
    ensures forall x :: multiset(Filter(s, keep))[x] == if keep(x) then multiset(s)[x] else 0
  {
    if |s| > 0 {
      FilterExact(s[1..], keep);
      var head := if keep(s[0]) then [s[0]] else [];
      assert s == [s[0]] + s[1..];
      assert multiset(s) == multiset{s[0]} + multiset(s[1..]);
      assert multiset(Filter(s, keep)) == multiset(head) + multiset(Filter(s[1..], keep));
    }
  }

  /** Every element `Filter` returns satisfies `keep`. */
  lemma FilterSound<T>(s: seq<T>, keep: T -> bool)
    ensures forall x | x in Filter(s, keep) :: keep(x) && x in s
  {
  }

  /** The kept and the rejected elements together account for the whole list. */
  lemma {:induction false} FilterPartition<T>(s: seq<T>, keep: T -> bool)
    ensures |Filter(s, keep)| + |Filter(s, x => !keep(x))| == |s|
  {
    if |s| > 0 {
      FilterPartition(s[1..], keep);
    }
  }

  /** Filtering twice with the same predicate is filtering once. */
  lemma {:induction false} FilterIdempotent<T>(s: seq<T>, keep: T -> bool)
    ensures Filter(Filter(s, keep), keep) == Filter(s, keep)
  {
    if |s| > 0 {
      FilterIdempotent(s[1..], keep);
      if keep(s[0]) {
        var rest := Filter(s[1..], keep);
        var once := [s[0]] + rest;
        assert once[0] == s[0] && once[1..] == rest;
        assert Filter(s, keep) == once;
        assert Filter(once, keep) == [s[0]] + Filter(rest, keep);
      } else {
        assert Filter(s, keep) == Filter(s[1..], keep);
      }
    }
  }

  /** A predicate every element satisfies keeps the list as it is. */
  lemma {:induction false} FilterKeepsAll<T>(s: seq<T>, keep: T -> bool)
    requires forall i | 0 <= i < |s| :: keep(s[i])
    ensures Filter(s, keep) == s
  {
    if |s| > 0 {
      FilterKeepsAll(s[1..], keep);
      assert s == [s[0]] + s[1..];
    }
  }

  /** The position of the first element of `s` at or after `i` that satisfies `keep`, if there is one. */
  function FirstKept<T>(s: seq<T>, keep: T -> bool, i: nat): (r: Option<nat>)
    requires i <= |s|
    ensures r.Some? ==> i <= r.value < |s| && keep(s[r.value]) && forall j | i <= j < r.value :: !keep(s[j])
    ensures r.None? ==> forall j | i <= j < |s| :: !keep(s[j])
    decreases |s| - i
  {
    if i == |s| then None
    else if keep(s[i]) then Some(i)
    else FirstKept(s, keep, i + 1)
  }

  /** The first element of the filtered list is the one at the first kept position; there is none exactly when nothing is kept. */
  lemma {:induction false} FirstKeptHeadsFilter<T>(s: seq<T>, keep: T -> bool, i: nat)
    requires i <= |s|
    ensures FirstKept(s, keep, i).None? <==> Filter(s[i..], keep) == []
    ensures FirstKept(s, keep, i).Some? ==> Filter(s[i..], keep)[0] == s[FirstKept(s, keep, i).value]
    decreases |s| - i
  {
    if i < |s| {
      assert s[i..][1..] == s[i + 1..];
      if !keep(s[i]) {
        FirstKeptHeadsFilter(s, keep, i + 1);
      }
    }
  }

  /**
   * The `head` the source's retain loop leaves, as a position of `s`, from
   * visit `i` on. `head` was taken out (None) before the loop; the loop
   * writes it only when it unlinks a node without predecessor, i.e. a
   * rejected node before which every node was rejected too
   * (`keptBefore` false), and then writes that node's successor.
   */
  function HeadWalk<T>(s: seq<T>, keep: T -> bool, i: nat, head: Option<nat>, keptBefore: bool): (r: Option<nat>)
    requires i <= |s|
    ensures r.Some? ==> r == head || (i < r.value < |s| && !keep(s[r.value - 1]))
    decreases |s| - i
  {
    if i == |s| then head
    else if keep(s[i]) then HeadWalk(s, keep, i + 1, head, true)
    else if keptBefore then HeadWalk(s, keep, i + 1, head, true)
    else HeadWalk(s, keep, i + 1, if i + 1 < |s| then Some(i + 1) else None, false)
  }

  /**
   * The `head` position the source's retain leaves on a list holding `s`:
   * when there is one, it follows a rejected element, so it is never the
   * first position.
   */
  function RetainHeadAsWritten<T>(s: seq<T>, keep: T -> bool): (r: Option<nat>)
    ensures r.Some? ==> 0 < r.value < |s| && !keep(s[r.value - 1])
  {
    HeadWalk(s, keep, 0, None, false)
  }

  /** Once a node has been kept, the loop never writes `head` again. */
  lemma {:induction false} HeadWalkAfterKept<T>(s: seq<T>, keep: T -> bool, i: nat, head: Option<nat>)
    requires i <= |s|
    ensures HeadWalk(s, keep, i, head, true) == head
    decreases |s| - i
  {
    if i < |s| {
      HeadWalkAfterKept(s, keep, i + 1, head);
    }
  }

  /**
   * While only rejected nodes have been seen, the loop ends with `head` on
   * the first kept position after `i`; it leaves `head` as it was when the
   * node at `i` itself is kept, and ends on None when nothing is kept.
   */
  lemma {:induction false} HeadWalkBeforeKept<T>(s: seq<T>, keep: T -> bool, i: nat, head: Option<nat>)
    requires i < |s|
    ensures HeadWalk(s, keep, i, head, false) == if keep(s[i]) then head else FirstKept(s, keep, i)
    decreases |s| - i
  {
    if keep(s[i]) {
      HeadWalkAfterKept(s, keep, i + 1, head);
    } else if i + 1 < |s| {
      HeadWalkBeforeKept(s, keep, i + 1, Some(i + 1));
      if keep(s[i + 1]) {
        assert FirstKept(s, keep, i + 1) == Some(i + 1);
      }
    }
  }

  /**
   * The source's retain leaves `head` empty whenever the first element is
   * kept, and on the first kept node otherwise.
   */
  lemma RetainHeadAsWrittenExact<T>(s: seq<T>, keep: T -> bool)
    ensures RetainHeadAsWritten(s, keep) == if |s| > 0 && keep(s[0]) then None else FirstKept(s, keep, 0)
  {
    if |s| > 0 {
      HeadWalkBeforeKept(s, keep, 0, None);
    }
  }

  /**
   * The discrepancy: when the first element is kept, the list that remains
   * is not empty, yet the source leaves it without a head.
   */
  lemma RetainLosesHead<T>(s: seq<T>, keep: T -> bool)
    requires |s| > 0 && keep(s[0])
    ensures RetainHeadAsWritten(s, keep) == None
    ensures Filter(s, keep) != [] && Filter(s, keep)[0] == s[0]
  {
    RetainHeadAsWrittenExact(s, keep);
  }

  /** The smallest input: one element, kept; one element remains and no head points to it. */
  lemma RetainLosesHeadOnSingleton()
    ensures RetainHeadAsWritten([1], (x: int) => x % 2 != 0) == None
    ensures |Filter([1], (x: int) => x % 2 != 0)| == 1
  {
  }

  /** Joining one more part at the back appends the separator and that part. */
  lemma {:induction false} JoinSnoc(parts: seq<string>, last: string, sep: string)
    requires |parts| > 0
    ensures Join(parts + [last], sep) == Join(parts, sep) + sep + last
    decreases |parts|
  {
    var whole := parts + [last];
    assert whole[0] == parts[0];
    if |parts| == 1 {
      assert whole[1..] == [last];
    } else {
      assert whole[1..] == parts[1..] + [last];
      JoinSnoc(parts[1..], last, sep);
    }
  }

  /** The rendering built from the back, as the formatter writes it, is the front-built join of the elements' texts. */
  lemma {:induction false} RenderIsJoin<T>(s: seq<T>, show: T -> string)
    ensures Render(s, show) == Join(MapSeq(s, show), " -> ")
    decreases |s|
  {
    if |s| > 1 {
      var init := s[..|s| - 1];
      RenderIsJoin(init, show);
      assert MapSeq(s, show) == MapSeq(init, show) + [show(s[|s| - 1])];
      JoinSnoc(MapSeq(init, show), show(s[|s| - 1]), " -> ");
    }
  }
}
