/**
 * Client programs that drive a list through the sequences of calls the
 * crate's own tests and documentation examples make, with the observations
 * those make stated as postconditions. Each builds its own list, so none of
 * them changes any state a caller can see.
 */
module Scenarios {
  import opened Wrappers
  import opened Nodes
  import opened Sequences
  import opened Dll

  /** A new list is empty and has neither head nor tail. */
  method CreateEmpty() returns (len: nat, hasHead: bool, hasTail: bool)
    ensures len == 0 && !hasHead && !hasTail
  {
    var list := new LinkedList<int>();
    len := list.Len();
    hasHead := list.head != null;
    hasTail := list.tail != null;
  }

  /**
   * One pushed element is both head and tail, with no neighbours; popping it
   * empties the list, after which both ends pop nothing.
   */
  method SimplePushPop() returns (sameEnds: bool, open: bool, data: int, one: Option<int>, len: nat, front: Option<int>, back: Option<int>)
    ensures sameEnds && open && data == 1
    ensures one == Some(1) && len == 0 && front == None && back == None
  {
    var list := new LinkedList<int>();
    list.PushFront(1);
    list.Invariants();
    sameEnds := list.head == list.tail;
    open := list.head.prev == null && list.tail.next == null;
    data := list.head.data;
    one := list.PopFront();
    len := list.Len();
    front := list.PopFront();
    back := list.PopBack();
  }

  /**
   * After two pushes at the front the ends are distinct nodes linked to each
   * other in both directions, the newer value first; popping the front
   * leaves the older one as the only node.
   */
  method DoublePushPop() returns (distinctEnds: bool, linked: bool, headData: int, tailData: int, one: Option<int>, sameEnds: bool, data: int)
    ensures distinctEnds && linked && headData == 2 && tailData == 1
    ensures one == Some(2) && sameEnds && data == 1
  {
    var list := new LinkedList<int>();
    list.PushFront(1);
    list.PushFront(2);
    list.Invariants();
    assert LinkedAt(list.Chain, 0);
    distinctEnds := list.head != list.tail;
    linked := list.head.next == list.tail && list.tail.prev == list.head &&
              list.head.prev == null && list.tail.next == null;
    headData := list.head.data;
    tailData := list.tail.data;
    one := list.PopFront();
    list.Invariants();
    sameEnds := list.head == list.tail;
    data := list.head.data;
  }

  /** Pushing at the back and popping at the back, around an empty list. */
  method PushBackPopBack() returns (one: Option<int>, front: Option<int>, back: Option<int>, headData: int, tailData: int, two: Option<int>, data: int)
    ensures one == Some(1) && front == None && back == None
    ensures headData == 1 && tailData == 2 && two == Some(2) && data == 1
  {
    var list := new LinkedList<int>();
    list.PushBack(1);
    one := list.PopBack();
    front := list.PopFront();
    back := list.PopBack();
    list.PushBack(1);
    list.PushBack(2);
    assert list.Contents == [1, 2];
    headData := list.head.data;
    tailData := list.tail.data;
    two := list.PopBack();
    data := list.head.data;
  }

  /** Pushing at the front and popping at the front is last in, first out. */
  method PushAndPopFront() returns (len: nat, a: Option<int>, b: Option<int>, c: Option<int>, after: nat, d: Option<int>)
    ensures len == 3 && a == Some(2) && b == Some(1) && c == Some(3) && after == 0 && d == None
  {
    var list := new LinkedList<int>();
    list.PushFront(3);
    list.PushFront(1);
    list.PushFront(2);
    len := list.Len();
    a := list.PopFront();
    b := list.PopFront();
    c := list.PopFront();
    after := list.Len();
    d := list.PopFront();
  }

  /** Pushing at the back and popping at the back is last in, first out too. */
  method PushAndPopBack() returns (len: nat, a: Option<int>, b: Option<int>, c: Option<int>, after: nat, d: Option<int>)
    ensures len == 3 && a == Some(3) && b == Some(2) && c == Some(1) && after == 0 && d == None
  {
    var list := new LinkedList<int>();
    list.PushBack(1);
    list.PushBack(2);
    list.PushBack(3);
    assert list.Contents == [1, 2, 3];
    len := list.Len();
    a := list.PopBack();
    assert list.Contents == [1, 2];
    b := list.PopBack();
    assert list.Contents == [1];
    c := list.PopBack();
    after := list.Len();
    d := list.PopBack();
  }

  /** A list built by pushing 1 at the front, 2 at the back, 3 at the front and 4 at the back. */
  method FillFromBothEnds() returns (list: LinkedList<int>)
    ensures fresh(list) && fresh(list.Repr) && list.Valid()
    ensures list.Contents == [3, 1, 2, 4]
  {
    list := new LinkedList<int>();
    list.PushFront(1);
    list.PushBack(2);
    assert list.Contents == [1, 2];
    list.PushFront(3);
    assert list.Contents == [3, 1, 2];
    list.PushBack(4);
  }

  /** Both ends used together: the list behaves as a double-ended queue. */
  method PushAndPopFrontAndBack() returns (len: nat, a: Option<int>, b: Option<int>, c: Option<int>, d: Option<int>, after: nat, e: Option<int>, f: Option<int>)
    ensures len == 4 && a == Some(3) && b == Some(4) && c == Some(1) && d == Some(2)
    ensures after == 0 && e == None && f == None
  {
    var list := FillFromBothEnds();
    len := list.Len();
    a := list.PopFront();
    assert list.Contents == [1, 2, 4];
    b := list.PopBack();
    assert list.Contents == [1, 2];
    c := list.PopFront();
    assert list.Contents == [2];
    d := list.PopBack();
    after := list.Len();
    e := list.PopFront();
    f := list.PopBack();
  }

  /** The iterator yields the elements from head to tail, then nothing. */
  method Iterable() returns (a: Option<int>, b: Option<int>, c: Option<int>, d: Option<int>, e: Option<int>)
    ensures a == Some(4) && b == Some(3) && c == Some(2) && d == Some(1) && e == None
  {
    var list := new LinkedList<int>();
    list.PushFront(1);
    list.PushFront(2);
    list.PushFront(3);
    list.PushFront(4);
    assert list.Contents == [4, 3, 2, 1];
    assert list.Chain[0].data == 4 && list.Chain[1].data == 3 && list.Chain[2].data == 2 && list.Chain[3].data == 1;
    var it := list.Iter();
    a := it.Next();
    b := it.Next();
    c := it.Next();
    d := it.Next();
    e := it.Next();
  }

  /** Fills a new list with `0, 1, …, n - 1` by pushing at the back. */
  method Ascending(n: nat) returns (list: LinkedList<int>)
    ensures fresh(list) && fresh(list.Repr) && list.Valid()
    ensures list.Contents == Range(n)
  {
    list := new LinkedList<int>();
    var i := 0;
    while i < n
      invariant i <= n && fresh(list.Repr) && list.Valid()
      invariant list.Contents == Range(i)
    {
      list.PushBack(i);
      i := i + 1;
    }
  }

  /** `0, 1, …, n - 1`. */
  function Range(n: nat): (r: seq<int>)
    ensures |r| == n && forall i | 0 <= i < n :: r[i] == i
  {
    if n == 0 then [] else Range(n - 1) + [n - 1]
  }

  /** Clearing a list of any length leaves it empty. */
  method ClearMany(n: nat) returns (before: nat, after: nat, front: Option<int>)
    ensures before == n && after == 0 && front == None
  {
    var list := Ascending(n);
    before := list.Len();
    list.Clear();
    after := list.Len();
    front := list.PopFront();
  }

  /** The predicate of the retain test. */
  predicate Odd(x: int)
  {
    x % 2 != 0
  }

  /** The odd numbers below `n`: `Filter` keeps exactly half of `0, …, n - 1`, rounded down. */
  lemma {:induction false} OddsBelow(n: nat)
    ensures |Filter(Range(n), Odd)| == n / 2
  {
    if n > 0 {
      OddsBelow(n - 1);
      FilterAppend(Range(n - 1), [n - 1], Odd);
    }
  }

  /** Pops the front as many times as the list is long, collecting what comes out. */
  method Drain(list: LinkedList<int>) returns (popped: seq<int>)
    requires list.Valid()
    modifies list, list.Repr
    ensures list.Valid() && list.Contents == [] && popped == old(list.Contents)
  {
    ghost var initial := list.Contents;
    var len := list.Len();
    popped := [];
    var i := 0;
    while i < len
      invariant i <= len == |initial| && list.Valid() && list.Repr == old(list.Repr)
      invariant popped + list.Contents == initial && |popped| == i
    {
      var x := list.PopFront();
      popped := popped + [x.value];
      i := i + 1;
    }
  }

  /**
   * Keeping the odd values of `0, …, n - 1` and then popping the front as
   * many times as the list is long yields exactly the odd numbers below
   * `n`, in order, and empties the list.
   */
  method RetainsOddValues(n: nat) returns (popped: seq<int>, after: nat)
    ensures popped == Filter(Range(n), Odd)
    ensures |popped| == n / 2 && forall x | x in popped :: 0 <= x < n && x % 2 != 0
    ensures after == 0
  {
    var list := Ascending(n);
    list.Retain(Odd);
    popped := Drain(list);
    after := list.Len();
    OddsBelow(n);
    FilterSound(Range(n), Odd);
  }

  /** The predicate of the retain documentation example. */
  predicate Even(x: int)
  {
    x % 2 == 0
  }

  /** Keeping the even values of `1, 2, 3` leaves `2`. */
  lemma EvenOfOneTwoThree()
    ensures Filter([1, 2, 3], Even) == [2]
  {
    assert [1, 2, 3][1..] == [2, 3] && [2, 3][1..] == [3] && [3][1..] == [];
    assert Filter([3], Even) == [];
    assert Filter([2, 3], Even) == [2];
  }

  /** The example of the retain documentation: keeping the even values of `1, 2, 3` leaves `2`. */
  method RetainEven() returns (len: nat, a: Option<int>, b: Option<int>, c: Option<int>)
    ensures len == 1 && a == Some(2) && b == None && c == None
  {
    var list := new LinkedList<int>();
    list.PushBack(1);
    list.PushBack(2);
    list.PushBack(3);
    assert list.Contents == [1, 2, 3];
    list.Retain(Even);
    EvenOfOneTwoThree();
    len := list.Len();
    a := list.PopFront();
    b := list.PopFront();
    c := list.PopBack();
  }

  /** The update of the mutable iterator documentation example. */
  function PlusTen(x: int): int
  {
    x + 10
  }

  /** The example of the mutable iterator documentation: adding 10 to each of `0, 1, 2`. */
  method AddTen() returns (a: Option<int>, b: Option<int>, c: Option<int>)
    ensures a == Some(10) && b == Some(11) && c == Some(12)
  {
    var list := new LinkedList<int>();
    list.PushBack(0);
    list.PushBack(1);
    assert list.Contents == [0, 1];
    list.PushBack(2);
    assert list.Contents == [0, 1, 2];
    list.UpdateEach(PlusTen);
    assert list.Contents == [10, 11, 12];
    assert list.Chain[0].data == 10 && list.Chain[1].data == 11 && list.Chain[2].data == 12;
    var it := list.Iter();
    a := it.Next();
    b := it.Next();
    c := it.Next();
  }

  /** Decimal digits of a natural number, as `Display` writes an unsigned integer. */
  function Decimal(n: nat): string
    decreases n
  {
    (if n < 10 then "" else Decimal(n / 10)) + [(48 + n % 10) as char]
  }

  /** `Display` of an integer. */
  function Show(x: int): string
  {
    if x < 0 then "-" + Decimal(-x) else Decimal(x)
  }

  /** The rendering of one element is that element's text alone. */
  lemma RenderedOne()
    ensures Render([1], Show) == "1"
  {
    assert Show(1) == "1";
  }

  /** The rendering of `1, …, n` for `n` from 2 to 5, each from the one before. */
  lemma RenderedTwo()
    ensures Render([1, 2], Show) == "1 -> 2"
  {
    RenderedOne();
    assert Show(2) == "2";
    RenderSnoc([1], 2, Show);
    assert [1] + [2] == [1, 2];
  }

  lemma RenderedThree()
    ensures Render([1, 2, 3], Show) == "1 -> 2 -> 3"
  {
    RenderedTwo();
    assert Show(3) == "3";
    RenderSnoc([1, 2], 3, Show);
    assert [1, 2] + [3] == [1, 2, 3];
  }

  lemma RenderedFour()
    ensures Render([1, 2, 3, 4], Show) == "1 -> 2 -> 3 -> 4"
  {
    RenderedThree();
    assert Show(4) == "4";
    RenderSnoc([1, 2, 3], 4, Show);
    assert [1, 2, 3] + [4] == [1, 2, 3, 4];
  }

  lemma RenderedFive()
    ensures Render([1, 2, 3, 4, 5], Show) == "1 -> 2 -> 3 -> 4 -> 5"
  {
    RenderedFour();
    assert Show(5) == "5";
    RenderSnoc([1, 2, 3, 4], 5, Show);
    assert [1, 2, 3, 4] + [5] == [1, 2, 3, 4, 5];
  }

  /** The first two pushes at the back render as `1` and then `1 -> 2`. */
  method FormatFirstPushes() returns (one: string, two: string)
    ensures one == "1" && two == "1 -> 2"
  {
    var list := new LinkedList<int>();
    list.PushBack(1);
    one := list.Fmt(Show);
    RenderedOne();
    list.PushBack(2);
    assert list.Contents == [1, 2];
    two := list.Fmt(Show);
    RenderedTwo();
  }

  /** Five pushes at the back render as `1 -> 2 -> 3 -> 4 -> 5`. */
  method FormatFivePushes() returns (five: string)
    ensures five == "1 -> 2 -> 3 -> 4 -> 5"
  {
    var list := new LinkedList<int>();
    list.PushBack(1);
    list.PushBack(2);
    assert list.Contents == [1, 2];
    list.PushBack(3);
    assert list.Contents == [1, 2, 3];
    list.PushBack(4);
    assert list.Contents == [1, 2, 3, 4];
    list.PushBack(5);
    assert list.Contents == [1, 2, 3, 4, 5];
    five := list.Fmt(Show);
    RenderedFive();
  }

  /** Indexing reads the element at that position and nothing past the end. */
  method GetByIndex() returns (a: Option<int>, b: Option<int>, c: Option<int>, d: Option<int>)
    ensures a == Some(1) && b == Some(2) && c == Some(3) && d == None
  {
    var list := new LinkedList<int>();
    list.PushBack(1);
    list.PushBack(2);
    list.PushBack(3);
    assert list.Contents == [1, 2, 3];
    a := list.Get(0);
    b := list.Get(1);
    c := list.Get(2);
    d := list.Get(3);
  }

  /** Two nodes holding equal data are equal however they are linked; different data makes them unequal. */
  method EqualityIgnoresLinks() returns (same: bool, different: bool)
    ensures same && !different
  {
    var lone := new ListNode.From(7);
    var linked := new ListNode(7, lone, lone);
    var other := new ListNode(8, null, null);
    same := Equal(lone, linked);
    different := Equal(lone, other);
  }
}
