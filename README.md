# dll — a verified model of a doubly-linked list

This project models the `dll` crate's generic doubly-linked list:
- `LinkedList` keeps a `head`, a `tail` and an element counter. It offers pushes and pops at both ends, `retain`, `clear`, indexed lookup, `len` and `is_empty`.
- `ListNode` holds `data`, an owning `next` link and a non-owning `prev` link.
- Two forward cursors walk the `next` links: an immutable one that yields copies of the elements, and a mutable one that hands out each node's data for in-place update.
- `Display` joins the elements with `" -> "`.

The list and its nodes are updated in place, so both are classes:
- `LinkedList` carries ghost fields:
  - `Chain`: the live nodes, head to tail;
  - `Repr`: the heap frame;
  - `Contents`: the elements, head to tail, which are the list's abstract value.
- `Valid()` ties `head`, `tail` and the counter to `Chain`, requires the chain to be linked both ways, and mirrors each node's data in `Contents`.

Every mutating method is proved against `Contents`:
- pushes prepend or append;
- pops remove the first or last element, or report `None` on an empty list;
- `Retain` leaves `Filter(old(Contents), keep)`;
- the mutable walk leaves `MapSeq(old(Contents), f)`;
- `Fmt` returns `Render(Contents, show)`.

Each method also re-establishes `Valid()`. The properties of the specification functions are lemmas in module `Sequences`. The chain-level facts (no node repeats, the forward chain is acyclic, exactly `len` nodes are reachable) are lemmas in module `Nodes`.

`ListNode`'s own code (`new`, `from`, `eq`) only builds values. It is still modelled as a class, because the list rewrites `next` and `prev` of existing nodes in place.

The `Scenarios` module drives lists through the call sequences of the crate's tests and documentation examples. Each scenario states the observed results as postconditions.

Files:
- `wrappers.dfy`: `Option`.
- `list_node.dfy`: module `Nodes`.
- `list_iter.dfy`: module `Iters`.
- `sequences.dfy`: module `Sequences`.
- `lib.dfy`: module `Dll`.
- `scenarios.dfy`: module `Scenarios`.

## Model

| member | source | states |
|---|---|---|
| Nodes.ListNode.constructor | src/list_node.rs:55-61 | the new node holds exactly the given data, next and prev |
| Nodes.ListNode.From | src/list_node.rs:86-88 | the new node holds the value and has neither next nor prev |
| Nodes.EqualSymmetricTransitive | src/list_node.rs:99-101 | node equality is symmetric and transitive, as `PartialEq` requires |
| Nodes.EqualIgnoresRelinking | src/list_node.rs:99-101 | rewriting `next` and `prev` of any nodes leaves their equality as it was, so long as their data stay |
| Nodes.NoRepeat | src/list_node.rs:25-29 | in a chain whose forward and back links mirror each other, with no prev at the head and no next at the tail, two positions never hold the same node |
| Nodes.LinkedDistinct | src/list_node.rs:25-29 | a linked chain contains no node twice |
| Nodes.LinkedKeptByDataWrites | src/list_iter.rs:42-46 | writing node data through the mutable cursor keeps the chain linked |
| Nodes.HopIndex | src/lib.rs:318-321 | following `next` k times from position i reaches position i + k, or nothing once past the tail |
| Nodes.ForwardAcyclic | src/list_node.rs:25-29 | following `next` from a node of the chain never returns to that node |
| Nodes.ReachableCount | src/lib.rs:24-28 | from `head`, the first `len` hops reach the chain's nodes in order and hop `len` reaches nothing |
| Iters.ListIter.constructor | src/lib.rs:349-354 | an immutable cursor starts at `head`, having yielded nothing |
| Iters.ListIter.Next | src/list_iter.rs:17-22 | an exhausted cursor yields None and stays exhausted; otherwise it yields the current node's data, which is the next element in head-to-tail order, and moves to `next`; the list is not touched |
| Iters.ListIterMut.constructor | src/lib.rs:378-383 | a mutable cursor starts at `head`, having yielded nothing |
| Iters.ListIterMut.Next | src/list_iter.rs:39-48 | yields each node once, in chain order, as a handle to its data; then nothing |
| Dll.LinkedList.constructor | src/lib.rs:40-46 | a new list has no head, no tail, no elements and counter 0 |
| Dll.LinkedList.Invariants | src/lib.rs:24-28 | on a valid list: there is a head exactly when there is a tail, exactly when the count is positive; the head has no prev and the tail no next; every `next` is mirrored by `prev` and every `prev` by `next`; `head == tail` exactly when the count is 1; fewer than `len` hops from `head` reach a node and `len` hops reach nothing |
| Dll.LinkedList.Len | src/lib.rs:67-69 | the counter is the number of elements |
| Dll.LinkedList.IsEmpty | src/lib.rs:288-290 | true exactly when the list holds no element |
| Dll.LinkedList.PushFront | src/lib.rs:83-100 | the elements become `[value] + old` on a fresh head node; the invariant is kept |
| Dll.LinkedList.PushBack | src/lib.rs:148-163 | the elements become `old + [value]` on a fresh tail node; the invariant is kept |
| Dll.LinkedList.PopFront | src/lib.rs:118-133 | on an empty list yields None and changes nothing; otherwise yields the first element and drops it |
| Dll.LinkedList.PopBack | src/lib.rs:180-199 | on an empty list yields None and changes nothing; otherwise yields the last element and drops it |
| Dll.LinkedList.Retain | src/lib.rs:223-255 | the elements become exactly those of the old list that satisfy `keep`, in their original order; no node is created |
| Dll.LinkedList.Visit | src/lib.rs:226-253 | one turn of the `retain` loop: the node after the kept ones holds the next original element; it is unlinked if rejected, and the turn moves to its successor |
| Dll.LinkedList.Unlink | src/lib.rs:227-251 | removes the node at position k: its neighbours are joined, `head` or `tail` moves if it was an end, and the count drops by one |
| Dll.LinkedList.Clear | src/lib.rs:272-276 | the list becomes empty, with no head, no tail and counter 0 |
| Dll.LinkedList.GetPtr | src/lib.rs:313-323 | walking `index` hops from `head` reaches the node at that position; an index at or past `len` yields nothing |
| Dll.LinkedList.Get | src/lib.rs:309-311 | yields the element at the index, or None at or past `len`; the list is not touched |
| Dll.LinkedList.Iter | src/lib.rs:349-354 | the cursor walks this list's chain from its start |
| Dll.LinkedList.IterMut | src/lib.rs:378-383 | the mutable cursor walks this list's chain from its start |
| Dll.LinkedList.UpdateEach | src/list_iter.rs:39-48 | updating every element through the mutable cursor leaves `MapSeq(old, f)`, with the same nodes and links |
| Dll.LinkedList.Assign | src/list_iter.rs:44-46 | a write through one handle changes that element only |
| Dll.LinkedList.Fmt | src/lib.rs:429-440 | the text is the first element, then `" -> "` and each further element, in order; the empty list gives the empty string |
| Sequences.FilterAppend | src/lib.rs:223-255 | filtering distributes over concatenation |
| Sequences.FilterSnoc | src/lib.rs:223-255 | filtering one more element appends it exactly when it is kept |
| Sequences.RetainKeeps | src/lib.rs:226-227 | when `keep` accepts the next element, the pass moves past it |
| Sequences.RetainDrops | src/lib.rs:226-251 | when `keep` rejects the next element, removing it advances the filtered prefix |
| Sequences.RetainedSplit | src/lib.rs:224-254 | after i turns the list is the filtered first i elements followed by the rest, and the kept count is the filtered length |
| Sequences.RetainedAt | src/lib.rs:224-254 | the element at the visiting position is the next original element |
| Sequences.RetainedStep | src/lib.rs:226-253 | one turn keeps or removes exactly that element |
| Sequences.RetainedAll | src/lib.rs:224-254 | after the last turn the list is the filter of the original |
| Sequences.FilterExact | src/lib.rs:201 | the result holds exactly the accepted elements, each as often as in the input, and no rejected one |
| Sequences.FilterSound | src/lib.rs:201 | every element kept satisfies `keep` and came from the input |
| Sequences.FilterPartition | src/lib.rs:201 | kept plus rejected elements make up the whole list, so `len` drops by the number rejected |
| Sequences.FilterIdempotent | src/lib.rs:201 | retaining twice with the same predicate is retaining once |
| Sequences.FilterKeepsAll | src/lib.rs:201 | a predicate accepting every element leaves the list as it is |
| Sequences.RenderSnoc | src/lib.rs:433-436 | one more element at the back extends the text by `" -> "` and that element |
| Sequences.JoinSnoc | src/lib.rs:433-436 | joining one more part appends the separator and that part |
| Sequences.RenderIsJoin | src/lib.rs:429-440 | the back-built rendering equals the elements' texts joined by `" -> "` |
| Sequences.FirstKept | src/lib.rs:229-231 | the first position at or after i that `keep` accepts, with nothing accepted before it; None when no such position exists |
| Sequences.FirstKeptHeadsFilter | src/lib.rs:229-231 | the first kept position is where the filtered list begins; there is none exactly when the filter is empty |
| Sequences.HeadWalk | src/lib.rs:224-231 | the as-written walk of `retain` over `head`: a head it leaves is either the one it started with or the position right after a rejected element |
| Sequences.RetainHeadAsWritten | src/lib.rs:224-231 | the head the source's `retain` leaves, when there is one, follows a rejected element, so it is never the first position |
| Sequences.HeadWalkAfterKept | src/lib.rs:229-231 | once a node was kept, the source's loop never writes `head` again |
| Sequences.HeadWalkBeforeKept | src/lib.rs:229-231 | while every visited node was rejected, the loop leaves `head` on the first kept node |
| Sequences.RetainHeadAsWrittenExact | src/lib.rs:224-231 | the source's loop leaves `head` empty when the first element is kept, and on the first kept node otherwise |
| Sequences.RetainLosesHead | src/lib.rs:224-231 | when the first element is kept, the source leaves no head although the filtered list is not empty |
| Sequences.RetainLosesHeadOnSingleton | src/lib.rs:224-231 | `[1]` retained with an odd-value predicate keeps one element and leaves no head |
| Scenarios.CreateEmpty | tests/mod.rs:7-12 | a new list has length 0, no head and no tail |
| Scenarios.SimplePushPop | tests/mod.rs:15-44 | one push makes head and tail the same node with no neighbours; after popping it, both ends pop None |
| Scenarios.DoublePushPop | tests/mod.rs:47-88 | two front pushes give distinct ends linked both ways, newer first; popping the front leaves a single node |
| Scenarios.PushBackPopBack | tests/mod.rs:91-157 | one back push pops from the back as 1, after which both ends pop None; back pushes of 1 and 2 give head 1 and tail 2, and popping the back yields 2 and leaves 1 |
| Scenarios.PushAndPopFront | tests/mod.rs:175-186 | front pushes of 3, 1, 2 pop as 2, 1, 3, then None |
| Scenarios.PushAndPopBack | tests/mod.rs:189-200 | back pushes of 1, 2, 3 pop from the back as 3, 2, 1, then None |
| Scenarios.PushAndPopFrontAndBack | tests/mod.rs:203-217 | `front(1)`, `back(2)`, `front(3)`, `back(4)` pop as 3, 4, 1, 2, then None at both ends |
| Scenarios.Iterable | tests/mod.rs:220-234 | after front pushes of 1 to 4 the cursor yields 4, 3, 2, 1, then None |
| Scenarios.ClearMany | tests/mod.rs:237-244 | a list of n back pushes has length n; clearing it leaves length 0 and nothing to pop |
| Scenarios.OddsBelow | tests/mod.rs:247-257 | half of `0 … n-1`, rounded down, is odd |
| Scenarios.RetainsOddValues | tests/mod.rs:247-257 | retaining odd values of `0 … n-1` and popping `len` times yields exactly the odd numbers below n, in order, and empties the list |
| Scenarios.EvenOfOneTwoThree | src/lib.rs:207-221 | filtering `1, 2, 3` for even values leaves `2` |
| Scenarios.RetainEven | src/lib.rs:207-221 | retaining even values of `1, 2, 3` leaves length 1; the front pops `2`, then None at both ends |
| Scenarios.AddTen | src/lib.rs:362-377 | adding 10 through the mutable cursor to `0, 1, 2` reads back as 10, 11, 12 |
| Scenarios.FormatFirstPushes | tests/mod.rs:260-270 | the first two back pushes render as `"1"` and then `"1 -> 2"` |
| Scenarios.FormatFivePushes | tests/mod.rs:260-283 | back pushes of 1 to 5 render as `"1 -> 2 -> 3 -> 4 -> 5"` |
| Scenarios.GetByIndex | src/lib.rs:297-307 | on `1, 2, 3`, indices 0 to 2 give the elements and index 3 gives None |
| Scenarios.EqualityIgnoresLinks | src/list_node.rs:99-101 | nodes with equal data are equal whatever their links; different data makes them unequal |

## Left out

- `sort` (src/lib.rs:424-426) is not modelled. It delegates to `src/sort.rs`, which is not part of this model.
- Reference counting is not modelled: `Rc`, `RefCell` and `Weak`, dropping and deallocation.
  - `prev` is a plain nullable reference.
  - An `upgrade()` or `unwrap()` on a link becomes a proof obligation that `Valid()` discharges.
  - `clear` forgets its nodes, and the cascade of drops is not modelled.
- The `unsafe` pointer cast and the lifetime and `PhantomData` markers of the mutable cursor are not modelled.
  - `ListIterMut.Next` hands out the node itself.
  - The `*element = …` writes of a `for element in list.iter_mut()` loop are modelled by `UpdateEach`, which writes through each handle with `Assign`.
- The iterators are modelled only over a list that is not changed while they are live.
  - In the source, an iterator holds its own `Rc` clone of `head` and carries no borrow of the list (src/list_iter.rs:7-10, src/lib.rs:349-354).
  - So the list may change under a live iterator. After `pop_front` the iterator still yields the popped element, then stops. After `clear` it still yields every old element.
  - `ListIter.Next` and `ListIterMut.Next` require the chain captured when the cursor was created to be still linked, which rules those uses out.
- `eq` compares the data with the element type's own `PartialEq`, which need not be reflexive (a floating-point NaN, for example). `Nodes.Equal` uses Dafny's built-in equality on `T(==)`, which is reflexive.
- `Display` of the element type is not modelled. It is a foreign trait call, taken as a parameter `show: T -> string`.
- Errors reported by the `Formatter` are not modelled. `Fmt` returns the text.
- Only the integer `Display` used by the scenarios is written out, as `Scenarios.Show`.
- `retain`'s `FnMut` predicate is not modelled as stateful. It is a pure function `T -> bool`.
- `usize` arithmetic is not modelled: the counter is an unbounded `nat`, so overflow of `num_elements` is not captured.
- Sequences.RetainHeadAsWrittenExact: the as-written model of `retain` tracks only where `head` ends up. It leaves out a second effect of the same defect.
  - When the first element is kept, the taken head node loses its last owner once the pass moves on.
  - A later rejected tail then panics at the `upgrade().unwrap()` of src/lib.rs:239. For example, retaining odd values of `1, 2`.
- The test `sort_and_verify` (tests/mod.rs:160-172) only pushes and pops at the front. It is covered by `PushAndPopFront` and not written separately.

## Findings

| source | as written | input that shows it | evidently intended | confidence | as-written member | corrected member |
|---|---|---|---|---|---|---|
| src/lib.rs:224-231 | `retain` takes `head` out of the list before its pass. It writes `head` back only when it unlinks a node that has no predecessor. | the list `[1]` with a predicate that keeps 1; in general, any list whose first element is kept | `head` ends on the first kept node. With the code as written, `head` is None while the count stays positive, so `pop_front` returns None and `get(0)` panics. | high; not executed | Sequences.RetainLosesHead | Dll.LinkedList.Retain |
