# unrolled_list in Dafny

This project models `unrolled_list<T, NodeMaxSize>` from `lib/unrolled_list.h`. The container is a
doubly linked chain of nodes. Each node owns an array of `NodeMaxSize` slots, of which the first
`node_size` hold live elements. The container itself keeps `head_`, `tail_`, the element count
`size_` and a separate flag `is_empty_`. Both counters are maintained by hand, and they are not
always in step with the chain.

The model has three modules:

- `Blocks` is pure. It reads a chain as a sequence of blocks, one per node, each block being that
  node's live elements. The container's elements are the blocks concatenated head to tail
  (`Concat`). An element index maps to a node and slot through `Offset` and `Locate`. Each
  container operation has a block-level specification function (`PushBackBlocks`,
  `PushFrontBlocks`, `PopBackBlocks`, `PopFrontBlocks`, `InsertBlocks`, `EraseBlocks`). Lemmas
  prove what each of them does to the elements.
- `Nodes` holds the `Node` class: a live count, a `const` storage array and `next`/`prev` links.
  Its methods shift elements in place through loops over the array. The module also holds the
  cursor `ul_iterator` as a datatype `Cursor(node, index)`. Cursor equality is datatype equality,
  as in `operator==`. `++`, `--` and `*` are functions on a cursor.
- `UnrolledLists` holds the container as a class with the source's fields, plus a ghost `nodes`
  (the chain in order), a ghost `blocks` and a ghost `Repr`. `Valid()` says:
  - the links agree with `nodes`;
  - each node holds its block;
  - only the tail may be empty.

  `Counted()` (`size_ == |Contents()|`) is a separate predicate, because `insert` at `end()` breaks
  it. Every operation is a method whose `ensures` gives the new `blocks`, `size_` and `is_empty_` in
  terms of the old ones and of the `Blocks` specification functions. The cursor loops (`+`, `-`,
  the counting loop of range `erase`, `std::equal` in `operator==`) are methods with loop
  invariants, proved against `ElementCursor(i)`, the cursor of element `i`.

## Model

| member | source | states |
|---|---|---|
| Blocks.Locate | lib/unrolled_list.h:125-150 | element `i` lives in a node that exists, at a live slot, and the blocks before it hold exactly `i` elements |
| Blocks.LocateUnique | lib/unrolled_list.h:125-150 | every live slot is the home of exactly one element index, so cursors and indices correspond one to one |
| Blocks.LocateAt | lib/unrolled_list.h:117-119 | the element with index `i` is the value stored at the slot `Locate` finds |
| Blocks.PackedLength | lib/unrolled_list.h:215-322 | a chain packed as the constructors pack it, with every node but the last full, has `ceil(n / NodeMaxSize)` nodes for `n` elements |
| Blocks.PushBackContents | lib/unrolled_list.h:494-525 | `push_back(v)` appends exactly `v`, whether it goes into the tail, into a new tail or into a first node |
| Blocks.PushBackPacked | lib/unrolled_list.h:510-516 | a new node is opened only when the tail is full, so `push_back` keeps a packed chain packed |
| Blocks.PushAllPacked | lib/unrolled_list.h:494-525 | a run of `push_back`s appends exactly that run and keeps the chain packed |
| Blocks.PushAllNodeCount | lib/unrolled_list.h:494-525 | `push_back` of `n` elements into an empty list uses `ceil(n / NodeMaxSize)` nodes |
| Blocks.ElevenPushes | tests/allocator_ut.cpp:96-110 | eleven `push_back`s with `NodeMaxSize` 5 leave exactly three nodes |
| Blocks.LoadStep | lib/unrolled_list.h:290-317 | each element the range and copy constructors construct extends the packed prefix of the input by one |
| Blocks.PushFrontContents | lib/unrolled_list.h:526-569 | `push_front(v)` puts exactly `v` in front of the elements |
| Blocks.PopBackContents | lib/unrolled_list.h:572-586 | `pop_back` on a non-empty tail removes exactly the last element |
| Blocks.PopFrontContents | lib/unrolled_list.h:590-606 | `pop_front` on a non-empty head removes exactly the first element |
| Blocks.InsertContents | lib/unrolled_list.h:619-654 | inserting before slot `j` of node `k` puts `v` exactly before element `Offset(k) + j`, both when the node has room and when it is full and spills its last element into a new node |
| Blocks.InsertLocate | lib/unrolled_list.h:619-654 | after such an insert, the inserting cursor's slot holds `v`, at the index of the element it named before |
| Blocks.EraseContents | lib/unrolled_list.h:779-803 | erasing slot `j` of node `k` removes exactly element `Offset(k) + j` |
| Blocks.EraseLocate | lib/unrolled_list.h:779-803 | after `erase`, the erased index is found at the same slot, or at slot 0 of the node that follows when the slot was its node's last |
| Blocks.EraseAtEnd | lib/unrolled_list.h:788-793 | when the erased element was the last one but its node was not the tail, the tail that follows holds no element |
| Blocks.WriteContents | lib/unrolled_list.h:832-847 | writing slot `j` of node `k` replaces exactly element `Offset(k) + j` and keeps the shape of the chain |
| Blocks.LocateSameShape | lib/unrolled_list.h:832-847 | overwriting elements in place leaves every cursor naming the same index |
| Blocks.LocateNext | lib/unrolled_list.h:125-133 | the slot after element `m` is the next slot in its node, or slot 0 of the next node, or past the end |
| Blocks.LocateNextBlock | lib/unrolled_list.h:138-146 | skipping the rest of a node lands at slot 0 of the next node, or at the end of the elements |
| Blocks.LocatePrevBlock | lib/unrolled_list.h:156-166 | an element in the head has slot equal to its index; otherwise the slot before slot 0 is the last slot of the previous node |
| Nodes.Node.Append | lib/unrolled_list.h:510-512 | `v` goes into the first free slot and the live elements before it are kept |
| Nodes.Node.Prepend | lib/unrolled_list.h:543-550 | every live element moves one slot right and `v` takes slot 0 |
| Nodes.Node.InsertAt | lib/unrolled_list.h:623-637 | in a node with room, `v` goes before slot `i`, later elements move one slot right, and the count grows by one |
| Nodes.Node.InsertAtFull | lib/unrolled_list.h:639-654 | in a full node, `v` goes before slot `i` and the old last element drops out of the node |
| Nodes.Node.RemoveAt | lib/unrolled_list.h:794-802 | slot `i` is removed, later elements move one slot left, and the count drops by one |
| Nodes.Node.DropLast | lib/unrolled_list.h:581-582 | the last live slot is given up and the others are kept |
| Nodes.Node.Write | lib/unrolled_list.h:844 | `*it = value` overwrites exactly live slot `i` and leaves the others as they were |
| Nodes.ShiftRight | lib/unrolled_list.h:545-547 | `a[lo..hi)` moves one slot right and nothing else changes |
| Nodes.ShiftLeft | lib/unrolled_list.h:599-602 | `a(lo..hi]` moves one slot left and nothing else changes |
| UnrolledLists.UnrolledList.constructor | lib/unrolled_list.h:198-199 | the default constructor makes a valid, counted list with no node and `is_empty_` set |
| UnrolledLists.UnrolledList.FromSeq | lib/unrolled_list.h:275-322 | the range and initializer-list constructors hold the input in order, packed, with `size_` equal to its length and `is_empty_` set exactly when it is empty |
| UnrolledLists.UnrolledList.LoadAll | lib/unrolled_list.h:288-321 | the range constructor's loop loads all of the input, packed, and sets `size_` to its length |
| UnrolledLists.UnrolledList.LoadNode | lib/unrolled_list.h:290-317 | one pass of the outer loop appends one node holding the next `n` input elements |
| UnrolledLists.UnrolledList.OpenNode | lib/unrolled_list.h:291-304 | a new last node holding the next element, as the head or linked after the full tail |
| UnrolledLists.UnrolledList.FillNode | lib/unrolled_list.h:300-312 | the inner loop fills the tail slot by slot with the next input elements |
| UnrolledLists.UnrolledList.FillSlot | lib/unrolled_list.h:301-304 | one input element goes into the tail's first free slot |
| UnrolledLists.UnrolledList.Fill | lib/unrolled_list.h:215-272 | the fill constructor holds `count` copies of `value` in `count / NodeMaxSize` full nodes plus, when `count % NodeMaxSize` is not 0, one node holding that many, with `size_ == count` |
| UnrolledLists.UnrolledList.FillNodes | lib/unrolled_list.h:238-271 | the fill constructor's loop builds exactly that chain |
| UnrolledLists.CopyOf | lib/unrolled_list.h:209-214 | the copy constructor holds the other list's elements in order, packed and counted, in storage of its own |
| UnrolledLists.UnrolledList.CopyFrom | lib/unrolled_list.h:211-213 | `push_back` of each element from `begin()` to `end()` copies all of them |
| UnrolledLists.UnrolledList.CopyStep | lib/unrolled_list.h:211-213 | one round copies the next element and advances the walk of the other list without changing it |
| UnrolledLists.UnrolledList.CopiedAll | lib/unrolled_list.h:211-213 | when the walk reaches `end()`, every element has been copied and counted |
| UnrolledLists.UnrolledList.CreateNodeAfter | lib/unrolled_list.h:476-491 | a new one-element node is linked right after node `k` and the chain stays valid; `tail_` moves when node `k` was the tail |
| UnrolledLists.UnrolledList.SplicedValid | lib/unrolled_list.h:476-491 | linking a fresh node into the chain at any position keeps it valid |
| UnrolledLists.UnrolledList.CheckNodeEmpty | lib/unrolled_list.h:748-777 | a node left with no element is unlinked, and neighbours, `head_` and `tail_` are repaired; otherwise nothing changes; the elements never change |
| UnrolledLists.UnrolledList.UnsplicedValid | lib/unrolled_list.h:748-777 | unlinking an empty node restores validity |
| UnrolledLists.UnrolledList.PushBack | lib/unrolled_list.h:494-525 | the elements become the old ones plus `v`, `size_` grows by one, and `is_empty_` is cleared only when there was no node |
| UnrolledLists.UnrolledList.AppendInTail | lib/unrolled_list.h:510-513 | a tail with room takes `v` as its new last element |
| UnrolledLists.UnrolledList.PushFront | lib/unrolled_list.h:526-569 | the elements become `v` plus the old ones, `size_` grows by one, and `is_empty_` is never cleared |
| UnrolledLists.UnrolledList.PrependInHead | lib/unrolled_list.h:543-550 | a head with room takes `v` in slot 0 |
| UnrolledLists.UnrolledList.PopBack | lib/unrolled_list.h:572-586 | with `is_empty_` set nothing changes; otherwise the last element goes, `size_` drops by one, and `is_empty_` is set when it reaches 0 |
| UnrolledLists.UnrolledList.CountPopped | lib/unrolled_list.h:577-580 | `size_` drops by one and `is_empty_` is set exactly when it reaches 0 |
| UnrolledLists.UnrolledList.TakeLast | lib/unrolled_list.h:582-585 | the tail's last element goes and an emptied tail is unlinked |
| UnrolledLists.UnrolledList.PopFront | lib/unrolled_list.h:590-606 | with `size_` 0 nothing changes; otherwise the first element goes, `size_` drops by one, and `is_empty_` is set when it reaches 0 |
| UnrolledLists.UnrolledList.TakeFirst | lib/unrolled_list.h:598-605 | the head's first element goes and an emptied head is unlinked |
| UnrolledLists.UnrolledList.InsertInNode | lib/unrolled_list.h:619-654 | `v` is inserted before slot `j` of node `k` as `InsertBlocks` says, and the result is that node's last slot |
| UnrolledLists.UnrolledList.InsertInRoom | lib/unrolled_list.h:623-637 | a node with room grows by `v` at slot `j` |
| UnrolledLists.UnrolledList.SplitInsert | lib/unrolled_list.h:639-654 | a full node spills its last element into a new node after it and takes `v` at slot `j` |
| UnrolledLists.UnrolledList.Insert | lib/unrolled_list.h:609-655 | before an element, `v` is inserted at its index, `size_` grows by one, and the result is the node's last slot; at `end()`, `v` is appended and `size_` grows by two |
| UnrolledLists.UnrolledList.InsertRest | lib/unrolled_list.h:612-654 | after line 610's `++size_`, `end()` appends through `push_back` and any other cursor inserts in place |
| UnrolledLists.UnrolledList.InsertCounted | lib/unrolled_list.h:609-655 | the corrected `insert`: the same elements and result, with `size_` still counting the elements |
| UnrolledLists.UnrolledList.InsertUncounted | lib/unrolled_list.h:612-654 | the element work of `insert`: exactly one more element, and `size_` untouched |
| UnrolledLists.UnrolledList.AppendLast | lib/unrolled_list.h:614-616 | at `end()`, `v` is appended and the result is the tail's last slot |
| UnrolledLists.UnrolledList.InsertBefore | lib/unrolled_list.h:619-654 | before element `i`, the elements become `old[..i] + [v] + old[i..]`, and the inserting cursor now names `v` |
| UnrolledLists.UnrolledList.InsertedBefore | lib/unrolled_list.h:619-654 | the block-level insert is that element-level insert |
| UnrolledLists.UnrolledList.InsertCount | lib/unrolled_list.h:722-728 | `insert(pos, count, v)` at the cursor of an element puts `count` copies of `v` together before that element, `size_` grows by `count`, and the result is `pos`, which names index `i`, now the first copy |
| UnrolledLists.UnrolledList.InsertRange | lib/unrolled_list.h:730-740 | `insert(pos, first, last)` at the cursor of an element puts the range, in order, before that element, `size_` grows by its length, and the result is `pos` |
| UnrolledLists.UnrolledList.InsertList | lib/unrolled_list.h:742-746 | the initializer-list `insert` puts the list, in order, before `pos`'s element, as the range `insert` does |
| UnrolledLists.UnrolledList.InsertOne | lib/unrolled_list.h:725-726 | each round's insert puts `v` in front of the run already inserted before `pos`'s element, and `pos` names index `i`, now `v` |
| UnrolledLists.UnrolledList.InsertRangeStep | lib/unrolled_list.h:733-739 | inserting the elements last-first builds the range in order in front of `pos`'s element |
| UnrolledLists.UnrolledList.Erase | lib/unrolled_list.h:779-803 | exactly the element at `pos` is removed and `size_` drops by one; the result is `pos` when the slot was not its node's last, and otherwise the cursor of the next element, `end()`, or slot 0 of an empty tail |
| UnrolledLists.UnrolledList.EraseInside | lib/unrolled_list.h:794-802 | later elements of the node move left and the result is `pos` |
| UnrolledLists.UnrolledList.ErasedInside | lib/unrolled_list.h:794-802 | `pos` still names the erased index, which now holds the next element |
| UnrolledLists.UnrolledList.EraseLast | lib/unrolled_list.h:786-793 | erasing a node's last slot gives the cursor of the next element, or `end()`, or slot 0 of an empty tail |
| UnrolledLists.UnrolledList.EraseLastOfTail | lib/unrolled_list.h:787-790 | the tail's last slot goes, the tail stays even when empty, and the result is `end()` |
| UnrolledLists.UnrolledList.EraseLastBeforeTail | lib/unrolled_list.h:787-793 | the node's last slot goes, an emptied node is unlinked, and the result is slot 0 of the next node |
| UnrolledLists.UnrolledList.NextAfterErase | lib/unrolled_list.h:791-793 | slot 0 of the next node is the cursor of the element after the erased one, or an empty tail when none follows |
| UnrolledLists.UnrolledList.CountSteps | lib/unrolled_list.h:807-812 | the counting loop of range `erase` counts exactly the elements between `first` and `last` |
| UnrolledLists.UnrolledList.CountWalk | lib/unrolled_list.h:809-812 | the `while (first != last)` loop, walking by `++` from the cursor of position `i`, stops after exactly `n` rounds at the cursor of position `i + n` |
| UnrolledLists.UnrolledList.WalkSteps | lib/unrolled_list.h:125-133 | `++` takes the cursor of each index to the cursor of the next, and no earlier cursor equals the end cursor |
| UnrolledLists.UnrolledList.IncrementElement | lib/unrolled_list.h:125-133 | `++` on the cursor of element `m` gives the cursor of element `m + 1`, or the position past the last element |
| UnrolledLists.UnrolledList.CursorAtInjective | lib/unrolled_list.h:109-111 | two positions have equal cursors exactly when they are the same position |
| UnrolledLists.UnrolledList.EraseRange | lib/unrolled_list.h:805-817 | `erase(first, last)` removes exactly the elements from `first` up to `last`, decrements `size_` once per element, and returns the cursor of the element after them, or `end()` or slot 0 of an empty tail when none follows |
| UnrolledLists.UnrolledList.EraseTimes | lib/unrolled_list.h:813-815 | `count` rounds of `result = erase(result)` remove `count` consecutive elements |
| UnrolledLists.UnrolledList.EraseNext | lib/unrolled_list.h:814 | one more round removes one more element at the same index |
| UnrolledLists.UnrolledList.Clear | lib/unrolled_list.h:819-829 | no node and no element remain, `head_` and `tail_` are null, `size_` is 0 and `is_empty_` is set |
| UnrolledLists.UnrolledList.WriteAt | lib/unrolled_list.h:835 | `*it = v` replaces exactly element `m` and keeps the chain's shape |
| UnrolledLists.UnrolledList.AssignSeq | lib/unrolled_list.h:832-839 | `assign(first, last)` overwrites the first elements with the range in place and keeps the rest, the chain, `size_` and `is_empty_` |
| UnrolledLists.UnrolledList.AssignCount | lib/unrolled_list.h:841-847 | `assign(count, v)` overwrites the first `count` elements with `v` in place and keeps the rest |
| UnrolledLists.UnrolledList.AssignList | lib/unrolled_list.h:849-851 | the initializer-list `assign` does the same as the range `assign` |
| UnrolledLists.UnrolledList.AssignStep | lib/unrolled_list.h:835-837 | one round writes the next element and moves to the next cursor |
| UnrolledLists.UnrolledList.BeginElement | lib/unrolled_list.h:853-858 | `begin()` of a list with elements is the cursor of element 0 |
| UnrolledLists.UnrolledList.BeginIsEnd | lib/unrolled_list.h:853-899 | on a counted list, `begin() == end()` exactly when there is no element |
| UnrolledLists.UnrolledList.DerefElement | lib/unrolled_list.h:117-119 | `*` on the cursor of element `m` reads element `m` |
| UnrolledLists.UnrolledList.Front | lib/unrolled_list.h:933-935 | `front()` is the first element |
| UnrolledLists.UnrolledList.Back | lib/unrolled_list.h:940-942 | `back()` is the last element when the tail holds one |
| UnrolledLists.FrontPushedStillEmpty | lib/unrolled_list.h:526-539 | `push_front` onto a new list leaves one element and `size()` 1, yet `empty()` still reports true, because that branch never clears `is_empty_` |
| UnrolledLists.BackPushedNotEmpty | lib/unrolled_list.h:499-508 | `push_back` onto a new list leaves one element, `size()` 1 and `empty()` false |
| UnrolledLists.Equal | lib/unrolled_list.h:964-969 | `operator==` holds exactly when the two lists hold the same elements in the same order |
| UnrolledLists.CompareStep | lib/unrolled_list.h:968 | one step of `std::equal` compares the elements at the same index of both lists and advances both walks |
| UnrolledLists.ComparedAll | lib/unrolled_list.h:968 | once the walk reaches `end()`, all elements have been found equal |
| UnrolledLists.UnrolledList.Swap | lib/unrolled_list.h:975-980 | the chains and `size_` are exchanged, both lists stay valid, and each keeps its own `is_empty_` |
| UnrolledLists.UnrolledList.Exchange | lib/unrolled_list.h:977-979 | `head_`, `tail_` and `size_` are exchanged and `is_empty_` is not |
| UnrolledLists.UnrolledList.Plus | lib/unrolled_list.h:135-150 | `it + count` from the cursor of element `m` is the cursor of element `m + count`, and it is `end()` when that is past the last element of a non-empty tail |
| UnrolledLists.UnrolledList.AdvanceStep | lib/unrolled_list.h:139-146 | one round moves within the node or to slot 0 of the next node, and strictly lowers the count still to cover while keeping the cursor at the target minus what is left |
| UnrolledLists.UnrolledList.PositionEnd | lib/unrolled_list.h:149 | the loop stops at its target, and past the last element of a non-empty tail that is `end()` |
| UnrolledLists.UnrolledList.Minus | lib/unrolled_list.h:152-170 | `it - count` from element `m` is the cursor of element `m - count`; when `count > m` it stops in the head: at `m` itself when `m` is in the head, else at the head's last element |
| UnrolledLists.UnrolledList.RetreatStep | lib/unrolled_list.h:156-166 | one round moves within the node, stops at the head, or moves to the last slot of the previous node |
| UnrolledLists.UnrolledList.DecrementToLastElement | lib/unrolled_list.h:178-186 | the corrected `--`, which moves to the previous node's last live slot, gives the cursor of element `p - 1` |
| UnrolledLists.UnrolledList.DecrementAsWritten | lib/unrolled_list.h:178-186 | `--` as written gives the cursor of element `p - 1` exactly when the cursor is not at slot 0 or the previous node is full; otherwise it lands past that node's live slots |
| UnrolledLists.UnrolledList.WalkStep | lib/unrolled_list.h:125-133 | walking from `begin()`, `*` reads element `m` and `++` reaches position `m + 1` |
| UnrolledLists.UnrolledList.WalkEnd | lib/unrolled_list.h:894-899 | a walk from `begin()` is at `end()` exactly when it has passed every element |

## Left out

- The allocator machinery (`allocator_traits`, `allocate_*`, `construct_*`, `destroy_*`, `delete_node`, `max_size`, `get_allocator`) is left out. Nodes and arrays are created with `new`, and nothing is freed.
- The `try`/`catch` rollback paths of `push_back`, `push_front`, `insert` and the allocator-taking range constructor are left out: Dafny has no exceptions.
- `Insert` models the `insert(const_iterator, const T&)` overload (lines 609-655). The `insert(iterator, const T&)` overload (lines 657-720) does the same on the cursor of an element, inside a `try` block. At `end()` it differs: line 663 reads `next` of the null end node before the `end()` test at line 669. The line-610 row under "## Findings" concerns the `const_iterator` overload.
- Reverse and const iterators, `operator->` and the postfix `++`/`--` are adapters over the same cursor, and are left out.
- The destructor and the copy assignment operator (lines 433-441) are left out. Copy assignment is the range constructor followed by `swap`.
- `CopyOf` models the allocator-taking copy constructor (lines 209-214). The plain copy constructor (lines 203-207) reads `head_` and `tail_` uninitialised.
- `FromSeq` takes the input range as a sequence rather than a pair of input iterators.
- `size_` is an unbounded `nat`, so `size_t` wrap-around is not modelled.
- `Fill` requires `count == 0 || count >= NodeMaxSize`. For `0 < count < NodeMaxSize`, line 252 links the only node through a null `prev_node`.
- `Insert`, `InsertCount`, `InsertRange`, `InsertList`, `Erase` and `EraseRange` model overloads that cannot be instantiated as written. Lines 612, 723, 732, 743 and 781 begin with `ul_iterator<> pos = position;` on a `const_iterator`, and no conversion between the two cursor types exists. `result = erase(result)` at line 814 has no viable overload. The model gives these overloads the evident meaning of their text.
- `Insert` requires a list with at least one node. On a list with no node, `end()` after `++size_` reads `tail_->next` through a null `tail_`.
- `InsertCount`, `InsertRange`, `InsertList`, `InsertOne` and `InsertRangeStep` take only the cursor of an element, not `end()`. Their rounds call `insert` on a non-const `ul_iterator`, which selects the overload at line 657. At `end()`, each round's `insert` reads `next` of the null end node at line 663.
- `InsertRange` and `InsertList` require a nonempty range. For an empty one the source steps `last` before `first` at line 733, and the loop at line 734 never meets `first`.
- `PopBack` requires, when `is_empty_` is clear, that `size_ > 0` and the tail holds an element. Otherwise the source destroys slot `node_size - 1` of an empty tail.
- `PopFront` requires, when `size_` is not 0, a head holding an element, and a head of exactly one element when `size_` is 1. When `size_` drops to 0, `begin()` is the sentinel and the shifting loop never meets the head's last slot.
- `Erase` requires `size_ >= 1` and a cursor naming an element. `end()` and the cursor of an empty tail are not valid positions to erase.
- `EraseRange` requires `size_` in step with the chain and a non-empty tail. The counting loop must meet `last`, and every round of `erase` must find an element.
- `AssignSeq`, `AssignCount` and `AssignList` require the range to be no longer than the list. Past the last element the source writes through `end()`.
- `Plus` requires `m + count` to be at most the element count. Past the end, the source follows a null `next`.
- `Plus` and `Minus` start from the cursor of an element. The cursor of an empty tail is not modelled as a starting point.
- `CopyOf`, `CopyFrom` and `Equal` require `size_` in step with the chain. After `insert` at `end()` it is not, and `operator==` then compares by the broken `size_`.
- `CopyOf`, `CopyFrom` and `Equal` also require a tail that holds an element whenever `size_` is not 0. `erase` of the tail's last element leaves an empty tail linked: with `NodeMaxSize` 1, `push_back(1)`, `push_back(2)`, then erasing the 2. On such a list, `++` from the last element reaches slot 0 of the empty tail, not `end()`. The copy constructor then copies that destroyed slot, and `operator==` reads it in `std::equal`.
- `Size` and `Empty` are plain accessors of `size_` and `is_empty_`. Their behaviour is stated through the operations' contracts and through `FrontPushedStillEmpty` and `BackPushedNotEmpty`.
- `Front` requires an element and `Back` requires a non-empty tail. Otherwise the source reads outside the live slots.
- `Swap` requires both lists to have the same `NodeMaxSize`, as the C++ type does.

## Findings

| source | as written | input that shows it | evidently intended | confidence | as-written member | corrected member |
|---|---|---|---|---|---|---|
| lib/unrolled_list.h:184 | `--` at slot 0 moves to slot `NodeMaxSize - 1` of the previous node, whatever that node's `node_size` | `NodeMaxSize` 2; `push_back` 1, 2, 3 gives nodes [1, 2] [3]; `pop_front()` gives [2] [3]; `--(begin() + 1)` gives slot 1 of the first node, which `pop_front` destroyed, not the 2 in slot 0 | move to the previous node's last live slot, `node_size - 1` | not executed | UnrolledLists.UnrolledList.DecrementAsWritten | UnrolledLists.UnrolledList.DecrementToLastElement |
| lib/unrolled_list.h:610 | `insert(const_iterator, v)` increments `size_` before testing for `end()`, and the `push_back` it calls at line 615 increments it again (line 498) | no compiling call reaches lines 610-616: line 612 has no conversion from `const_iterator`, and `insert(end(), v)` on a non-const list selects line 657. As written, on a list of one element with `size_` 1, the `end()` path of lines 610-616 adds one element and leaves `size_` 3 | `size_` grows by one per inserted element | not executed | UnrolledLists.UnrolledList.Insert | UnrolledLists.UnrolledList.InsertCounted |
