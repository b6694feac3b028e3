/**
  The container `unrolled_list<T, NodeMaxSize>` of lib/unrolled_list.h: a
  doubly linked chain of fixed-capacity nodes, with the container's own
  bookkeeping (`head_`, `tail_`, `size_`, `is_empty_`).

  `T(0)` stands for element storage that `allocate_t` hands out before any
  element is constructed in it: a fresh array's slots hold some value of `T`
  that the model never reads as an element.
*/
module UnrolledLists {
  import opened Blocks
  import opened Nodes

  class UnrolledList<T(0)> {
    /** `NodeMaxSize`: the capacity of every node. */
    const cap: nat
    /** `sentinel_`: the node `begin()` and `end()` name while `size_` is 0.
        It owns no storage, which is why it can never be a chain node. */
    const sentinel: Node<T>
    var head: Node?<T>
    var tail: Node?<T>
    /** `size_`: the element count as the container keeps it. */
    var size: nat
    /** `is_empty_`: kept by hand, and not always in step with `size_`. */
    var isEmpty: bool

    /** The chain head to tail, and the live elements of each of its nodes. */
    ghost var nodes: seq<Node<T>>
    ghost var blocks: seq<seq<T>>
    ghost var Repr: set<object>

    /** The chain is well formed: `head_` and `tail_` are its ends, `next` and
        `prev` agree with the order of `nodes`, every node is distinct with
        storage of its own, and each holds its block. Only the tail may hold
        no element: `erase` of the tail's last slot does not unlink it. */
    ghost predicate Valid()
      reads this, Repr, nodes, Storage()
    {
      ValidExcept(|nodes|)
    }

    /** `Valid()`, except that node `k` may hold no element although it is not
        the tail: the state `check_node_empty` repairs. (The body is bound to
        a name so that a caller proves it as one goal rather than conjunct by
        conjunct.) */
    ghost predicate ValidExcept(k: nat)
      reads this, Repr, nodes, Storage()
    {
      var valid :=
        cap >= 1 && sentinel.data.Length == 0 && |blocks| == |nodes| &&
        Distinct() && Stored() && Linked() &&
        (forall m | 0 <= m < |nodes| - 1 && m != k :: |blocks[m]| > 0);
      valid
    }

    /** No node, and no node's storage, appears twice in the chain. */
    ghost predicate Distinct()
      reads this`nodes
    {
      forall k, l | 0 <= k < l < |nodes| :: nodes[k] != nodes[l] && nodes[k].data != nodes[l].data
    }

    /** Node `k` owns storage of capacity `cap` whose live slots are block `k`. */
    ghost predicate Stored()
      requires |blocks| == |nodes|
      reads this`nodes, this`blocks, this`Repr, nodes`size, Storage()
    {
      forall k | 0 <= k < |nodes| ::
        nodes[k] in Repr && nodes[k].data in Repr && nodes[k].Holds(blocks[k], cap)
    }

    /** The storage arrays of the chain's nodes. */
    ghost function Storage(): set<array<T>>
      reads this`nodes
    {
      set k | 0 <= k < |nodes| :: nodes[k].data
    }

    /** `head_`, `tail_` and the `next`/`prev` links follow the order of `nodes`. */
    ghost predicate Linked()
      reads this`nodes, this`head, this`tail, nodes`next, nodes`prev
    {
      (nodes == [] ==> head == null && tail == null) &&
      (nodes != [] ==>
         head == nodes[0] && tail == nodes[|nodes| - 1] &&
         head.prev == null && tail.next == null) &&
      (forall k {:trigger nodes[k].next} | 0 <= k < |nodes| - 1 :: nodes[k].next == nodes[k + 1]) &&
      (forall k {:trigger nodes[k].prev} | 1 <= k < |nodes| :: nodes[k].prev == nodes[k - 1])
    }

    /** The elements of the list, head to tail. */
    ghost function Contents(): seq<T>
      reads this
    {
      Concat(blocks)
    }

    /** `size_` agrees with the number of elements. */
    ghost predicate Counted()
      reads this
    {
      size == |Contents()|
    }

    /** The tail node holds at least one element. */
    ghost predicate TailFilled()
      reads this
    {
      blocks != [] && |blocks[|blocks| - 1]| > 0
    }

    /** The cursor `begin() + i` denotes: the node and slot of element `i`. */
    ghost function ElementCursor(i: nat): Cursor<T>
      reads this
      requires |blocks| == |nodes| && i < |Contents()|
    {
      Cursor(nodes[Locate(blocks, i).0], Locate(blocks, i).1)
    }

    /** `begin()` */
    function Begin(): Cursor<T>
      reads this
    {
      if size == 0 then Cursor(sentinel, 0) else Cursor(head, 0)
    }

    /** `end()` */
    function End(): Cursor<T>
      reads this, tail
      requires size != 0 ==> tail != null
    {
      if size == 0 then Cursor(sentinel, 0) else Cursor(tail.next, 0)
    }

    /** With `size_` counting the elements, `begin()` and `end()` meet
        exactly when there is no element: both are the sentinel then, and
        otherwise `begin()` is the head's slot 0 while `end()` is past the
        tail. */
    lemma BeginIsEnd()
      requires Valid() && Counted()
      ensures size != 0 ==> tail != null
      ensures Begin() == End() <==> Contents() == []
    {
      if size != 0 {
        NodeAt(0);
        NodeAt(|nodes| - 1);
      }
    }

    /** The default constructor: no node, `size_` 0, `is_empty_` set. */
    constructor (cap: nat)
      requires cap >= 1
      ensures Valid() && Counted() && Repr == {}
      ensures this.cap == cap && nodes == [] && Contents() == [] && isEmpty
    {
      this.cap := cap;
      var none := new T[0];
      sentinel := new Node(0, none, null, null);
      head, tail := null, null;
      size, isEmpty := 0, true;
      nodes, blocks := [], [];
      Repr := {};
    }

    /** The range constructor (lines 275-322), which the initializer-list
        constructor (line 416) delegates to: the elements of `s` in order,
        `NodeMaxSize` to a node except the last, which holds what is left.
        `size_` counts them and `is_empty_` is set exactly when `s` is empty. */
    constructor FromSeq(cap: nat, s: seq<T>)
      requires cap >= 1
      ensures Valid() && Counted() && fresh(Repr) && this.cap == cap
      ensures Contents() == s && Packed(blocks, cap) && isEmpty == (s == [])
    {
      this.cap := cap;
      var none := new T[0];
      sentinel := new Node(0, none, null, null);
      head, tail := null, null;
      size, isEmpty := 0, s == [];
      nodes, blocks := [], [];
      Repr := {};
      new;
      LoadAll(s);
    }

    /** The loop of the range constructor (lines 288-318): node after node,
        `NodeMaxSize` elements of `s` each until `s` runs out. The result is
        the number of elements constructed, `ul_size`. */
    method LoadAll(s: seq<T>)
      requires Valid() && nodes == []
      modifies this, Repr
      ensures Valid() && fresh(Repr - old(Repr)) && Loaded(s, |s|)
      ensures size == |s| && isEmpty == old(isEmpty)
    {
      var n := 0;
      while n < |s|
        invariant Valid() && fresh(Repr - old(Repr)) && Loaded(s, n)
        invariant size == old(size) && isEmpty == old(isEmpty)
        invariant n < |s| ==> blocks == [] || |blocks[|blocks| - 1]| == cap
      {
        var count := if |s| - n < cap then |s| - n else cap;
        LoadNode(s, n, count);
        n := n + count;
      }
      size := n;
    }

    /** The fill constructor (lines 215-272): `count` copies of `value` in
        `count / NodeMaxSize` full nodes and, when `count % NodeMaxSize` is
        not 0, one more node holding that many. For `0 < count < NodeMaxSize`
        the source links the only node through a null `prev_node`, so the
        model requires `count == 0 || count >= cap`. `is_empty_` keeps its
        default `false` unless `count` is 0. */
    constructor Fill(cap: nat, count: nat, value: T)
      requires cap >= 1 && (count == 0 || count >= cap)
      ensures Valid() && Counted() && fresh(Repr) && this.cap == cap
      ensures Filled(count, value) && isEmpty == (count == 0)
    {
      this.cap := cap;
      var none := new T[0];
      sentinel := new Node(0, none, null, null);
      head, tail := null, null;
      var rem := count % cap;
      var nodeCount := count / cap;
      var ulSize := nodeCount * cap;
      if rem != 0 {
        nodeCount := nodeCount + 1;
        ulSize := ulSize + rem;
      }
      LastNode(count, cap);
      assert ulSize == count;
      size, isEmpty := ulSize, count == 0;
      nodes, blocks := [], [];
      Repr := {};
      new;
      FillNodes(count, value, nodeCount, rem);
    }

    /** What the fill constructor builds: `count` copies of `value`, packed
        into `count / cap` full nodes and, when `count % cap` is not 0, one
        more node holding that many. */
    ghost predicate Filled(count: nat, value: T)
      requires cap >= 1
      reads this
    {
      var filled :=
        Contents() == Repeat(value, count) && Packed(blocks, cap) &&
        |blocks| == count / cap + (if count % cap == 0 then 0 else 1) &&
        (count != 0 ==> |blocks[|blocks| - 1]| == (if count % cap == 0 then cap else count % cap));
      filled
    }

    /** The loop of the fill constructor (lines 238-271): `nodeCount` nodes
        after one another, each full of `value` except, when `rem` is not 0,
        the last, which holds `rem` copies. */
    method FillNodes(count: nat, value: T, nodeCount: nat, rem: nat)
      requires Valid() && nodes == [] && size == count && (count == 0 || count >= cap)
      requires rem == count % cap && nodeCount == count / cap + (if rem == 0 then 0 else 1)
      modifies this, Repr
      ensures Valid() && Counted() && fresh(Repr - old(Repr)) && Filled(count, value)
      ensures size == old(size) && isEmpty == old(isEmpty)
    {
      var s := Repeat(value, count);
      var p: nat := 0;
      var i := 0;
      while i < nodeCount
        invariant Valid() && fresh(Repr - old(Repr)) && Filling(s, nodeCount, i, p)
        invariant size == old(size) && isEmpty == old(isEmpty)
        decreases nodeCount - i
      {
        i, p := FillStep(s, nodeCount, i, p);
      }
      FilledAll(value, s, nodeCount, p);
    }

    /** The fill constructor's loop has built the first `i` of `nodeCount`
        nodes, all full, except that the last of all holds `|s| % cap`
        copies when that is not 0; they hold `s[..p]`. */
    ghost predicate Filling(s: seq<T>, nodeCount: nat, i: nat, p: nat)
      reads this
    {
      var filling :=
        cap >= 1 && nodeCount == |s| / cap + (if |s| % cap == 0 then 0 else 1) &&
        i <= nodeCount && Loaded(s, p) && |blocks| == i &&
        (i < nodeCount ==> p == i * cap) && (i == nodeCount ==> p == |s|) &&
        (0 < i ==> |blocks[|blocks| - 1]| == (if i == nodeCount && |s| % cap != 0 then |s| % cap else cap));
      filling
    }

    /** One pass of the fill constructor's outer loop: the next node, full,
        or holding the remainder when it is the last. */
    method FillStep(s: seq<T>, nodeCount: nat, i: nat, p: nat) returns (i': nat, p': nat)
      requires Valid() && Filling(s, nodeCount, i, p) && i < nodeCount
      modifies this, Repr
      ensures Valid() && fresh(Repr - old(Repr)) && Filling(s, nodeCount, i', p') && i' == i + 1
      ensures size == old(size) && isEmpty == old(isEmpty)
    {
      var n := if i == nodeCount - 1 && |s| % cap != 0 then |s| % cap else cap;
      FillCount(|s|, cap, nodeCount, i);
      LoadNode(s, p, n);
      i', p' := i + 1, p + n;
    }

    /** After the last node, the fill constructor's promise holds. */
    lemma FilledAll(value: T, s: seq<T>, nodeCount: nat, p: nat)
      requires s == Repeat(value, |s|) && Filling(s, nodeCount, nodeCount, p) && size == |s|
      ensures Filled(|s|, value) && Counted()
    {
      assert s[..p] == s;
    }

    /** The loop of the copy constructor: `push_back` of each element of
        `other`, from `begin()` to `end()`, into this list, which starts with
        no node and owns nothing yet. */
    method CopyFrom(other: UnrolledList<T>)
      requires Valid()
      requires Counted() && nodes == [] && isEmpty && Repr == {}
      requires other.Walkable()
      requires other != this
      requires this !in other.Repr
      modifies this, Repr
      ensures Valid() && Counted() && fresh(Repr)
      ensures Contents() == other.Contents() && Packed(blocks, cap)
      ensures isEmpty == (other.Contents() == [])
    {
      var it := other.Begin();
      other.WalkStart();
      ghost var m := 0;
      while it != other.End()
        invariant Valid() && fresh(Repr) && Copying(other, m, it)
        decreases |other.Contents()| - m
      {
        it := CopyStep(other, m, it);
        m := m + 1;
      }
      CopiedAll(other, m, it);
    }

    /** Once the walk of `other` reaches `end()`, every element is copied. */
    lemma CopiedAll(other: UnrolledList<T>, m: nat, it: Cursor<T>)
      requires Copying(other, m, it) && it == other.End()
      ensures Counted() && Contents() == other.Contents() && Packed(blocks, cap)
      ensures isEmpty == (other.Contents() == [])
    {
      other.WalkEnd(m, it);
      assert other.Contents()[..m] == other.Contents();
    }

    /** The copy constructor's loop has pushed the first `m` elements of
        `other`, whose walk is at `it`, and `size_` counts them; the two
        lists share no object. */
    ghost predicate Copying(other: UnrolledList<T>, m: nat, it: Cursor<T>)
      reads this, other, other.tail, other.Repr, other.nodes, other.Storage()
    {
      var copying :=
        Counted() && Loaded(other.Contents(), m) && other.Walkable() && other.Walking(m, it) &&
        other != this && this !in other.Repr && other !in Repr && Repr !! other.Repr &&
        (nodes == [] <==> m == 0) && isEmpty == (m == 0);
      copying
    }

    /** One round of the copy constructor's loop: `push_back(*it)`, then
        `++it` on `other`, which this list shares no object with. */
    method CopyStep(other: UnrolledList<T>, ghost m: nat, it: Cursor<T>) returns (next: Cursor<T>)
      requires Valid() && Copying(other, m, it) && it != other.End()
      modifies this, Repr
      ensures Valid() && fresh(Repr - old(Repr)) && Copying(other, m + 1, next)
      ensures other.Contents() == old(other.Contents()) && m < |other.Contents()|
    {
      other.WalkEnd(m, it);
      other.WalkStep(m, it);
      var v := Deref(it);
      next := Increment(it);
      ghost var bs0 := blocks;
      PushBack(v);
      LoadStep(bs0, cap, other.Contents(), m);
    }

    /** `s[..p]` is in the chain in order, packed as the constructors pack
        it: every node but the tail full, the tail holding 1 to `cap`. */
    ghost predicate Loaded(s: seq<T>, p: nat)
      reads this
    {
      var loaded := p <= |s| && Contents() == s[..p] && Packed(blocks, cap);
      loaded
    }

    /** One pass of the outer loop of the range and fill constructors (lines
        238-269, 290-317): a node is allocated after `prev_node`, the tail,
        and `s[p..p + n]` is constructed in it slot by slot. */
    method LoadNode(s: seq<T>, p: nat, n: nat)
      requires Valid() && Loaded(s, p) && 1 <= n <= cap && p + n <= |s|
      requires blocks == [] || |blocks[|blocks| - 1]| == cap
      modifies this, Repr
      ensures Valid() && fresh(Repr - old(Repr)) && Loaded(s, p + n)
      ensures |blocks| == old(|blocks|) + 1 && |blocks[|blocks| - 1]| == n
      ensures size == old(size) && isEmpty == old(isEmpty)
    {
      OpenNode(s, p);
      FillNode(s, p, n, old(|blocks|));
    }

    /** The tail is block `b` and holds `s[p..p + j]`; the blocks before it
        hold `s[..p]`. */
    ghost predicate Opened(s: seq<T>, p: nat, j: nat, b: nat)
      reads this
    {
      var ready := Loaded(s, p + j) && |blocks| == b + 1 && |blocks[b]| == j;
      ready
    }

    /** The inner loop of the range and fill constructors (lines 245-249,
        255-259, 297-310): the rest of `s[p..p + n]` goes into the tail
        slot by slot. */
    method FillNode(s: seq<T>, p: nat, n: nat, ghost b: nat)
      requires Valid() && Opened(s, p, 1, b) && 1 <= n <= cap && p + n <= |s|
      modifies tail`size, tail.data, this`blocks
      ensures Valid() && Repr == old(Repr) && nodes == old(nodes) && Opened(s, p, n, b)
    {
      var j := 1;
      while j < n
        invariant 1 <= j <= n
        invariant Valid() && Repr == old(Repr) && nodes == old(nodes) && Opened(s, p, j, b)
      {
        FillSlot(s, p, j, b);
        j := j + 1;
      }
    }

    /** A new last node holding `s[p]`: the head when there is no node, and
        otherwise linked after the full tail. */
    method OpenNode(s: seq<T>, p: nat)
      requires Valid() && Loaded(s, p) && p < |s|
      requires blocks == [] || |blocks[|blocks| - 1]| == cap
      modifies this, Repr
      ensures Valid() && fresh(Repr - old(Repr)) && Loaded(s, p + 1)
      ensures |blocks| == old(|blocks|) + 1 && |blocks[|blocks| - 1]| == 1
      ensures size == old(size) && isEmpty == old(isEmpty)
    {
      ghost var bs0 := blocks;
      if tail == null {
        var n := NewHead(s[p]);
      } else {
        ghost var last := |blocks| - 1;
        assert blocks[last + 1..] == [] && blocks[..last + 1] == blocks;
        var n := CreateNodeAfter(tail, s[p], last);
      }
      assert blocks == PushBackBlocks(bs0, cap, s[p]);
      LoadStep(bs0, cap, s, p);
    }

    /** `s[p + j]` constructed in the first free slot of the tail. */
    method FillSlot(s: seq<T>, p: nat, j: nat, ghost b: nat)
      requires Valid() && Opened(s, p, j, b) && j < cap && p + j < |s|
      modifies tail`size, tail.data, this`blocks
      ensures Valid() && Repr == old(Repr) && nodes == old(nodes) && Opened(s, p, j + 1, b)
    {
      ghost var bs0 := blocks;
      AppendInTail(s[p + j]);
      assert blocks == PushBackBlocks(bs0, cap, s[p + j]);
      LoadStep(bs0, cap, s, p + j);
    }

    /** `create_node_after`: links a new one-element node right after
        `current`, moving `tail_` when `current` was the tail. The caller's
        `construct_t` of slot 0 is folded in: the node holds `[v]`. */
    method CreateNodeAfter(current: Node<T>, v: T, ghost k: nat) returns (n: Node<T>)
      requires Valid() && k < |nodes| && nodes[k] == current && |blocks[k]| > 0
      modifies this, Repr
      ensures Valid() && fresh(Repr - old(Repr)) && fresh(n)
      ensures nodes == old(nodes[..k + 1]) + [n] + old(nodes[k + 1..])
      ensures blocks == old(blocks[..k + 1]) + [[v]] + old(blocks[k + 1..])
      ensures size == old(size) && isEmpty == old(isEmpty) && head == old(head)
    {
      assert current.next == (if k + 1 == |nodes| then null else nodes[k + 1]);
      assert tail == current <==> k + 1 == |nodes|;
      n := LinkAfter(current, v, k);
      SplicedValid(k + 1, n, [v]);
    }

    /** The relinking done by `create_node_after`: a fresh node holding `[v]`
        goes between `current` (node `k`) and its old successor, and the
        ghost chain records it at position `k + 1`. */
    method LinkAfter(current: Node<T>, v: T, ghost k: nat) returns (n: Node<T>)
      requires cap >= 1 && |blocks| == |nodes| && k < |nodes| && nodes[k] == current
      requires current.next == (if k + 1 == |nodes| then null else nodes[k + 1])
      requires current.next != current && (tail == current <==> k + 1 == |nodes|)
      modifies this`tail, this`nodes, this`blocks, this`Repr, current, current.next
      ensures SplicedIn(k + 1, n, [v]) && fresh(n) && fresh(n.data)
    {
      var prevNext := current.next;
      var storage := new T[cap];
      storage[0] := v;
      n := new Node(1, storage, prevNext, current);
      current.next := n;
      if prevNext != null {
        prevNext.prev := n;
      }
      if tail == current {
        tail := n;
      }
      nodes, blocks, Repr := nodes[..k + 1] + [n] + nodes[k + 1..], blocks[..k + 1] + [[v]] + blocks[k + 1..], Repr + {n, storage};
    }

    /** The transition that links a fresh node `n` holding `b` in at position
        `p` of the chain: `n.prev`/`n.next` are its neighbours, which point
        back at it, `head_`/`tail_` move to it when it is the new first/last
        node, and no other link, size or storage changes. */
    twostate predicate SplicedIn(p: nat, new n: Node<T>, new b: seq<T>)
      reads *
    {
      var N0, B0 := old(nodes), old(blocks);
      var spliced :=
        p <= |N0| && p <= |B0| && b != [] &&
        n !in old(Repr) && n.data !in old(Repr) && n.Holds(b, cap) &&
        nodes == N0[..p] + [n] + N0[p..] && blocks == B0[..p] + [b] + B0[p..] &&
        Repr == old(Repr) + {n, n.data} &&
        n.prev == (if p == 0 then null else N0[p - 1]) &&
        n.next == (if p == |N0| then null else N0[p]) &&
        (p > 0 ==> N0[p - 1].next == n) && (p < |N0| ==> N0[p].prev == n) &&
        head == (if p == 0 then n else old(head)) &&
        tail == (if p == |N0| then n else old(tail)) &&
        (forall o: Node<T> | o in N0 && o != n.prev :: o.next == old(o.next)) &&
        (forall o: Node<T> | o in N0 && o != n.next :: o.prev == old(o.prev)) &&
        (forall o: Node<T> | o in old(Repr) :: o.size == old(o.size)) &&
        (forall a: array<T> | a in old(Repr) :: a[..] == old(a[..]));
      spliced
    }

    /** Linking a node in keeps the list valid, provided a node that stops
        being the tail held an element. */
    twostate lemma SplicedValid(p: nat, new n: Node<T>, new b: seq<T>)
      requires old(Valid()) && SplicedIn(p, n, b)
      requires p == old(|nodes|) && p > 0 ==> old(|blocks[p - 1]|) > 0
      ensures Valid()
    {
      SplicedStored(p, n, b);
      SplicedLinked(p, n);
    }

    /** A node holding `b`, linked in at position `p` of the chain, leaves
        every other node's storage as it was. */
    twostate lemma SplicedStored(p: nat, new n: Node<T>, new b: seq<T>)
      requires old(|blocks| == |nodes| && Distinct() && Stored()) && p <= old(|nodes|)
      requires old(forall m | 0 <= m < |nodes| - 1 :: |blocks[m]| > 0) && b != []
      requires p == old(|nodes|) && p > 0 ==> old(|blocks[p - 1]|) > 0
      requires nodes == old(nodes[..p]) + [n] + old(nodes[p..])
      requires blocks == old(blocks[..p]) + [b] + old(blocks[p..])
      requires n !in old(Repr) && n.data !in old(Repr) && n.Holds(b, cap)
      requires Repr == old(Repr) + {n, n.data}
      requires forall o: Node<T> | o in old(Repr) :: o.size == old(o.size)
      requires forall a: array<T> | a in old(Repr) :: a[..] == old(a[..])
      ensures |blocks| == |nodes| && Distinct() && Stored()
      ensures forall m | 0 <= m < |nodes| - 1 :: |blocks[m]| > 0
    {
      var N0, B0 := old(nodes), old(blocks);
      forall m {:trigger nodes[m]} | 0 <= m < |nodes|
        ensures nodes[m] == (if m < p then N0[m] else if m == p then n else N0[m - 1])
        ensures blocks[m] == (if m < p then B0[m] else if m == p then b else B0[m - 1])
      {
      }
      SplicedHolds(p, n, b);
    }

    /** The nodes of a chain with a node `n` put in at position `p` each hold
        their block: the old ones kept their sizes and storage. */
    twostate lemma SplicedHolds(p: nat, new n: Node<T>, new b: seq<T>)
      requires old(|blocks| == |nodes| && Stored()) && p <= old(|nodes|)
      requires nodes == old(nodes[..p]) + [n] + old(nodes[p..])
      requires blocks == old(blocks[..p]) + [b] + old(blocks[p..])
      requires n.Holds(b, cap) && Repr == old(Repr) + {n, n.data}
      requires forall o: Node<T> | o in old(Repr) :: o.size == old(o.size)
      requires forall a: array<T> | a in old(Repr) :: a[..] == old(a[..])
      ensures |blocks| == |nodes| && Stored()
    {
      var N0, B0 := old(nodes), old(blocks);
      forall m | 0 <= m < |nodes|
        ensures nodes[m] in Repr && nodes[m].data in Repr && nodes[m].Holds(blocks[m], cap)
      {
        if m < p {
          assert nodes[m] == N0[m] && blocks[m] == B0[m];
          assert old(N0[m].Holds(B0[m], cap));
        } else if m > p {
          assert nodes[m] == N0[m - 1] && blocks[m] == B0[m - 1];
          assert old(N0[m - 1].Holds(B0[m - 1], cap));
        }
      }
    }

    /** The links are redirected to a node `n` put in at position `p`:
        `n.prev`/`n.next` are its neighbours, which point back at it, and
        `head_`/`tail_` move to it when it is the new first/last node. */
    twostate lemma SplicedLinked(p: nat, new n: Node<T>)
      requires old(Distinct() && Linked()) && p <= old(|nodes|)
      requires nodes == old(nodes[..p]) + [n] + old(nodes[p..])
      requires n !in old(nodes)
      requires n.prev == (if p == 0 then null else old(nodes)[p - 1])
      requires n.next == (if p == |old(nodes)| then null else old(nodes)[p])
      requires p > 0 ==> old(nodes)[p - 1].next == n
      requires p < |old(nodes)| ==> old(nodes)[p].prev == n
      requires head == (if p == 0 then n else old(head))
      requires tail == (if p == |old(nodes)| then n else old(tail))
      requires forall o: Node<T> | o in old(nodes) && o != n.prev :: o.next == old(o.next)
      requires forall o: Node<T> | o in old(nodes) && o != n.next :: o.prev == old(o.prev)
      ensures Linked()
    {
      var N0 := old(nodes);
      forall m {:trigger nodes[m]} | 0 <= m < |nodes|
        ensures nodes[m] == (if m < p then N0[m] else if m == p then n else N0[m - 1])
      {
      }
      forall m {:trigger nodes[m].next} | 0 <= m < |nodes| - 1
        ensures nodes[m].next == nodes[m + 1]
      {
        if m < p - 1 {
          assert N0[m] in N0 && old(N0[m].next) == N0[m + 1];
        } else if m > p {
          assert N0[m - 1] in N0 && old(N0[m - 1].next) == N0[m];
        }
      }
      forall m {:trigger nodes[m].prev} | 1 <= m < |nodes|
        ensures nodes[m].prev == nodes[m - 1]
      {
        if m < p {
          assert N0[m] in N0 && old(N0[m].prev) == N0[m - 1];
        } else if m > p + 1 {
          assert N0[m - 1] in N0 && old(N0[m - 1].prev) == N0[m - 2];
        }
      }
    }

    /** A new one-element first node: the first node of an empty chain
        (lines 499-508 of `push_back`, 531-539 of `push_front`) or a new head
        linked before a full one (lines 553-559). */
    method NewHead(v: T) returns (n: Node<T>)
      requires Valid()
      modifies this, Repr
      ensures Valid() && fresh(Repr - old(Repr)) && fresh(n)
      ensures nodes == [n] + old(nodes) && blocks == [[v]] + old(blocks)
      ensures size == old(size) && isEmpty == old(isEmpty)
    {
      n := LinkFront(v);
      SplicedValid(0, n, [v]);
    }

    /** The relinking for a new head: a fresh node holding `[v]` whose
        `next` is the old head, which points back at it; `tail_` is set too
        when there was no node. */
    method LinkFront(v: T) returns (n: Node<T>)
      requires cap >= 1 && |blocks| == |nodes|
      requires head == (if nodes == [] then null else nodes[0])
      requires tail == null <==> nodes == []
      modifies this`head, this`tail, this`nodes, this`blocks, this`Repr, head
      ensures SplicedIn(0, n, [v]) && fresh(n) && fresh(n.data)
    {
      var storage := new T[cap];
      storage[0] := v;
      n := new Node(1, storage, head, null);
      if head == null {
        tail, head := n, n;
      } else {
        head.prev := n;
        head := n;
      }
      nodes, blocks, Repr := [n] + nodes, [[v]] + blocks, Repr + {n, storage};
    }

    /** Node `k` now holds `b` in place of its old block, and no other node,
        no other storage and no link changed. */
    twostate lemma Rewritten(k: nat, new b: seq<T>)
      requires old(Valid()) && k < old(|nodes|)
      requires nodes == old(nodes) && Repr == old(Repr) && head == old(head) && tail == old(tail)
      requires blocks == old(blocks)[k := b] && nodes[k].Holds(b, cap)
      requires forall o: Node<T> | old(allocated(o)) :: o.next == old(o.next) && o.prev == old(o.prev)
      requires forall o: Node<T> | old(allocated(o)) && o != nodes[k] :: o.size == old(o.size)
      requires forall a: array<T> | old(allocated(a)) && a != nodes[k].data :: a[..] == old(a[..])
      ensures ValidExcept(k)
      ensures b != [] || k == |nodes| - 1 ==> Valid()
    {
      forall m | 0 <= m < |nodes|
        ensures nodes[m] in Repr && nodes[m].data in Repr && nodes[m].Holds(blocks[m], cap)
      {
        if m != k {
          assert old(nodes[m].Holds(blocks[m], cap));
        }
      }
      assert Linked() by {
        assert old(Linked());
      }
    }

    /** Constructs `v` in the first free slot of a tail that has room. */
    method AppendInTail(v: T)
      requires Valid() && nodes != [] && |blocks[|blocks| - 1]| < cap
      modifies tail`size, tail.data, this`blocks
      ensures Valid() && Repr == old(Repr) && nodes == old(nodes)
      ensures blocks == old(blocks[|blocks| - 1 := blocks[|blocks| - 1] + [v]])
    {
      ghost var last := |blocks| - 1;
      tail.Append(v);
      blocks := blocks[last := blocks[last] + [v]];
      Rewritten(last, blocks[last]);
    }

    /** `push_back`: appends `v`. The tail grows in place while it has room;
        a new node is linked after it only when the list has no node or the
        tail is full. Only the first of these cases sets `is_empty_` to false. */
    method PushBack(v: T)
      requires Valid()
      modifies this, Repr
      ensures Valid() && fresh(Repr - old(Repr))
      ensures blocks == PushBackBlocks(old(blocks), cap, v) && Contents() == old(Contents()) + [v]
      ensures size == old(size) + 1 && isEmpty == (old(isEmpty) && old(nodes) != [])
    {
      size := size + 1;
      var noNode := tail == null && head == null;
      AddLast(v);
      if noNode {
        isEmpty := false;
      }
      PushBackContents(old(blocks), cap, v);
    }

    /** The three cases of `push_back` after `++size_`. */
    method AddLast(v: T)
      requires Valid()
      modifies this, Repr
      ensures Valid() && fresh(Repr - old(Repr))
      ensures blocks == PushBackBlocks(old(blocks), cap, v)
      ensures size == old(size) && isEmpty == old(isEmpty)
    {
      if tail == null && head == null {
        var n := NewHead(v);
        return;
      }
      ghost var last := |blocks| - 1;
      if tail.size != cap {
        AppendInTail(v);
        return;
      }
      assert blocks[last + 1..] == [] && blocks[..last + 1] == blocks;
      var n := CreateNodeAfter(tail, v, last);
    }

    /** Shifts the head's elements one slot right and puts `v` in slot 0
        (lines 543-549). */
    method PrependInHead(v: T)
      requires Valid() && nodes != [] && |blocks[0]| < cap
      modifies head`size, head.data, this`blocks
      ensures Valid() && Repr == old(Repr) && nodes == old(nodes)
      ensures blocks == old(blocks[0 := [v] + blocks[0]])
    {
      head.Prepend(v);
      blocks := blocks[0 := [v] + blocks[0]];
      Rewritten(0, blocks[0]);
    }

    /** `push_front`: puts `v` before the first element. The head grows in
        place while it has room; otherwise a new one-element head is linked
        before it. Unlike `push_back`, it leaves `is_empty_` as it was, even
        when the list had no node. */
    method PushFront(v: T)
      requires Valid()
      modifies this, Repr
      ensures Valid() && fresh(Repr - old(Repr))
      ensures blocks == PushFrontBlocks(old(blocks), cap, v) && Contents() == [v] + old(Contents())
      ensures size == old(size) + 1 && isEmpty == old(isEmpty)
    {
      size := size + 1;
      AddFirst(v);
    }

    /** The three cases of `push_front` after `++size_`. */
    method AddFirst(v: T)
      requires Valid()
      modifies this, Repr
      ensures Valid() && fresh(Repr - old(Repr))
      ensures blocks == PushFrontBlocks(old(blocks), cap, v) && Contents() == [v] + old(Contents())
      ensures size == old(size) && isEmpty == old(isEmpty)
    {
      PushFrontContents(blocks, cap, v);
      if tail == null && head == null {
        var n := NewHead(v);
        return;
      }
      if head.size != cap {
        PrependInHead(v);
        return;
      }
      var n := NewHead(v);
    }

    /** The transition that unlinks node `k`, which holds no element: its
        neighbours are linked to each other, `head_`/`tail_` move past it when
        it was the first/last node, and no other link, size or storage
        changes. */
    twostate predicate UnsplicedAt(k: nat)
      reads *
    {
      var N0, B0 := old(nodes), old(blocks);
      var unspliced :=
        k < |N0| && k < |B0| && B0[k] == [] &&
        nodes == N0[..k] + N0[k + 1..] && blocks == B0[..k] + B0[k + 1..] &&
        Repr == old(Repr) &&
        var before, after := (if k == 0 then null else N0[k - 1]), (if k + 1 == |N0| then null else N0[k + 1]);
        (before != null ==> before.next == after) && (after != null ==> after.prev == before) &&
        head == (if k == 0 then after else old(head)) &&
        tail == (if k + 1 == |N0| then before else old(tail)) &&
        (forall o: Node<T> | o in N0 && o != before :: o.next == old(o.next)) &&
        (forall o: Node<T> | o in N0 && o != after :: o.prev == old(o.prev)) &&
        (forall o: Node<T> | o in old(Repr) :: o.size == old(o.size)) &&
        (forall a: array<T> | a in old(Repr) :: a[..] == old(a[..]));
      unspliced
    }

    /** Unlinking the one node that may wrongly hold no element leaves a valid
        list. */
    twostate lemma UnsplicedValid(k: nat)
      requires old(ValidExcept(k)) && UnsplicedAt(k)
      ensures Valid()
    {
      UnsplicedStored(k);
      UnsplicedLinked(k);
    }

    twostate lemma UnsplicedStored(k: nat)
      requires old(ValidExcept(k)) && UnsplicedAt(k)
      ensures |blocks| == |nodes| && Distinct() && Stored()
      ensures forall m | 0 <= m < |nodes| - 1 :: |blocks[m]| > 0
    {
      var N0, B0 := old(nodes), old(blocks);
      forall m {:trigger nodes[m]} | 0 <= m < |nodes|
        ensures nodes[m] == (if m < k then N0[m] else N0[m + 1])
        ensures blocks[m] == (if m < k then B0[m] else B0[m + 1])
      {
      }
      forall m | 0 <= m < |nodes|
        ensures nodes[m] in Repr && nodes[m].data in Repr && nodes[m].Holds(blocks[m], cap)
      {
        var o := if m < k then m else m + 1;
        assert old(N0[o].Holds(B0[o], cap));
      }
    }

    twostate lemma UnsplicedLinked(k: nat)
      requires old(ValidExcept(k)) && UnsplicedAt(k)
      ensures Linked()
    {
      var N0 := old(nodes);
      forall m {:trigger nodes[m]} | 0 <= m < |nodes|
        ensures nodes[m] == (if m < k then N0[m] else N0[m + 1])
      {
      }
      forall m {:trigger nodes[m].next} | 0 <= m < |nodes| - 1
        ensures nodes[m].next == nodes[m + 1]
      {
        if m < k - 1 {
          assert N0[m] in N0 && old(N0[m].next) == N0[m + 1];
        } else if m >= k {
          assert N0[m + 1] in N0 && old(N0[m + 1].next) == N0[m + 2];
        }
      }
      forall m {:trigger nodes[m].prev} | 1 <= m < |nodes|
        ensures nodes[m].prev == nodes[m - 1]
      {
        if m < k {
          assert N0[m] in N0 && old(N0[m].prev) == N0[m - 1];
        } else if m > k {
          assert N0[m + 1] in N0 && old(N0[m + 1].prev) == N0[m];
        }
      }
    }

    /** The relinking done by `check_node_empty`, case by case as the source
        takes them: the only node, the tail, the head, a middle node. */
    method Unlink(current: Node<T>, ghost k: nat)
      requires |blocks| == |nodes| && Distinct() && k < |nodes| && nodes[k] == current && blocks[k] == []
      requires current.prev == (if k == 0 then null else nodes[k - 1])
      requires current.next == (if k + 1 == |nodes| then null else nodes[k + 1])
      requires head == nodes[0] && tail == nodes[|nodes| - 1]
      modifies this`head, this`tail, this`nodes, this`blocks, current.prev, current.next
      ensures UnsplicedAt(k)
    {
      if current == head && current == tail {
        head := null;
        tail := null;
      }
      if current == tail {
        if current.prev != null {
          current.prev.next := current.next;
        }
        tail := current.prev;
      } else if current == head {
        if current.next != null {
          current.next.prev := current.prev;
        }
        head := current.next;
      } else {
        if current.prev != null {
          current.prev.next := current.next;
        }
        if current.next != null {
          current.next.prev := current.prev;
        }
      }
      nodes, blocks := nodes[..k] + nodes[k + 1..], blocks[..k] + blocks[k + 1..];
    }

    /** `check_node_empty`: unlinks node `k` when it holds no element, which
        repairs the one gap `ValidExcept(k)` allows. The elements are the same
        either way. */
    method CheckNodeEmpty(current: Node<T>, ghost k: nat)
      requires ValidExcept(k) && k < |nodes| && nodes[k] == current
      modifies this, Repr
      ensures Valid() && Repr == old(Repr) && Contents() == old(Contents())
      ensures old(blocks[k]) == [] ==> nodes == old(nodes[..k] + nodes[k + 1..]) && blocks == old(blocks[..k] + blocks[k + 1..])
      ensures old(blocks[k]) != [] ==> nodes == old(nodes) && blocks == old(blocks)
      ensures size == old(size) && isEmpty == old(isEmpty)
    {
      if current.size == 0 {
        assert current.prev == (if k == 0 then null else nodes[k - 1]);
        assert current.next == (if k + 1 == |nodes| then null else nodes[k + 1]);
        Unlink(current, k);
        UnsplicedValid(k);
        ConcatRemoveEmpty(old(blocks), k);
      }
    }

    /** Destroys the last element of node `k` (lines 582-583 of `pop_back`,
        788-789 of `erase`); the node may be left empty. */
    method DropFromNode(current: Node<T>, ghost k: nat)
      requires Valid() && k < |nodes| && nodes[k] == current && blocks[k] != []
      modifies current`size, this`blocks
      ensures ValidExcept(k) && Repr == old(Repr) && nodes == old(nodes)
      ensures k == |nodes| - 1 ==> Valid()
      ensures blocks == old(blocks[k := blocks[k][..|blocks[k]| - 1]])
    {
      current.DropLast();
      blocks := blocks[k := blocks[k][..|blocks[k]| - 1]];
      Rewritten(k, blocks[k]);
    }

    /** `pop_back`: removes the last element and unlinks the tail once it
        holds none. It does nothing when `is_empty_` is set, whatever `size_`
        says, and sets `is_empty_` when `size_` drops to 0. */
    method PopBack()
      requires Valid()
      requires !isEmpty ==> size > 0 && TailFilled()
      modifies this, Repr
      ensures Valid() && Repr == old(Repr)
      ensures old(isEmpty) ==> blocks == old(blocks) && size == old(size) && isEmpty
      ensures !old(isEmpty) ==>
                blocks == PopBackBlocks(old(blocks)) && size == old(size) - 1 && isEmpty == (size == 0)
    {
      if isEmpty {
        return;
      }
      CountPopped();
      TakeLast();
    }

    /** Lines 576-579 of `pop_back`: one element fewer, and `is_empty_` set
        once `size_` reaches 0. */
    method CountPopped()
      requires Valid() && size > 0 && !isEmpty
      modifies this`size, this`isEmpty
      ensures Valid() && size == old(size) - 1 && isEmpty == (size == 0)
    {
      size := size - 1;
      if size == 0 {
        isEmpty := true;
      }
    }

    /** Lines 582-585 of `pop_back`: the tail's last element goes, and so does
        the tail once it is empty. */
    method TakeLast()
      requires Valid() && TailFilled()
      modifies this, Repr
      ensures Valid() && Repr == old(Repr) && blocks == PopBackBlocks(old(blocks))
      ensures size == old(size) && isEmpty == old(isEmpty)
    {
      ghost var last := |blocks| - 1;
      DropFromNode(tail, last);
      CheckNodeEmpty(tail, last);
    }

    /** Shifts the head's elements one slot left over its first element
        (lines 598-603). */
    method RemoveFromHead()
      requires Valid() && nodes != [] && blocks[0] != []
      modifies head`size, head.data, this`blocks
      ensures ValidExcept(0) && Repr == old(Repr) && nodes == old(nodes)
      ensures blocks == old(blocks[0 := blocks[0][1..]])
    {
      head.RemoveAt(0);
      blocks := blocks[0 := blocks[0][1..]];
      Rewritten(0, blocks[0]);
    }

    /** `pop_front`: removes the first element and unlinks the head once it
        holds none. Unlike `pop_back` it tests `size_`, not `is_empty_`. When
        `size_` drops to 0, `begin()` is the sentinel, so the source only
        behaves when the head then holds exactly one element. */
    method PopFront()
      requires Valid()
      requires size != 0 ==> nodes != [] && blocks[0] != [] && (size == 1 ==> |blocks[0]| == 1)
      modifies this, Repr
      ensures Valid() && Repr == old(Repr)
      ensures old(size) == 0 ==> blocks == old(blocks) && size == 0 && isEmpty == old(isEmpty)
      ensures old(size) != 0 ==>
                blocks == PopFrontBlocks(old(blocks)) && size == old(size) - 1 &&
                isEmpty == (old(isEmpty) || size == 0)
    {
      if size == 0 {
        return;
      }
      size := size - 1;
      if size == 0 {
        isEmpty := true;
      }
      TakeFirst();
    }

    /** Lines 598-605 of `pop_front`: the head's first element goes, and so
        does the head once it is empty. */
    method TakeFirst()
      requires Valid() && nodes != [] && blocks[0] != []
      modifies this, Repr
      ensures Valid() && Repr == old(Repr) && blocks == PopFrontBlocks(old(blocks))
      ensures size == old(size) && isEmpty == old(isEmpty)
    {
      RemoveFromHead();
      CheckNodeEmpty(head, 0);
    }

    /** Insert into a node with room (lines 621-633): `v` goes to slot `j`
        and the elements from there on move one slot right. */
    method InsertInRoom(current: Node<T>, j: nat, v: T, ghost k: nat)
      requires Valid() && k < |nodes| && nodes[k] == current && j < |blocks[k]| < cap
      modifies current`size, current.data, this`blocks
      ensures Valid() && Repr == old(Repr) && nodes == old(nodes)
      ensures blocks == old(blocks[k := blocks[k][..j] + [v] + blocks[k][j..]])
    {
      current.InsertAt(j, v);
      blocks := blocks[k := blocks[k][..j] + [v] + blocks[k][j..]];
      Rewritten(k, blocks[k]);
    }

    /** Insert into a full node whose last element has already been copied
        into a new node (lines 641-650): `v` goes to slot `j`, the elements
        from there on move one slot right and the last one drops out. */
    method InsertInFull(current: Node<T>, j: nat, v: T, ghost k: nat)
      requires Valid() && k < |nodes| && nodes[k] == current && j < |blocks[k]| == cap
      modifies current.data, this`blocks
      ensures Valid() && Repr == old(Repr) && nodes == old(nodes)
      ensures blocks == old(blocks[k := blocks[k][..j] + [v] + blocks[k][j..cap - 1]])
    {
      current.InsertAtFull(j, v);
      blocks := blocks[k := blocks[k][..j] + [v] + blocks[k][j..cap - 1]];
      Rewritten(k, blocks[k]);
    }

    /** The part of `insert` for a cursor at slot `j` of node `k` (lines
        617-654). A full node first gets a new node after it holding its last
        element. Either way the result names the node's last slot. */
    method InsertInNode(pos: Cursor<T>, v: T, ghost k: nat, ghost j: nat) returns (r: Cursor<T>)
      requires Valid() && k < |nodes| && j < |blocks[k]| && pos == Cursor(nodes[k], j)
      modifies this, Repr
      ensures Valid() && fresh(Repr - old(Repr))
      ensures blocks == InsertBlocks(old(blocks), k, j, cap, v)
      ensures k < |nodes| && nodes[k] == old(nodes[k]) && r == Cursor(nodes[k], |blocks[k]| - 1)
      ensures size == old(size) && isEmpty == old(isEmpty)
    {
      var current := pos.node;
      if current.size != cap {
        InsertInRoom(current, pos.index, v, k);
        return Cursor(current, current.size - 1);
      }
      SplitInsert(current, pos.index, v, k);
      r := Cursor(current, current.size - 1);
    }

    /** Lines 639-650 of `insert`: a full node's last element is copied into a
        new node linked after it, and then `v` is shifted in at slot `j`. */
    method SplitInsert(current: Node<T>, j: nat, v: T, ghost k: nat)
      requires Valid() && k < |nodes| && nodes[k] == current && j < |blocks[k]| == cap
      modifies this, Repr
      ensures Valid() && fresh(Repr - old(Repr))
      ensures blocks == InsertBlocks(old(blocks), k, j, cap, v)
      ensures k < |nodes| && nodes[k] == old(nodes[k])
      ensures size == old(size) && isEmpty == old(isEmpty)
    {
      ghost var bs0 := blocks;
      assert current.Holds(bs0[k], cap);
      var moved := current.data[cap - 1];
      assert moved == bs0[k][cap - 1];
      var n := CreateNodeAfter(current, moved, k);
      assert blocks[k] == bs0[k];
      InsertInFull(current, j, v, k);
      SplitAfter(bs0, k, j, cap, v, moved);
    }

    /** `insert(const_iterator pos, v)` (lines 609-655) for `pos` either
        `end()` or the cursor of element `i`; the `iterator` overload (lines
        657-720) does the same on the cursor of an element. The source needs
        a node (its `end()` reads `tail_` after `++size_`). At `end()` it calls `push_back`, which counts the element
        a second time. Otherwise `v` is inserted before element `i`, `pos`
        still names element `i` (now `v`), and the result names the last
        slot of `pos`'s node rather than `v`. */
    method Insert(pos: Cursor<T>, v: T, ghost i: nat) returns (r: Cursor<T>)
      requires Valid() && nodes != []
      requires pos == Cursor(null, 0) || (i < |Contents()| && pos == ElementCursor(i))
      modifies this, Repr
      ensures Valid() && fresh(Repr - old(Repr)) && isEmpty == old(isEmpty)
      ensures pos == Cursor(null, 0) ==> size == old(size) + 2 && Appended(old(blocks), v, r)
      ensures pos != Cursor(null, 0) ==> size == old(size) + 1 && Inserted(old(blocks), i, v, pos, r)
    {
      size := size + 1;
      r := InsertRest(pos, v, i);
    }

    /** The rest of `insert(pos, v)` once `size_` has been incremented
        (lines 611-654): at `end()` it calls `push_back`, which increments
        `size_` again. */
    method InsertRest(pos: Cursor<T>, v: T, ghost i: nat) returns (r: Cursor<T>)
      requires Valid() && nodes != [] && size != 0
      requires pos == Cursor(null, 0) || (i < |Contents()| && pos == ElementCursor(i))
      modifies this, Repr
      ensures Valid() && fresh(Repr - old(Repr)) && isEmpty == old(isEmpty)
      ensures pos == Cursor(null, 0) ==> size == old(size) + 1 && Appended(old(blocks), v, r)
      ensures pos != Cursor(null, 0) ==> size == old(size) && Inserted(old(blocks), i, v, pos, r)
    {
      if pos == End() {
        PushBack(v);
        NodeAt(|nodes| - 1);
        return Cursor(tail, tail.size - 1);
      }
      r := InsertBefore(pos, v, i);
    }

    /** `insert(pos, v)` as evidently intended: `size_` goes up once on
        every path, so a list whose `size_` counts its elements still does.
        At `end()` the element is appended by the three cases of
        `push_back` without its own `++size_`. */
    method InsertCounted(pos: Cursor<T>, v: T, ghost i: nat) returns (r: Cursor<T>)
      requires Valid() && Counted() && nodes != []
      requires pos == Cursor(null, 0) || (i < |Contents()| && pos == ElementCursor(i))
      modifies this, Repr
      ensures Valid() && Counted() && fresh(Repr - old(Repr)) && isEmpty == old(isEmpty)
      ensures pos == Cursor(null, 0) ==> Appended(old(blocks), v, r)
      ensures pos != Cursor(null, 0) ==> Inserted(old(blocks), i, v, pos, r)
    {
      size := size + 1;
      r := InsertUncounted(pos, v, i);
    }

    /** The rest of `insert(pos, v)` once `size_` has been incremented, with
        the `end()` path not counting the element again. */
    method InsertUncounted(pos: Cursor<T>, v: T, ghost i: nat) returns (r: Cursor<T>)
      requires Valid() && nodes != [] && size != 0
      requires pos == Cursor(null, 0) || (i < |Contents()| && pos == ElementCursor(i))
      modifies this, Repr
      ensures Valid() && fresh(Repr - old(Repr)) && size == old(size) && isEmpty == old(isEmpty)
      ensures |Contents()| == old(|Contents()|) + 1
      ensures pos == Cursor(null, 0) ==> Appended(old(blocks), v, r)
      ensures pos != Cursor(null, 0) ==> Inserted(old(blocks), i, v, pos, r)
    {
      if pos == End() {
        r := AppendLast(v);
        return;
      }
      r := InsertBefore(pos, v, i);
    }

    /** The `end()` path of `insert` without its second `++size_`: the
        three cases of `push_back`, and the cursor of the new last element. */
    method AppendLast(v: T) returns (r: Cursor<T>)
      requires Valid() && nodes != []
      modifies this, Repr
      ensures Valid() && fresh(Repr - old(Repr)) && size == old(size) && isEmpty == old(isEmpty)
      ensures Appended(old(blocks), v, r) && |Contents()| == old(|Contents()|) + 1
    {
      AddLast(v);
      PushBackContents(old(blocks), cap, v);
      NodeAt(|nodes| - 1);
      r := Cursor(tail, tail.size - 1);
    }

    /** `v` follows the elements of `bs0`, the blocks are those `push_back`
        leaves, and `r` names the tail's last slot. */
    ghost predicate Appended(bs0: seq<seq<T>>, v: T, r: Cursor<T>)
      reads this
    {
      var done :=
        Contents() == Concat(bs0) + [v] && blocks == PushBackBlocks(bs0, cap, v) &&
        blocks != [] && r.node == tail && r.index + 1 == |blocks[|blocks| - 1]|;
      done
    }

    /** `v` is inserted before element `i` of `bs0`: it is now element `i`,
        which `pos` names, and the blocks are as `InsertedAt` says. */
    ghost predicate Inserted(bs0: seq<seq<T>>, i: nat, v: T, pos: Cursor<T>, r: Cursor<T>)
      reads this
    {
      var done :=
        i < |Concat(bs0)| && |blocks| == |nodes| &&
        Contents() == Concat(bs0)[..i] + [v] + Concat(bs0)[i..] &&
        i < |Contents()| && pos == ElementCursor(i) && InsertedAt(bs0, i, v, r);
      done
    }

    /** The blocks are `blocks0` with `v` inserted at the slot of element `i`,
        and `r` names the last slot of that slot's node. */
    ghost predicate InsertedAt(blocks0: seq<seq<T>>, i: nat, v: T, r: Cursor<T>)
      reads this
    {
      i < |Concat(blocks0)| && |blocks| == |nodes| &&
      var p := Locate(blocks0, i);
      blocks == InsertBlocks(blocks0, p.0, p.1, cap, v) &&
      p.0 < |nodes| && r == Cursor(nodes[p.0], |blocks[p.0]| - 1)
    }

    /** `insert` before element `i` (lines 617-654). */
    method InsertBefore(pos: Cursor<T>, v: T, ghost i: nat) returns (r: Cursor<T>)
      requires Valid() && i < |Contents()| && pos == ElementCursor(i)
      modifies this, Repr
      ensures Valid() && fresh(Repr - old(Repr))
      ensures size == old(size) && isEmpty == old(isEmpty)
      ensures Contents() == old(Contents()[..i]) + [v] + old(Contents()[i..])
      ensures |Contents()| == old(|Contents()|) + 1
      ensures i < |Contents()| && pos == ElementCursor(i)
      ensures InsertedAt(old(blocks), i, v, r) && Inserted(old(blocks), i, v, pos, r)
    {
      ghost var k, j := Locate(blocks, i).0, Locate(blocks, i).1;
      ghost var bs0 := blocks;
      r := InsertInNode(pos, v, k, j);
      InsertedBefore(bs0, i, k, j, v, pos, r);
    }

    /** Once slot `j` of node `k`, which holds element `i` of `bs0`, has had
        `v` shifted in, element `i` is `v` and `pos` still names it. */
    lemma InsertedBefore(bs0: seq<seq<T>>, i: nat, k: nat, j: nat, v: T, pos: Cursor<T>, r: Cursor<T>)
      requires i < |Concat(bs0)| && Locate(bs0, i) == (k, j) && |blocks| == |nodes|
      requires blocks == InsertBlocks(bs0, k, j, cap, v) && k < |nodes|
      requires pos == Cursor(nodes[k], j) && r == Cursor(nodes[k], |blocks[k]| - 1)
      ensures Contents() == Concat(bs0)[..i] + [v] + Concat(bs0)[i..] && |Contents()| == |Concat(bs0)| + 1
      ensures i < |Contents()| && pos == ElementCursor(i) && InsertedAt(bs0, i, v, r)
      ensures Inserted(bs0, i, v, pos, r)
    {
      InsertContents(bs0, k, j, cap, v);
      InsertLocate(bs0, k, j, cap, v);
    }

    /** Moves the elements after slot `j` of node `k` one slot left over it
        (lines 795-801 of `erase`); `j` is not the node's last slot. */
    method RemoveInNode(current: Node<T>, j: nat, ghost k: nat)
      requires Valid() && k < |nodes| && nodes[k] == current && j < |blocks[k]| - 1
      modifies current`size, current.data, this`blocks
      ensures Valid() && Repr == old(Repr) && nodes == old(nodes)
      ensures blocks == old(blocks[k := blocks[k][..j] + blocks[k][j + 1..]])
    {
      current.RemoveAt(j);
      blocks := blocks[k := blocks[k][..j] + blocks[k][j + 1..]];
      Rewritten(k, blocks[k]);
    }

    /** `erase(pos)` for the cursor of element `i`: removes exactly that
        element and decrements `size_`; `ErasedAt` says which cursor comes
        back. */
    method Erase(pos: Cursor<T>, ghost i: nat) returns (r: Cursor<T>)
      requires Valid() && i < |Contents()| && pos == ElementCursor(i) && size >= 1
      modifies this, Repr
      ensures Valid() && Repr == old(Repr) && size == old(size) - 1 && isEmpty == old(isEmpty)
      ensures Contents() == old(Contents()[..i]) + old(Contents()[i + 1..])
      ensures ErasedAt(old(blocks), i, pos, r)
    {
      size := size - 1;
      r := EraseAt(pos, i);
    }

    /** `erase` once `size_` has been decremented (lines 783-802). */
    method EraseAt(pos: Cursor<T>, ghost i: nat) returns (r: Cursor<T>)
      requires Valid() && i < |Contents()| && pos == ElementCursor(i)
      modifies this, Repr
      ensures Valid() && Repr == old(Repr) && size == old(size) && isEmpty == old(isEmpty)
      ensures Contents() == old(Contents()[..i]) + old(Contents()[i + 1..])
      ensures ErasedAt(old(blocks), i, pos, r)
    {
      ghost var k, j := Locate(blocks, i).0, Locate(blocks, i).1;
      ghost var bs0 := blocks;
      if pos.index == pos.node.size - 1 {
        r := EraseLast(pos, i, k, j);
      } else {
        r := EraseInside(pos, i, k, j);
      }
      assert blocks == EraseBlocks(bs0, k, j);
      EraseContents(bs0, k, j);
    }

    /** The blocks are `blocks0` with element `i` erased. When it was not the
        last of its block, `r` is the cursor `pos` that named it; otherwise it
        is slot 0 of the next node, or `end()` when the block was the tail's,
        which stays linked even if left empty. Either way `r` names element
        `i` of the new contents when there is one, and otherwise `end()` or
        slot 0 of an empty tail. */
    ghost predicate ErasedAt(blocks0: seq<seq<T>>, i: nat, pos: Cursor<T>, r: Cursor<T>)
      reads this, tail
    {
      var erased :=
        i < |Concat(blocks0)| && |blocks| == |nodes| && (size != 0 ==> tail != null) &&
        var p := Locate(blocks0, i);
        blocks == EraseBlocks(blocks0, p.0, p.1) &&
        (p.1 < |blocks0[p.0]| - 1 ==> r == pos) &&
        (i < |Contents()| ==> r == ElementCursor(i)) &&
        (i == |Contents()| ==> r == End() || (r == Cursor(tail, 0) && !TailFilled()));
      erased
    }

    /** `pos` is the cursor of element `i`, slot `j` of node `k`. */
    ghost predicate ErasePoint(pos: Cursor<T>, i: nat, k: nat, j: nat)
      reads this
    {
      var at :=
        |blocks| == |nodes| && k < |nodes| && j < |blocks[k]| && pos == Cursor(nodes[k], j) &&
        i < |Contents()| && i == Offset(blocks, k) + j && Locate(blocks, i) == (k, j);
      at
    }

    /** `erase` of a slot other than its node's last (lines 794-802). */
    method EraseInside(pos: Cursor<T>, ghost i: nat, ghost k: nat, ghost j: nat) returns (r: Cursor<T>)
      requires Valid() && ErasePoint(pos, i, k, j) && j < |blocks[k]| - 1
      modifies this, Repr
      ensures Valid() && Repr == old(Repr) && size == old(size) && isEmpty == old(isEmpty)
      ensures ErasedAt(old(blocks), i, pos, r)
    {
      ghost var bs0 := blocks;
      assert Locate(bs0, i) == (k, j);
      RemoveInNode(pos.node, pos.index, k);
      assert blocks == EraseBlocks(bs0, k, j);
      ErasedInside(bs0, i, k, j, pos);
      r := pos;
    }

    /** Once slot `j` of node `k`, not the node's last, is erased, the
        element after it moves into its slot, so `pos` names element `i`. */
    lemma ErasedInside(bs0: seq<seq<T>>, i: nat, k: nat, j: nat, pos: Cursor<T>)
      requires k < |bs0| && j < |bs0[k]| - 1 && i < |Concat(bs0)| && Locate(bs0, i) == (k, j)
      requires i == Offset(bs0, k) + j
      requires forall m | 0 <= m < |bs0| - 1 :: |bs0[m]| > 0
      requires |blocks| == |nodes| && (size != 0 ==> tail != null)
      requires blocks == EraseBlocks(bs0, k, j) && k < |nodes| && pos == Cursor(nodes[k], j)
      ensures ErasedAt(bs0, i, pos, pos)
    {
      ConcatAt(bs0, k, j + 1);
      EraseContents(bs0, k, j);
      assert i < |Contents()|;
      EraseLocate(bs0, k, j);
      assert pos == ElementCursor(i);
    }

    /** `erase` of its node's last slot (lines 787-793). */
    method EraseLast(pos: Cursor<T>, ghost i: nat, ghost k: nat, ghost j: nat) returns (r: Cursor<T>)
      requires Valid() && ErasePoint(pos, i, k, j) && j == |blocks[k]| - 1
      modifies this, Repr
      ensures Valid() && Repr == old(Repr) && size == old(size) && isEmpty == old(isEmpty)
      ensures ErasedAt(old(blocks), i, pos, r)
    {
      if pos.node == tail {
        r := EraseLastOfTail(pos, i, k, j);
      } else {
        r := EraseLastBeforeTail(pos, i, k, j);
      }
    }

    /** The erased slot was the tail's last: the tail stays, possibly empty,
        and the result is `end()` (lines 789-790). */
    method EraseLastOfTail(pos: Cursor<T>, ghost i: nat, ghost k: nat, ghost j: nat) returns (r: Cursor<T>)
      requires Valid() && ErasePoint(pos, i, k, j) && j == |blocks[k]| - 1 && pos.node == tail
      modifies this, Repr
      ensures Valid() && Repr == old(Repr) && size == old(size) && isEmpty == old(isEmpty)
      ensures blocks == EraseBlocks(old(blocks), k, j)
      ensures i == |Contents()| && r == End()
    {
      assert k == |nodes| - 1;
      EraseLastSlot(blocks, k, j);
      DropFromNode(pos.node, k);
      EraseContents(old(blocks), k, j);
      OffsetNext(old(blocks), k);
      OffsetAll(old(blocks));
      r := End();
    }

    /** The erased slot was the last of a node before the tail: the result is
        slot 0 of the next node, and the node is unlinked if left empty
        (lines 791-793). */
    method EraseLastBeforeTail(pos: Cursor<T>, ghost i: nat, ghost k: nat, ghost j: nat) returns (r: Cursor<T>)
      requires Valid() && ErasePoint(pos, i, k, j) && j == |blocks[k]| - 1 && pos.node != tail
      modifies this, Repr
      ensures Valid() && Repr == old(Repr) && size == old(size) && isEmpty == old(isEmpty)
      ensures blocks == EraseBlocks(old(blocks), k, j)
      ensures i < |Contents()| ==> r == ElementCursor(i)
      ensures i == |Contents()| ==> r == Cursor(tail, 0) && !TailFilled()
    {
      ghost var bs0, nodes0 := blocks, nodes;
      assert forall m | 0 <= m < |bs0| - 1 :: |bs0[m]| > 0;
      var next := DropAndUnlink(pos.node, k, j);
      r := Cursor(next, 0);
      NextAfterErase(bs0, nodes0, k, j, i);
    }

    /** Lines 788-793 of `erase`: destroys the last element of node `k`, which
        is not the tail, reads the node that follows it, then unlinks node `k`
        if it was left empty. */
    method DropAndUnlink(current: Node<T>, ghost k: nat, ghost j: nat) returns (next: Node<T>)
      requires Valid() && k < |nodes| - 1 && nodes[k] == current && j == |blocks[k]| - 1
      modifies this, Repr
      ensures Valid() && Repr == old(Repr) && size == old(size) && isEmpty == old(isEmpty)
      ensures blocks == EraseBlocks(old(blocks), k, j) && next == old(nodes[k + 1])
      ensures nodes == if j == 0 then old(nodes[..k] + nodes[k + 1..]) else old(nodes)
    {
      EraseLastSlot(blocks, k, j);
      DropFromNode(current, k);
      assert current.next == nodes[k + 1];
      next := current.next;
      assert blocks[k] == [] <==> j == 0;
      CheckNodeEmpty(current, k);
    }

    /** Where the cursor `erase` returns after emptying the last slot of node
        `k`, slot 0 of the node that followed it, lands in the new chain. */
    lemma NextAfterErase(bs0: seq<seq<T>>, nodes0: seq<Node<T>>, k: nat, j: nat, i: nat)
      requires Valid() && k < |bs0| - 1 && |nodes0| == |bs0| && j == |bs0[k]| - 1
      requires forall m | 0 <= m < |bs0| - 1 :: |bs0[m]| > 0
      requires i == Offset(bs0, k) + j && blocks == EraseBlocks(bs0, k, j)
      requires nodes == if j == 0 then nodes0[..k] + nodes0[k + 1..] else nodes0
      ensures i <= |Contents()|
      ensures i < |Contents()| ==> Cursor(nodes0[k + 1], 0) == ElementCursor(i)
      ensures i == |Contents()| ==> nodes0[k + 1] == tail && !TailFilled()
    {
      EraseContents(bs0, k, j);
      if i < |Contents()| {
        EraseLocate(bs0, k, j);
      } else {
        EraseAtEnd(bs0, k, j);
        EraseLastSlot(bs0, k, j);
      }
    }

    /** `insert(pos, count, v)` (lines 722-728) at the cursor of element
        `i`: `count` single inserts at the same cursor, which each land in
        front of the copies already inserted, so the copies sit together
        before the old element `i`. `pos` still names index `i`, which now
        holds the first copy. `size_` grows by one per copy, and the cursor
        comes back as given. */
    method InsertCount(pos: Cursor<T>, count: nat, v: T, ghost i: nat) returns (r: Cursor<T>)
      requires Valid() && i < |Contents()| && pos == ElementCursor(i)
      modifies this, Repr
      ensures Valid() && fresh(Repr - old(Repr)) && isEmpty == old(isEmpty) && r == pos
      ensures RunInserted(pos, i, old(Contents()), old(size), Repeat(v, count))
    {
      for n := 0 to count
        invariant Valid() && fresh(Repr - old(Repr)) && isEmpty == old(isEmpty)
        invariant RunInserted(pos, i, old(Contents()), old(size), Repeat(v, n))
      {
        InsertOne(pos, v, i, old(Contents()), old(size), Repeat(v, n));
        RepeatStep(v, n);
      }
      r := pos;
    }

    /** `insert(pos, first, last)` (lines 730-740) over the nonempty range `s`
        at the cursor of element `i`: single inserts at the same cursor, from
        the last element of the range down to the first, so the range lands in
        order in front of element `i`. `size_` grows by one per element. */
    method InsertRange(pos: Cursor<T>, s: seq<T>, ghost i: nat) returns (r: Cursor<T>)
      requires Valid() && s != [] && i < |Contents()| && pos == ElementCursor(i)
      modifies this, Repr
      ensures Valid() && fresh(Repr - old(Repr)) && isEmpty == old(isEmpty) && r == pos
      ensures RunInserted(pos, i, old(Contents()), old(size), s)
    {
      var last := |s| - 1;
      assert s[last + 1..] == [];
      while last != 0
        invariant 0 <= last < |s|
        invariant Valid() && fresh(Repr - old(Repr)) && isEmpty == old(isEmpty)
        invariant RunInserted(pos, i, old(Contents()), old(size), s[last + 1..])
      {
        InsertRangeStep(pos, s[last], s, last, i, old(Contents()), old(size));
        last := last - 1;
      }
      InsertRangeStep(pos, s[0], s, 0, i, old(Contents()), old(size));
      assert s[0..] == s;
      r := pos;
    }

    /** `insert(pos, list)` (lines 742-746): the range insert over the list. */
    method InsertList(pos: Cursor<T>, list: seq<T>, ghost i: nat) returns (r: Cursor<T>)
      requires Valid() && list != [] && i < |Contents()| && pos == ElementCursor(i)
      modifies this, Repr
      ensures Valid() && fresh(Repr - old(Repr)) && isEmpty == old(isEmpty) && r == pos
      ensures RunInserted(pos, i, old(Contents()), old(size), list)
    {
      r := InsertRange(pos, list, i);
    }

    /** A run of single inserts at `pos`, the cursor of element `i`, into
        contents `c0` of `size0` elements: the elements `run` sit in front of
        the old element `i`, `pos` names index `i`, which holds the first of
        them, and `size_` counts them. */
    ghost predicate RunInserted(pos: Cursor<T>, i: nat, c0: seq<T>, size0: nat, run: seq<T>)
      reads this
    {
      var inserted :=
        nodes != [] && |blocks| == |nodes| &&
        i <= |c0| && size == size0 + |run| && i < |Contents()| && pos == ElementCursor(i) &&
        Contents() == c0[..i] + run + c0[i..];
      inserted
    }

    /** One single insert of such a run: `v` goes in front of the run. */
    method InsertOne(pos: Cursor<T>, v: T, ghost i: nat, ghost c0: seq<T>, ghost size0: nat, ghost run: seq<T>)
      requires Valid() && RunInserted(pos, i, c0, size0, run)
      modifies this, Repr
      ensures Valid() && fresh(Repr - old(Repr)) && isEmpty == old(isEmpty)
      ensures RunInserted(pos, i, c0, size0, [v] + run)
    {
      var _ := Insert(pos, v, i);
      InsertBeforeRun(c0, i, run, v);
    }

    /** One round of the loop of `insert(pos, first, last)`: element `last`
        of `s` goes in front of the later ones. */
    method InsertRangeStep(pos: Cursor<T>, v: T, ghost s: seq<T>, ghost last: nat, ghost i: nat,
                           ghost c0: seq<T>, ghost size0: nat)
      requires Valid() && last < |s| && v == s[last]
      requires RunInserted(pos, i, c0, size0, s[last + 1..])
      modifies this, Repr
      ensures Valid() && fresh(Repr - old(Repr)) && isEmpty == old(isEmpty)
      ensures RunInserted(pos, i, c0, size0, s[last..])
    {
      InsertOne(pos, v, i, c0, size0, s[last + 1..]);
      assert s[last..] == [v] + s[last + 1..];
    }

    /** The cursor of position `m`: that of element `m`, or past the tail
        (`tail_->next`) for `m` one past the last element. */
    ghost function CursorAt(m: nat): Cursor<T>
      reads this
      requires |blocks| == |nodes| && m <= |Contents()|
    {
      if m < |Contents()| then ElementCursor(m) else Cursor(null, 0)
    }

    /** `++it` (lines 125-133) moves the cursor of element `m` to that of
        element `m + 1`, or, after the last element, past the tail when the
        tail holds an element. */
    lemma IncrementElement(m: nat)
      requires Valid() && m < |Contents()| && (m + 1 < |Contents()| || TailFilled())
      ensures CursorAt(m) == ElementCursor(m) && CursorAt(m).node != null
      ensures Increment(CursorAt(m)) == CursorAt(m + 1)
    {
      var (k, j) := Locate(blocks, m);
      assert nodes[k].size == |blocks[k]|;
      LocateNext(blocks, m);
      if j + 1 == |blocks[k]| && m + 1 == |Contents()| {
        assert nodes[k] == tail;
      }
    }

    /** Different positions have different cursors: a walk by `++` meets
        `CursorAt(m')` exactly at position `m'`. */
    lemma CursorAtInjective(m: nat, m': nat)
      requires Valid() && m <= |Contents()| && m' <= |Contents()|
      ensures CursorAt(m) == CursorAt(m') <==> m == m'
    {
      if m != m' && m < |Contents()| && m' < |Contents()| {
        var k, j := Locate(blocks, m).0, Locate(blocks, m).1;
        var k', j' := Locate(blocks, m').0, Locate(blocks, m').1;
        if k == k' {
          assert j != j';
        } else {
          assert Distinct();
        }
      }
    }

    /** The counting loop of `erase(first, last)` (lines 807-812): the number
        of `++` steps from the cursor of position `i` to that of `i + n`. */
    method CountSteps(first: Cursor<T>, last: Cursor<T>, ghost i: nat, ghost n: nat) returns (count: nat)
      requires Valid() && TailFilled() && i + n <= |Contents()|
      requires first == CursorAt(i) && last == CursorAt(i + n)
      ensures count == n
    {
      WalkSteps(i, i + n);
      count := CountWalk(first, last, i, n);
    }

    /** The loop of `CountSteps`, given that `++` walks from position `i` to
        position `i + n`. */
    method CountWalk(first: Cursor<T>, last: Cursor<T>, ghost i: nat, ghost n: nat) returns (count: nat)
      requires |blocks| == |nodes| && i + n <= |Contents()| && WalkedBy(i, i + n)
      requires first == CursorAt(i) && last == CursorAt(i + n)
      ensures count == n
    {
      count := 0;
      var c := first;
      ghost var p := i;
      while c != last
        invariant Counting(i + n, p, c) && p == i + count
        invariant WalkedBy(i, i + n)
        decreases n - count
      {
        c := Increment(c);
        count, p := count + 1, p + 1;
      }
    }

    /** A walk by `++` towards position `end` is at position `p`, cursor `c`. */
    ghost predicate Counting(end: nat, p: nat, c: Cursor<T>)
      reads this
    {
      var going := |blocks| == |nodes| && p <= end <= |Contents()| && c == CursorAt(p);
      going
    }

    /** From position `from` to `end`, `++` takes each position's cursor to
        the next one's, and only at `end` is the cursor that of `end`. */
    ghost predicate WalkedBy(from: nat, end: nat)
      reads this, Repr
    {
      var walked :=
        |blocks| == |nodes| && end <= |Contents()| &&
        (forall q | from <= q < end ::
           CursorAt(q).node != null && CursorAt(q).node in Repr && Increment(CursorAt(q)) == CursorAt(q + 1)) &&
        (forall q | from <= q <= end :: CursorAt(q) == CursorAt(end) ==> q == end);
      walked
    }

    /** A valid list whose tail holds an element is walked by `++` between
        any two positions. */
    lemma WalkSteps(from: nat, end: nat)
      requires Valid() && TailFilled() && from <= end <= |Contents()|
      ensures WalkedBy(from, end)
    {
      forall q | from <= q < end
        ensures CursorAt(q).node != null && CursorAt(q).node in Repr && Increment(CursorAt(q)) == CursorAt(q + 1)
      {
        IncrementElement(q);
        NodeAt(Locate(blocks, q).0);
      }
      forall q | from <= q <= end
        ensures CursorAt(q) == CursorAt(end) ==> q == end
      {
        CursorAtInjective(q, end);
      }
    }

    /** `erase(first, last)` (lines 805-817) over positions `i` to `i + n`:
        counts the `++` steps from `first` to `last`, then erases that many
        times at the cursor the previous erase returned. The elements
        `i..i + n` go, and the result names the element that followed them,
        or, when none did, is `end()` or slot 0 of an emptied tail. */
    method EraseRange(first: Cursor<T>, last: Cursor<T>, ghost i: nat, ghost n: nat) returns (r: Cursor<T>)
      requires Valid() && Counted() && TailFilled() && i + n <= |Contents()|
      requires first == CursorAt(i) && last == CursorAt(i + n)
      modifies this, Repr
      ensures Valid() && Repr == old(Repr) && isEmpty == old(isEmpty)
      ensures RangeErased(first, i, old(Contents()), n, r)
    {
      var count := CountSteps(first, last, i, n);
      assert Contents()[..i] + Contents()[i..] == Contents();
      r := EraseTimes(first, count, i, Contents());
    }

    /** The erase loop of `erase(first, last)` (lines 813-816): `count`
        erases, each at the cursor the previous one returned, starting from
        `first`, the cursor of position `i` of contents `c0`. */
    method EraseTimes(first: Cursor<T>, count: nat, ghost i: nat, ghost c0: seq<T>) returns (r: Cursor<T>)
      requires Valid() && RangeErased(first, i, c0, 0, first) && i + count <= |c0|
      modifies this, Repr
      ensures Valid() && Repr == old(Repr) && isEmpty == old(isEmpty)
      ensures RangeErased(first, i, c0, count, r)
    {
      r := first;
      for t := 0 to count
        invariant Valid() && Repr == old(Repr) && isEmpty == old(isEmpty)
        invariant RangeErased(first, i, c0, t, r)
      {
        r := EraseNext(first, r, i, c0, t);
      }
    }

    /** `t` erases at the cursor of position `i`, starting from `first`, have
        removed elements `i..i + t` of contents `c0`; `size_` still counts the
        elements, and `r`, the cursor the last erase returned, names element
        `i` when there is one and is otherwise `end()` or slot 0 of an emptied
        tail. */
    ghost predicate RangeErased(first: Cursor<T>, i: nat, c0: seq<T>, t: nat, r: Cursor<T>)
      reads this, tail
    {
      var erased :=
        |blocks| == |nodes| && (size != 0 ==> tail != null) &&
        i + t <= |c0| && Contents() == c0[..i] + c0[i + t..] && size == |Contents()| &&
        (t == 0 ==> r == first) &&
        (i < |Contents()| ==> r == ElementCursor(i)) &&
        (t > 0 && i == |Contents()| ==> r == End() || (r == Cursor(tail, 0) && !TailFilled()));
      erased
    }

    /** One round of the erase loop of `erase(first, last)`. */
    method EraseNext(first: Cursor<T>, pos: Cursor<T>, ghost i: nat, ghost c0: seq<T>, ghost t: nat)
      returns (r: Cursor<T>)
      requires Valid() && RangeErased(first, i, c0, t, pos) && i + t < |c0|
      modifies this, Repr
      ensures Valid() && Repr == old(Repr) && isEmpty == old(isEmpty)
      ensures RangeErased(first, i, c0, t + 1, r)
    {
      EraseAfterGap(c0, i, t);
      r := Erase(pos, i);
    }

    /** `begin()` names element 0 when the list has one and `size_` is not 0. */
    lemma BeginElement()
      requires Valid() && size != 0 && Contents() != []
      ensures Begin() == ElementCursor(0)
    {
      assert blocks != [] && Offset(blocks, 0) == 0;
      FilledBefore(blocks, 0);
      LocateUnique(blocks, 0, 0);
    }

    /** `*it = v` through the cursor of element `m`: that element becomes `v`
        and nothing else changes, so every cursor keeps naming its element. */
    method WriteAt(c: Cursor<T>, v: T, ghost m: nat)
      requires Valid() && m < |Contents()| && c == ElementCursor(m)
      modifies c.node.data, this`blocks
      ensures Valid() && nodes == old(nodes) && Repr == old(Repr) && SameShape(old(blocks), blocks)
      ensures Contents() == old(Contents())[m := v]
    {
      ghost var k, j := Locate(blocks, m).0, Locate(blocks, m).1;
      c.node.Write(c.index, v);
      blocks := blocks[k := blocks[k][j := v]];
      Rewritten(k, blocks[k]);
      WriteContents(old(blocks), k, j, v);
    }

    /** `assign(first, last)` (lines 832-839) over `s`: writes the range
        through `begin()`, `++` after each element, over the first `|s|`
        elements; the chain keeps its shape. The range may not be longer than
        the list. */
    method AssignSeq(s: seq<T>)
      requires Valid() && |s| <= |Contents()| && (s != [] ==> size != 0)
      modifies this, Repr
      ensures Valid() && Overwritten()
      ensures Contents() == s + old(Contents())[|s|..]
    {
      assert s[..|s|] == s;
      var it := Begin();
      if s != [] {
        BeginElement();
      }
      for n := 0 to |s|
        invariant Valid() && Overwritten() && Assigning(s, old(Contents()), n, it)
      {
        it := AssignStep(it, s[n], s, old(Contents()), n, old(blocks));
      }
    }

    /** `assign(count, v)` (lines 841-847): writes `v` through `begin()`,
        `++` after each copy, over the first `count` elements, of which there
        must be that many. */
    method AssignCount(count: nat, v: T)
      requires Valid() && count <= |Contents()| && (count != 0 ==> size != 0)
      modifies this, Repr
      ensures Valid() && Overwritten()
      ensures Contents() == Repeat(v, count) + old(Contents())[count..]
    {
      ghost var copies := Repeat(v, count);
      assert copies[..count] == copies;
      var it := Begin();
      if count != 0 {
        BeginElement();
      }
      for n := 0 to count
        invariant Valid() && Overwritten() && Assigning(copies, old(Contents()), n, it)
      {
        it := AssignStep(it, v, copies, old(Contents()), n, old(blocks));
      }
    }

    /** `assign(list)` (lines 849-851): the range assign over the list. */
    method AssignList(list: seq<T>)
      requires Valid() && |list| <= |Contents()| && (list != [] ==> size != 0)
      modifies this, Repr
      ensures Valid() && Overwritten()
      ensures Contents() == list + old(Contents())[|list|..]
    {
      AssignSeq(list);
    }

    /** Only elements have been overwritten: the chain, its footprint, the
        length of every block, `size_` and `is_empty_` are as they were. */
    twostate predicate Overwritten()
      reads this
    {
      var kept :=
        nodes == old(nodes) && Repr == old(Repr) && SameShape(old(blocks), blocks) &&
        size == old(size) && isEmpty == old(isEmpty);
      kept
    }

    /** The assign loops have written the first `n` elements of `s` over
        those of `c0`, and `it` names element `n` while `s` goes on. */
    ghost predicate Assigning(s: seq<T>, c0: seq<T>, n: nat, it: Cursor<T>)
      reads this
    {
      var going :=
        n <= |s| <= |c0| && |blocks| == |nodes| && Contents() == s[..n] + c0[n..] &&
        (n < |s| ==> n < |Contents()| && it == ElementCursor(n));
      going
    }

    /** One round of the assign loops: `*it = v; ++it` at element `n`. */
    method AssignStep(it: Cursor<T>, v: T, ghost s: seq<T>, ghost c0: seq<T>, ghost n: nat,
                      ghost blocks0: seq<seq<T>>) returns (next: Cursor<T>)
      requires Valid() && SameShape(blocks0, blocks) && n < |s| && v == s[n] && Assigning(s, c0, n, it)
      modifies it.node.data, this`blocks
      ensures Valid() && nodes == old(nodes) && Repr == old(Repr) && SameShape(blocks0, blocks)
      ensures Assigning(s, c0, n + 1, next)
    {
      WriteAt(it, v, n);
      WritePrefix(s, c0, n);
      LocateSameShape(old(blocks), blocks, n);
      next := Increment(it);
      if n + 1 < |s| {
        IncrementElement(n);
      }
    }

    /** `*it` at the cursor of element `m` reads that element. */
    lemma DerefElement(m: nat)
      requires Valid() && m < |Contents()|
      ensures ElementCursor(m).node != null && ElementCursor(m).index < ElementCursor(m).node.data.Length
      ensures Deref(ElementCursor(m)) == Contents()[m]
    {
      LocateAt(blocks, m);
      var (k, j) := Locate(blocks, m);
      assert nodes[k].Holds(blocks[k], cap);
    }

    /** `front()` (lines 933-935): `*begin()`, the first element. */
    function Front(): (r: T)
      requires Valid() && size != 0 && Contents() != []
      reads this, Repr, nodes, Storage()
      ensures r == Contents()[0]
    {
      BeginElement();
      DerefElement(0);
      Deref(Begin())
    }

    /** `back()` (lines 940-942): the last live slot of the tail, which is
        the last element while the tail holds one. */
    function Back(): (r: T)
      requires Valid() && TailFilled()
      reads this, Repr, nodes, Storage()
      ensures r == Contents()[|Contents()| - 1]
    {
      var k := |nodes| - 1;
      assert nodes[k].Holds(blocks[k], cap);
      OffsetNext(blocks, k);
      OffsetAll(blocks);
      ConcatAt(blocks, k, |blocks[k]| - 1);
      tail.data[tail.size - 1]
    }

    /** `size()` (lines 948-950): the `size_` counter, which the operations
        keep by hand. */
    function Size(): nat
      reads this
    {
      size
    }

    /** `empty()` (lines 982-984): the `is_empty_` flag, which the operations
        keep by hand, apart from `size_`. */
    function Empty(): bool
      reads this
    {
      isEmpty
    }

    /** `clear()` (lines 819-829): walks the chain from `head_` releasing
        every node, then resets `head_`, `tail_`, `size_` and sets
        `is_empty_`. */
    method Clear()
      requires Valid()
      modifies this
      ensures Valid() && Counted() && nodes == [] && Contents() == []
      ensures size == 0 && isEmpty && head == null && tail == null
    {
      var current := head;
      ghost var released := 0;
      while current != null
        invariant released <= |nodes|
        invariant current == if released < |nodes| then nodes[released] else null
        decreases |nodes| - released
      {
        current := current.next;
        released := released + 1;
      }
      isEmpty, size := true, 0;
      head, tail := null, null;
      nodes, blocks, Repr := [], [], {};
    }

    /** This list now holds the chain `other` held, valid there, of the same
        capacity, and no node or storage of that chain has changed. */
    twostate lemma Adopted(other: UnrolledList<T>)
      requires old(other.Valid()) && cap == other.cap && sentinel.data.Length == 0
      requires head == old(other.head) && tail == old(other.tail)
      requires nodes == old(other.nodes) && blocks == old(other.blocks) && Repr == old(other.Repr)
      requires unchanged(nodes) && unchanged(Storage())
      ensures Valid() && Contents() == old(other.Contents())
    {
      assert Distinct();
      assert Stored() by {
        forall k | 0 <= k < |nodes|
          ensures nodes[k].Holds(blocks[k], cap)
        {
          assert old(other.nodes[k].Holds(other.blocks[k], other.cap));
        }
      }
      assert Linked();
      assert forall m | 0 <= m < |nodes| - 1 :: |blocks[m]| > 0;
    }

    /** `swap` (lines 975-980): exchanges `tail_`, `head_` and `size_` with
        `other`, and with them the chains. `is_empty_` stays with each list,
        so it no longer need describe the chain the list now holds. */
    method Swap(other: UnrolledList<T>)
      requires Valid() && other.Valid() && other.cap == cap
      modifies this, other
      ensures Valid() && other.Valid()
      ensures blocks == old(other.blocks) && other.blocks == old(blocks)
      ensures size == old(other.size) && other.size == old(size)
      ensures isEmpty == old(isEmpty) && other.isEmpty == old(other.isEmpty)
    {
      if other == this {
        return;
      }
      Exchange(other);
      Adopted(other);
      other.Adopted(this);
    }

    /** The assignments of `swap`, field by field. */
    method Exchange(other: UnrolledList<T>)
      requires other != this
      modifies this, other
      ensures head == old(other.head) && other.head == old(head)
      ensures tail == old(other.tail) && other.tail == old(tail)
      ensures size == old(other.size) && other.size == old(size)
      ensures nodes == old(other.nodes) && other.nodes == old(nodes)
      ensures blocks == old(other.blocks) && other.blocks == old(blocks)
      ensures Repr == old(other.Repr) && other.Repr == old(Repr)
      ensures isEmpty == old(isEmpty) && other.isEmpty == old(other.isEmpty)
    {
      tail, other.tail := other.tail, tail;
      head, other.head := other.head, head;
      size, other.size := other.size, size;
      nodes, other.nodes := other.nodes, nodes;
      blocks, other.blocks := other.blocks, blocks;
      Repr, other.Repr := other.Repr, Repr;
    }

    /** Where `begin() + p` lands by the node walk of `operator+`: the cursor
        of element `p`, and after the last element the null cursor past the
        tail, or slot 0 of the tail when `erase` has left it empty. */
    ghost function Position(p: nat): Cursor<T>
      reads this
      requires |blocks| == |nodes| && p <= |Contents()|
    {
      if p < |Contents()| then ElementCursor(p)
      else if TailFilled() || nodes == [] then Cursor(null, 0)
      else Cursor(nodes[|nodes| - 1], 0)
    }

    /** Within its node, the slot `d` past the cursor `r` of element `p` is
        the cursor of element `p + d`. */
    lemma AdvanceWithin(p: nat, r: Cursor<T>, d: nat)
      requires Chained() && p < |Contents()| && r == Position(p)
      requires r.node != null && d < r.node.size - r.index
      ensures p + d < |Contents()| && Cursor(r.node, r.index + d) == Position(p + d)
    {
      var k, j := Locate(blocks, p).0, Locate(blocks, p).1;
      NodeAt(k);
      LocateShift(blocks, p, k, j, d);
    }

    /** Slot 0 of the node after the cursor `r` of element `p` is the
        position that follows the slots of `r`'s node from `r` on. */
    lemma AdvanceNode(p: nat, r: Cursor<T>)
      requires Chained() && p < |Contents()| && r == Position(p)
      ensures r.node != null && r.index < r.node.size
      ensures p + (r.node.size - r.index) <= |Contents()|
      ensures Cursor(r.node.next, 0) == Position(p + (r.node.size - r.index))
    {
      var k, j := Locate(blocks, p).0, Locate(blocks, p).1;
      assert r == Cursor(nodes[k], j);
      NodeAt(k);
      LocateNextBlock(blocks, p, k, j);
      var q := p + (r.node.size - r.index);
      if q < |Contents()| {
        NextNodeStart(p, k, j, q);
      } else {
        NextNodeEnd(p, k, j, q);
      }
    }

    /** When elements follow the block of element `p` (block `k`, slot `j`),
        the next node's slot 0 holds the first of them, element `q`. */
    lemma NextNodeStart(p: nat, k: nat, j: nat, q: nat)
      requires Chained() && p < |Contents()| && Locate(blocks, p) == (k, j)
      requires k < |blocks| && q == p + (|blocks[k]| - j) < |Contents()|
      requires k + 1 < |blocks| && Locate(blocks, q) == (k + 1, 0)
      ensures Position(q) == Cursor(nodes[k].next, 0)
    {
      NodeAt(k);
    }

    /** When no element follows the block of element `p`, the next node is
        the end's position `q`: none when the tail holds an element, else the
        empty tail. */
    lemma NextNodeEnd(p: nat, k: nat, j: nat, q: nat)
      requires Chained() && p < |Contents()| && Locate(blocks, p) == (k, j)
      requires k < |blocks| && j < |blocks[k]| && q == p + (|blocks[k]| - j) == |Contents()|
      requires k + 1 == |blocks| || (k + 2 == |blocks| && blocks[k + 1] == [])
      ensures Position(q) == Cursor(nodes[k].next, 0)
    {
      NodeAt(k);
    }

    /** The part of `Valid()` a walk along the chain relies on: each node
        holds its block, the links follow `nodes`, and only the tail may be
        empty. */
    ghost predicate Chained()
      reads this, Repr, nodes, Storage()
    {
      var chained :=
        |blocks| == |nodes| && Stored() && Linked() && forall n | 0 <= n < |nodes| - 1 :: |blocks[n]| > 0;
      chained
    }

    /** Node `k` of a well-formed chain: its size is the length of its block,
        and its links name its neighbours in `nodes`. */
    lemma NodeAt(k: nat)
      requires |blocks| == |nodes| && Stored() && Linked() && k < |nodes|
      ensures nodes[k].size == |blocks[k]|
      ensures nodes[k].prev == if k == 0 then null else nodes[k - 1]
      ensures nodes[k].next == if k + 1 == |nodes| then null else nodes[k + 1]
    {
      assert nodes[k].Holds(blocks[k], cap);
    }

    /** Within its node, the slot `d` back from the cursor `r` of element `p`
        is the cursor of element `p - d`. */
    lemma RetreatWithin(p: nat, r: Cursor<T>, d: nat)
      requires Chained() && p < |Contents()| && r == ElementCursor(p) && d <= r.index
      ensures d <= p && Cursor(r.node, r.index - d) == ElementCursor(p - d)
    {
      var k, j := Locate(blocks, p).0, Locate(blocks, p).1;
      LocateShiftBack(blocks, p, k, j, d);
    }

    /** The node of the cursor `r` of element `p` has no predecessor exactly
        when it is the head, where `r` is slot `p`. */
    lemma RetreatHead(p: nat, r: Cursor<T>)
      requires Chained() && p < |Contents()| && r == ElementCursor(p)
      ensures blocks != [] && r.node != null && r.index <= p
      ensures r.node.prev == null <==> p < |blocks[0]|
      ensures r.node.prev == null ==> r.index == p && r.node.size == |blocks[0]|
    {
      var k, j := Locate(blocks, p).0, Locate(blocks, p).1;
      assert r == Cursor(nodes[k], j);
      LocatePrevBlock(blocks, p, k, j);
      NodeAt(k);
    }

    /** When the node of the cursor `r` of element `p` has a predecessor,
        the last slot of that node is the cursor of the element before
        `r`'s node. */
    lemma RetreatNode(p: nat, r: Cursor<T>)
      requires Chained() && p < |Contents()| && r == ElementCursor(p)
      requires r.node != null && r.node.prev != null
      ensures r.node.prev.size >= 1 && r.index + 1 <= p
      ensures Cursor(r.node.prev, r.node.prev.size - 1) == ElementCursor(p - (r.index + 1))
    {
      var k, j := Locate(blocks, p).0, Locate(blocks, p).1;
      assert r == Cursor(nodes[k], j);
      LocatePrevBlock(blocks, p, k, j);
      NodeAt(k);
      PrevNodeLast(k, p - (r.index + 1));
    }

    /** The last slot of the node before node `k` > 0 holds element `q`,
        the last element of the previous block. */
    lemma PrevNodeLast(k: nat, q: nat)
      requires Chained() && 0 < k < |blocks| && q < |Contents()|
      requires Locate(blocks, q) == (k - 1, |blocks[k - 1]| - 1)
      ensures nodes[k].prev != null && nodes[k].prev.size >= 1
      ensures Cursor(nodes[k].prev, nodes[k].prev.size - 1) == ElementCursor(q)
    {
      NodeAt(k);
      NodeAt(k - 1);
    }

    /** `--it` as evidently intended, the last live slot of the previous
        node, takes the cursor of element `p > 0` to that of element
        `p - 1`: it undoes `++`. */
    lemma DecrementToLastElement(p: nat)
      requires Chained() && 0 < p < |Contents()|
      ensures ElementCursor(p).node != null
      ensures ElementCursor(p).index == 0 ==>
                ElementCursor(p).node.prev != null && ElementCursor(p).node.prev.size >= 1
      ensures DecrementToLast(ElementCursor(p)) == ElementCursor(p - 1)
    {
      var r := ElementCursor(p);
      RetreatHead(p, r);
      if r.index > 0 {
        RetreatWithin(p, r, 1);
      } else {
        RetreatNode(p, r);
      }
    }

    /** `--it` as written (lines 179-187) reaches element `p - 1` from that
        of element `p > 0` exactly when it stays in its node or the previous
        node is full. From slot 0 of a node after one holding fewer than
        `cap` elements it names slot `cap - 1`, past that node's live slots. */
    lemma DecrementAsWritten(p: nat)
      requires Chained() && 0 < p < |Contents()|
      ensures ElementCursor(p).node != null
      ensures ElementCursor(p).index == 0 ==> ElementCursor(p).node.prev != null
      ensures Decrement(ElementCursor(p), cap) == ElementCursor(p - 1) <==>
                ElementCursor(p).index > 0 || ElementCursor(p).node.prev.size == cap
      ensures ElementCursor(p).index == 0 && ElementCursor(p).node.prev.size < cap ==>
                Decrement(ElementCursor(p), cap).index >= Decrement(ElementCursor(p), cap).node.size
    {
      var r := ElementCursor(p);
      DecrementToLastElement(p);
      if r.index == 0 {
        var k := Locate(blocks, p).0;
        RetreatHead(p, r);
        NodeAt(k);
        NodeAt(k - 1);
        assert nodes[k - 1].Holds(blocks[k - 1], cap);
      }
    }

    /** One round of the loop of `operator+` from the cursor `r` of
        element `p` with `left > 0` steps to go: within the node it moves
        `left` slots and nothing is left; otherwise it passes the node's
        remaining slots to slot 0 of the next node. */
    method AdvanceStep(ghost target: nat, ghost p: nat, r: Cursor<T>, left: nat)
      returns (r': Cursor<T>, ghost p': nat, left': nat)
      requires Chained() && 0 < left && Advancing(target, p, left, r)
      ensures left' < left && Advancing(target, p', left', r')
    {
      AdvanceNode(p, r);
      var remaining := r.node.size - r.index;
      if left < remaining {
        AdvanceWithin(p, r, left);
        return Cursor(r.node, r.index + left), p + left, 0;
      }
      return Cursor(r.node.next, 0), p + remaining, left - remaining;
    }

    /** `it + count` (lines 135-150) from the cursor of element `m`: while
        `count` reaches past the node, it passes the node's remaining slots
        and moves to slot 0 of the next; then it moves within the node. The
        result is the cursor of element `m + count`; at the end, it is
        `end()` while the tail holds an element. */
    method Plus(it: Cursor<T>, count: nat, ghost m: nat) returns (r: Cursor<T>)
      requires Chained() && m < |Contents()| && it == ElementCursor(m) && m + count <= |Contents()|
      ensures r == Position(m + count)
      ensures m + count == |Contents()| && TailFilled() && size != 0 ==> r == End()
    {
      r := it;
      var left: nat := count;
      ghost var p: nat := m;
      while left > 0
        invariant Advancing(m + count, p, left, r)
      {
        r, p, left := AdvanceStep(m + count, p, r, left);
      }
      PositionEnd(m + count, p, r);
    }

    /** The loop of `it + count` is on its way to position `target`: `r` is
        the position of `p`, and `left` steps remain. */
    ghost predicate Advancing(target: nat, p: nat, left: nat, r: Cursor<T>)
      reads this
    {
      var going := |blocks| == |nodes| && p + left == target <= |Contents()| && r == Position(p);
      going
    }

    /** The loop of `it + count` stops at its target; past the last element
        of a chain whose tail holds one, that position is `end()`. */
    lemma PositionEnd(target: nat, p: nat, r: Cursor<T>)
      requires Chained() && Advancing(target, p, 0, r)
      ensures r == Position(target)
      ensures target == |Contents()| && TailFilled() && size != 0 ==> r == End()
    {
      if p == |Contents()| && TailFilled() && size != 0 {
        assert tail == nodes[|nodes| - 1];
      }
    }

    /** `it - count` (lines 152-171) from the cursor of element `m`: while
        `count` reaches past the slots before the cursor in its node, it
        steps to the last slot of the previous node; at the head it stops
        where it is. The result is the cursor of element `m - count`, or,
        when `count` exceeds `m`, of the head's last element, or of element
        `m` itself when that is in the head. */
    method Minus(it: Cursor<T>, count: nat, ghost m: nat) returns (r: Cursor<T>)
      requires Chained() && m < |Contents()| && it == ElementCursor(m)
      ensures count <= m ==> r == ElementCursor(m - count)
      ensures count > m ==> r == ElementCursor(if m < |blocks[0]| then m else |blocks[0]| - 1)
    {
      r := it;
      var left: nat := count;
      ghost var p: nat := m;
      while left > 0
        invariant Retreating(m, count, p, left, r)
      {
        var stop;
        r, p, left, stop := RetreatStep(m, count, p, left, r);
        if stop {
          return;
        }
      }
    }

    /** The loop of `it - count` from element `m` has `left` still to go: `r`
        is the cursor of element `p`, which is `m` or the last of its node. */
    ghost predicate Retreating(m: nat, count: nat, p: nat, left: nat, r: Cursor<T>)
      reads this, r.node
    {
      var going :=
        |blocks| == |nodes| && p < |Contents()| && p + count == m + left && r == ElementCursor(p) &&
        (p == m || (r.index + 1 == r.node.size && p < m));
      going
    }

    /** One pass of the loop of `it - count` (lines 156-166): it stops inside
        the node when `left` fits in the slots before `r`, stops at the head,
        or steps to the last slot of the previous node. */
    method RetreatStep(ghost m: nat, count: nat, ghost p: nat, left: nat, r: Cursor<T>)
      returns (r': Cursor<T>, ghost p': nat, left': nat, stop: bool)
      requires Chained() && m < |Contents()| && left > 0 && Retreating(m, count, p, left, r)
      ensures stop ==> count <= m ==> r' == ElementCursor(m - count)
      ensures stop ==> count > m ==> r' == ElementCursor(if m < |blocks[0]| then m else |blocks[0]| - 1)
      ensures !stop ==> left' < left && Retreating(m, count, p', left', r')
    {
      RetreatHead(p, r);
      if r.index >= left {
        RetreatWithin(p, r, left);
        return Cursor(r.node, r.index - left), p - left, 0, true;
      }
      if r.node.prev == null {
        return r, p, left, true;
      }
      RetreatNode(p, r);
      p' := p - (r.index + 1);
      left' := left - (r.index + 1);
      r' := Cursor(r.node.prev, r.node.prev.size - 1);
      stop := false;
    }

    /** The list is valid, `size_` counts its elements and the tail holds one
        unless the list has none: a walk from `begin()` by `++` then meets
        every element and stops at `end()`. */
    ghost predicate Walkable()
      reads this, Repr, nodes, Storage()
    {
      var walkable := Valid() && Counted() && (size != 0 ==> TailFilled());
      walkable
    }

    /** `it` is `begin() + m` on a walk to `end()`: the cursor of element
        `m`, or `end()` once every element has been passed. */
    ghost predicate Walking(m: nat, it: Cursor<T>)
      reads this, tail
    {
      var walking :=
        |blocks| == |nodes| && (size != 0 ==> tail != null) && m <= |Contents()| &&
        (m < |Contents()| ==> it == ElementCursor(m)) &&
        (m == |Contents()| ==> it == End());
      walking
    }

    /** A walk starts at `begin()`. */
    lemma WalkStart()
      requires Walkable()
      ensures Walking(0, Begin())
    {
      if size != 0 {
        BeginElement();
      }
    }

    /** One step of a walk: a cursor that is not yet `end()` reads element
        `m`, and `++` takes it to the next position of the walk. */
    lemma WalkStep(m: nat, it: Cursor<T>)
      requires Walkable() && Walking(m, it) && m < |Contents()|
      ensures it.node != null && it.node in nodes && it.node.data in Storage()
      ensures it.index < it.node.data.Length
      ensures Deref(it) == Contents()[m] && Walking(m + 1, Increment(it))
    {
      DerefElement(m);
      IncrementElement(m);
    }

    /** A walk reaches `end()` exactly when it has passed every element. */
    lemma WalkEnd(m: nat, it: Cursor<T>)
      requires Walkable() && Walking(m, it)
      ensures it == End() <==> m == |Contents()|
    {
      if m < |Contents()| {
        LocateAt(blocks, m);
      }
    }
  }

  /** The copy constructor (lines 203-214): a new list that starts empty and
      `push_back`s the elements of `other`, walking it from `begin()` to
      `end()`. It holds the same elements, packed, and counts them. */
  method CopyOf<T(0)>(other: UnrolledList<T>) returns (l: UnrolledList<T>)
    requires other.Walkable()
    ensures l.Valid() && l.Counted() && fresh(l) && fresh(l.Repr) && l.cap == other.cap
    ensures l.Contents() == other.Contents() && Packed(l.blocks, l.cap)
    ensures l.isEmpty == (other.Contents() == [])
  {
    l := new UnrolledList(other.cap);
    l.CopyFrom(other);
  }

  /** `push_front` onto a new list (lines 526-539) never clears `is_empty_`:
      the list then holds `v` and `size()` is 1, yet `empty()` reports true. */
  method FrontPushedStillEmpty<T(0)>(cap: nat, v: T) returns (l: UnrolledList<T>)
    requires cap >= 1
    ensures l.Valid() && l.Counted() && l.Contents() == [v]
    ensures l.Size() == 1 && l.Empty()
  {
    l := new UnrolledList(cap);
    l.PushFront(v);
  }

  /** `push_back` onto a new list (lines 499-508) clears `is_empty_`: the
      list holds `v`, `size()` is 1 and `empty()` reports false. */
  method BackPushedNotEmpty<T(0)>(cap: nat, v: T) returns (l: UnrolledList<T>)
    requires cap >= 1
    ensures l.Valid() && l.Counted() && l.Contents() == [v]
    ensures l.Size() == 1 && !l.Empty()
  {
    l := new UnrolledList(cap);
    l.PushBack(v);
  }

  /** `operator==` (lines 964-969): equal `size_`, then `std::equal` over
      `[begin(), end())` of `a` against `b` from its `begin()`. With `size_`
      in step with both chains, it holds exactly when the contents agree. */
  method Equal<T(0,==)>(a: UnrolledList<T>, b: UnrolledList<T>) returns (r: bool)
    requires a.Walkable() && b.Walkable()
    ensures r <==> a.Contents() == b.Contents()
  {
    if a.size != b.size {
      return false;
    }
    var it, other := a.Begin(), b.Begin();
    a.WalkStart();
    b.WalkStart();
    ghost var m := 0;
    while it != a.End()
      invariant m <= |a.Contents()| && Compared(a, b, m, it, other)
      decreases |a.Contents()| - m
    {
      var step := CompareStep(a, b, m, it, other);
      if !step.0 {
        return false;
      }
      it, other := step.1, step.2;
      m := m + 1;
    }
    ComparedAll(a, b, m, it, other);
    return true;
  }

  /** `std::equal` has reached position `m` of both walks, and the elements
      before it agree. */
  ghost predicate Compared<T(0)>(a: UnrolledList<T>, b: UnrolledList<T>, m: nat, it: Cursor<T>, other: Cursor<T>)
    reads a, a.tail, b, b.tail
  {
    var compared :=
      a.Walking(m, it) && b.Walking(m, other) && |a.Contents()| == |b.Contents()| &&
      a.Contents()[..m] == b.Contents()[..m];
    compared
  }

  /** When the walk of `a` is at `end()`, the contents agree throughout. */
  lemma ComparedAll<T(0)>(a: UnrolledList<T>, b: UnrolledList<T>, m: nat, it: Cursor<T>, other: Cursor<T>)
    requires a.Walkable() && Compared(a, b, m, it, other) && it == a.End()
    ensures a.Contents() == b.Contents()
  {
    a.WalkEnd(m, it);
    WholePrefix(a.Contents(), b.Contents(), m);
  }

  /** One round of `std::equal` in `operator==`: whether element `m` of
      `a` and `b` agree, and both cursors stepped on by `++`. */
  function CompareStep<T(0,==)>(a: UnrolledList<T>, b: UnrolledList<T>, ghost m: nat, it: Cursor<T>, other: Cursor<T>)
    : (r: (bool, Cursor<T>, Cursor<T>))
    requires a.Walkable() && b.Walkable()
    requires Compared(a, b, m, it, other) && it != a.End()
    reads a, a.tail, a.Repr, a.nodes, a.Storage(), b, b.tail, b.Repr, b.nodes, b.Storage()
    ensures m < |a.Contents()| == |b.Contents()|
    ensures r.0 <==> a.Contents()[m] == b.Contents()[m]
    ensures r.0 ==> Compared(a, b, m + 1, r.1, r.2)
  {
    a.WalkEnd(m, it);
    a.WalkStep(m, it);
    b.WalkStep(m, other);
    var same := Deref(it) == Deref(other);
    if same then
      SliceStep(a.Contents(), b.Contents(), m);
      (same, Increment(it), Increment(other))
    else
      (same, Increment(it), Increment(other))
  }
}
