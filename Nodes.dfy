/**
  The blocks of an unrolled list and the cursors that walk them
  (`Node` and `ul_iterator` in lib/unrolled_list.h).
*/
module Nodes {

  /** One block of the chain: storage for `cap` elements of which the first
      `size` are live, and the links to the neighbouring blocks. The storage
      is allocated once with the node and never replaced, hence `const`. */
  class Node<T> {
    var size: nat
    const data: array<T>
    var next: Node?<T>
    var prev: Node?<T>

    constructor (size: nat, data: array<T>, next: Node?<T>, prev: Node?<T>)
      ensures this.size == size && this.data == data
      ensures this.next == next && this.prev == prev
    {
      this.size := size;
      this.data := data;
      this.next := next;
      this.prev := prev;
    }

    /** The node has capacity `cap` and its live elements are `b`. */
    ghost predicate Holds(b: seq<T>, cap: nat)
      reads this`size, data
    {
      data.Length == cap && size <= cap && data[..size] == b
    }

    /** `construct_t(data + node_size, v); ++node_size`: `v` goes into the
        first free slot. */
    method Append(v: T)
      requires size < data.Length
      modifies this`size, data
      ensures size == old(size) + 1 && data[..size] == old(data[..size]) + [v]
    {
      data[size] := v;
      size := size + 1;
    }

    /** `push_front` into a node with room: every live element moves one slot
        right, walking down from `node_size`, and `v` lands in slot 0. */
    method Prepend(v: T)
      requires size < data.Length
      modifies this`size, data
      ensures size == old(size) + 1 && data[..size] == [v] + old(data[..size])
    {
      ShiftRight(data, 0, size);
      data[0] := v;
      size := size + 1;
      assert data[..size] == [v] + data[1..size];
    }

    /** `insert` into a node with room: the last element is copied into the
        free slot, the elements from slot `i` on move one slot right, walking
        down, and `v` lands in slot `i`. */
    method InsertAt(i: nat, v: T)
      requires i < size < data.Length
      modifies this`size, data
      ensures size == old(size) + 1
      ensures data[..size] == old(data[..i]) + [v] + old(data[i..size])
    {
      ShiftRight(data, i, size);
      data[i] := v;
      size := size + 1;
      assert data[..size] == data[..i] + [v] + data[i + 1..size];
    }

    /** `insert` into a full node, once its last element has been copied into
        a new node: the elements from slot `i` on move one slot right, the last
        one dropping out, and `v` lands in slot `i`; the node stays full. */
    method InsertAtFull(i: nat, v: T)
      requires i < size == data.Length
      modifies data
      ensures data[..size] == old(data[..i]) + [v] + old(data[i..size - 1])
    {
      ShiftRight(data, i, size - 1);
      data[i] := v;
      assert data[..size] == data[..i] + [v] + data[i + 1..size];
    }

    /** `erase` and `pop_front`: the elements after slot `i` move one slot
        left, walking up (`*it = *(it + 1)`), and the last live slot is
        destroyed. */
    method RemoveAt(i: nat)
      requires i < size <= data.Length
      modifies this`size, data
      ensures size == old(size) - 1
      ensures data[..size] == old(data[..i]) + old(data[i + 1..size])
    {
      ShiftLeft(data, i, size - 1);
      size := size - 1;
      assert data[..size] == data[..i] + data[i..size];
    }

    /** `*it = value` through a cursor on slot `i`: that live element is
        overwritten and the count stays. */
    method Write(i: nat, v: T)
      requires i < size <= data.Length
      modifies data
      ensures data[..size] == old(data[..size])[i := v]
    {
      data[i] := v;
    }

    /** `pop_back`: the last live slot is destroyed. */
    method DropLast()
      requires 0 < size <= data.Length
      modifies this`size
      ensures size == old(size) - 1 && data[..size] == old(data[..size - 1])
    {
      size := size - 1;
    }
  }

  /** A position in the chain: a node and a slot in it. Two cursors are equal
      when they name the same node object and the same slot. */
  datatype Cursor<T> = Cursor(node: Node?<T>, index: nat)

  /** `*it`: the element in the cursor's slot. */
  function Deref<T>(c: Cursor<T>): T
    requires c.node != null && c.index < c.node.data.Length
    reads c.node.data
  {
    c.node.data[c.index]
  }

  /** `++it`: the next slot of the same node while there is one, else slot 0
      of the next node (null past the tail). */
  function Increment<T>(c: Cursor<T>): Cursor<T>
    requires c.node != null
    reads c.node
  {
    if c.index + 1 < c.node.size then Cursor(c.node, c.index + 1)
    else Cursor(c.node.next, 0)
  }

  /** `--it` as written: the previous slot of the same node, or else slot
      `cap - 1` of the previous node, whatever that node's size. */
  function Decrement<T>(c: Cursor<T>, cap: nat): Cursor<T>
    requires c.node != null && cap >= 1
    reads c.node
  {
    if c.index > 0 then Cursor(c.node, c.index - 1)
    else Cursor(c.node.prev, cap - 1)
  }

  /** `--it` as evidently intended: the last live slot of the previous node. */
  function DecrementToLast<T>(c: Cursor<T>): Cursor<T>
    requires c.node != null
    requires c.index == 0 ==> c.node.prev != null && c.node.prev.size >= 1
    reads c.node, c.node.prev
  {
    if c.index > 0 then Cursor(c.node, c.index - 1)
    else Cursor(c.node.prev, c.node.prev.size - 1)
  }

  /** Moves `a[lo..hi)` one slot to the right, walking down from `hi`
      (`data[i] = data[i - 1]`); slot `lo` keeps its old value until the
      caller overwrites it. */
  method ShiftRight<T>(a: array<T>, lo: nat, hi: nat)
    requires lo <= hi < a.Length
    modifies a
    ensures a[..] == old(a[..lo + 1]) + old(a[lo..hi]) + old(a[hi + 1..])
  {
    var t := hi;
    while t > lo
      invariant lo <= t <= hi
      invariant forall m | 0 <= m <= t :: a[m] == old(a[m])
      invariant forall m | t < m <= hi :: a[m] == old(a[m - 1])
      invariant forall m | hi < m < a.Length :: a[m] == old(a[m])
    {
      a[t] := a[t - 1];
      t := t - 1;
    }
    ghost var r := old(a[..lo + 1]) + old(a[lo..hi]) + old(a[hi + 1..]);
    assert |r| == a.Length;
    forall m | 0 <= m < a.Length ensures a[m] == r[m] {
      if m <= lo {
      } else if m <= hi {
        assert r[m] == old(a[m - 1]);
      } else {
        assert r[m] == old(a[m]);
      }
    }
  }

  /** Moves `a(lo..hi]` one slot to the left, walking up from `lo`
      (`*it = *(it + 1)`); slot `hi` keeps its old value, which the caller
      then treats as destroyed. */
  method ShiftLeft<T>(a: array<T>, lo: nat, hi: nat)
    requires lo <= hi < a.Length
    modifies a
    ensures a[..] == old(a[..lo]) + old(a[lo + 1..hi + 1]) + old(a[hi..])
  {
    var t := lo;
    while t < hi
      invariant lo <= t <= hi
      invariant forall m | 0 <= m < lo :: a[m] == old(a[m])
      invariant forall m | lo <= m < t :: a[m] == old(a[m + 1])
      invariant forall m | t <= m < a.Length :: a[m] == old(a[m])
    {
      a[t] := a[t + 1];
      t := t + 1;
    }
    ghost var r := old(a[..lo]) + old(a[lo + 1..hi + 1]) + old(a[hi..]);
    assert |r| == a.Length;
    forall m | 0 <= m < a.Length ensures a[m] == r[m] {
      if m < lo {
      } else if m < hi {
        assert r[m] == old(a[m + 1]);
      } else {
        assert r[m] == old(a[m]);
      }
    }
  }
}
