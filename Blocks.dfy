/**
  The logical view of an unrolled list: the chain of nodes read as a sequence of
  blocks, one block per node, each block being the node's live elements
  (`data[0..node_size)`). The list's elements are the blocks concatenated in
  chain order. Everything here is pure; the heap-based list in UnrolledLists
  keeps a ghost `blocks` sequence in step with its nodes and states its
  operations in these terms.
*/
module Blocks {

  /** The elements of a chain of blocks, read head to tail. */
  function Concat<T>(bs: seq<seq<T>>): seq<T>
  {
    if bs == [] then [] else bs[0] + Concat(bs[1..])
  }

  /** Number of elements stored in the blocks before block `k`: the logical
      index of slot 0 of node `k`. */
  function Offset<T>(bs: seq<seq<T>>, k: nat): nat
    requires k <= |bs|
  {
    |Concat(bs[..k])|
  }

  /** `n` copies of `v`: the contents the fill constructor produces. */
  function Repeat<T>(v: T, n: nat): (r: seq<T>)
    ensures |r| == n && forall i | 0 <= i < n :: r[i] == v
  {
    seq(n, _ => v)
  }

  /** One more copy goes at either end. */
  lemma RepeatStep<T>(v: T, n: nat)
    ensures Repeat(v, n + 1) == Repeat(v, n) + [v] == [v] + Repeat(v, n)
  {
  }

  /** The shape the range and fill constructors build: every block but the
      last holds exactly `c` elements and the last holds 1..c. */
  ghost predicate Packed<T>(bs: seq<seq<T>>, c: nat)
  {
    bs != [] ==>
      (forall k | 0 <= k < |bs| - 1 :: |bs[k]| == c) && 1 <= |bs[|bs| - 1]| <= c
  }

  lemma {:induction false} ConcatSplit<T>(a: seq<seq<T>>, b: seq<seq<T>>)
    ensures Concat(a + b) == Concat(a) + Concat(b)
  {
    if a == [] {
      assert a + b == b;
    } else {
      assert (a + b)[1..] == a[1..] + b;
      ConcatSplit(a[1..], b);
    }
  }

  /** The elements of block `k` sit between those of the blocks before it and
      those of the blocks after it. */
  lemma ConcatAround<T>(bs: seq<seq<T>>, k: nat)
    requires k < |bs|
    ensures Concat(bs) == Concat(bs[..k]) + bs[k] + Concat(bs[k + 1..])
    ensures Offset(bs, k) + |bs[k]| <= |Concat(bs)|
  {
    assert bs == bs[..k] + bs[k..];
    ConcatSplit(bs[..k], bs[k..]);
    assert bs[k..][1..] == bs[k + 1..];
  }

  /** Replacing one block replaces its stretch of the elements. */
  lemma ConcatUpdate<T>(bs: seq<seq<T>>, k: nat, b: seq<T>)
    requires k < |bs|
    ensures Concat(bs[k := b]) == Concat(bs[..k]) + b + Concat(bs[k + 1..])
    ensures Concat(bs) == Concat(bs[..k]) + bs[k] + Concat(bs[k + 1..])
  {
    var bs' := bs[k := b];
    ConcatAround(bs, k);
    ConcatAround(bs', k);
    assert bs'[..k] == bs[..k];
    assert bs'[k + 1..] == bs[k + 1..];
  }

  /** Linking a new block right after block `k`. */
  lemma ConcatInsertAfter<T>(bs: seq<seq<T>>, k: nat, b: seq<T>)
    requires k < |bs|
    ensures Concat(bs[..k + 1] + [b] + bs[k + 1..]) == Concat(bs[..k + 1]) + b + Concat(bs[k + 1..])
  {
    var pre, post := bs[..k + 1], bs[k + 1..];
    ConcatSplit(pre + [b], post);
    ConcatSplit(pre, [b]);
    ConcatSingle(b);
  }

  lemma ConcatSingle<T>(b: seq<T>)
    ensures Concat([b]) == b
  {
    assert [b][1..] == [];
  }

  /** A block appended after the others comes after their elements. */
  lemma ConcatLast<T>(bs: seq<seq<T>>, b: seq<T>)
    ensures Concat(bs + [b]) == Concat(bs) + b
  {
    ConcatSplit(bs, [b]);
    ConcatSingle(b);
  }

  /** Unlinking an empty block leaves the elements as they were. */
  lemma ConcatRemoveEmpty<T>(bs: seq<seq<T>>, k: nat)
    requires k < |bs| && bs[k] == []
    ensures Concat(bs[..k] + bs[k + 1..]) == Concat(bs)
  {
    ConcatAround(bs, k);
    ConcatSplit(bs[..k], bs[k + 1..]);
  }

  /** Slot `j` of block `k` holds element `Offset(bs, k) + j`. */
  lemma ConcatAt<T>(bs: seq<seq<T>>, k: nat, j: nat)
    requires k < |bs| && j < |bs[k]|
    ensures Offset(bs, k) + j < |Concat(bs)|
    ensures Concat(bs)[Offset(bs, k) + j] == bs[k][j]
  {
    ConcatAround(bs, k);
  }

  lemma OffsetNext<T>(bs: seq<seq<T>>, k: nat)
    requires k < |bs|
    ensures Offset(bs, k + 1) == Offset(bs, k) + |bs[k]|
  {
    assert bs[..k + 1] == bs[..k] + [bs[k]];
    ConcatSplit(bs[..k], [bs[k]]);
    assert Concat([bs[k]]) == bs[k] + Concat([]);
  }

  lemma OffsetAll<T>(bs: seq<seq<T>>)
    ensures Offset(bs, |bs|) == |Concat(bs)|
  {
    assert bs[..|bs|] == bs;
  }

  /** Offsets of a prefix depend on that prefix only. */
  lemma OffsetPrefix<T>(bs: seq<seq<T>>, bs': seq<seq<T>>, k: nat)
    requires k <= |bs| && k <= |bs'| && bs[..k] == bs'[..k]
    ensures Offset(bs, k) == Offset(bs', k)
  {
  }

  lemma OffsetCons<T>(bs: seq<seq<T>>, k: nat)
    requires 0 < k <= |bs|
    ensures Offset(bs, k) == |bs[0]| + Offset(bs[1..], k - 1)
  {
    assert bs[..k][1..] == bs[1..][..k - 1];
  }

  /** The node and slot that hold logical element `i`: the cursor `begin() + i`
      when `i` is in range. Empty blocks are skipped. */
  function Locate<T>(bs: seq<seq<T>>, i: nat): (p: (nat, nat))
    requires i < |Concat(bs)|
    ensures p.0 < |bs| && p.1 < |bs[p.0]|
    ensures Offset(bs, p.0) + p.1 == i
    decreases |bs|
  {
    if i < |bs[0]| then (0, i)
    else
      var p := Locate(bs[1..], i - |bs[0]|);
      OffsetCons(bs, p.0 + 1);
      (p.0 + 1, p.1)
  }

  /** Each (block, slot) pair names a different element, so a slot is found
      by `Locate` exactly when it holds the element at its offset. */
  lemma {:induction false} LocateUnique<T>(bs: seq<seq<T>>, k: nat, j: nat)
    requires k < |bs| && j < |bs[k]|
    ensures Offset(bs, k) + j < |Concat(bs)|
    ensures Locate(bs, Offset(bs, k) + j) == (k, j)
  {
    ConcatAt(bs, k, j);
    if k > 0 {
      OffsetCons(bs, k);
      LocateUnique(bs[1..], k - 1, j);
    }
  }

  /** Element `i` is the one stored at the slot `Locate` finds. */
  lemma LocateAt<T>(bs: seq<seq<T>>, i: nat)
    requires i < |Concat(bs)|
    ensures Concat(bs)[i] == bs[Locate(bs, i).0][Locate(bs, i).1]
  {
    var p := Locate(bs, i);
    ConcatAt(bs, p.0, p.1);
  }

  /** A packed chain of `m` blocks holds between (m-1)*c+1 and m*c elements:
      `m` is the element count divided by `c`, rounded up, and the last block
      holds what is left after the full ones. */
  lemma {:induction false} PackedLength<T>(bs: seq<seq<T>>, c: nat)
    requires Packed(bs, c) && bs != []
    ensures |Concat(bs)| == (|bs| - 1) * c + |bs[|bs| - 1]|
    ensures (|bs| - 1) * c < |Concat(bs)| <= |bs| * c
  {
    if |bs| == 1 {
      assert Concat(bs) == bs[0] + Concat([]);
    } else {
      var rest := bs[1..];
      assert Packed(rest, c) by {
        forall k | 0 <= k < |rest| - 1 ensures |rest[k]| == c {
          assert rest[k] == bs[k + 1];
        }
      }
      PackedLength(rest, c);
      assert |Concat(bs)| == c + |Concat(rest)|;
      MulStep(|rest| - 1, c);
      MulStep(|rest|, c);
    }
  }

  lemma MulStep(a: int, c: int)
    ensures (a + 1) * c == a * c + c
  {
  }

  /** Node `i` of the fill constructor, when it is one of the
      `count / c` full nodes, ends at or before element `count`. */
  lemma FullNode(count: nat, c: nat, i: nat)
    requires c >= 1 && i < count / c
    ensures (i + 1) * c == i * c + c <= count
  {
    MulLe(i + 1, count / c, c);
  }

  /** The full nodes and the remainder make up `count`. */
  lemma LastNode(count: nat, c: nat)
    requires c >= 1
    ensures (count / c) * c + count % c == count
  {
  }

  /** Node `i` of the fill constructor holds `c` copies, or the remainder
      when it is the last and the remainder is not 0; the nodes before it
      hold `i * c`, and after the last all `count` are placed. */
  lemma {:induction false} FillCount(count: nat, c: nat, nodeCount: nat, i: nat)
    requires c >= 1 && nodeCount == count / c + (if count % c == 0 then 0 else 1) && i < nodeCount
    ensures var n := if i == nodeCount - 1 && count % c != 0 then count % c else c;
      1 <= n <= c && i * c + n <= count &&
      (i + 1 < nodeCount ==> i * c + n == (i + 1) * c) &&
      (i + 1 == nodeCount ==> i * c + n == count)
  {
    LastNode(count, c);
    if i == nodeCount - 1 && count % c != 0 {
      assert i == count / c;
    } else {
      assert i < count / c;
      FullNode(count, c, i);
      if i + 1 == nodeCount {
        assert count % c == 0;
      }
    }
  }

  lemma MulLe(a: nat, b: nat, c: nat)
    requires a <= b
    ensures a * c <= b * c
  {
  }

  /** The blocks after `push_back(v)`: `v` joins the last block while it has
      room, and otherwise opens a new last block (also when there is none). */
  function PushBackBlocks<T>(bs: seq<seq<T>>, c: nat, v: T): seq<seq<T>>
  {
    if bs == [] then [[v]]
    else if |bs[|bs| - 1]| < c then bs[|bs| - 1 := bs[|bs| - 1] + [v]]
    else bs + [[v]]
  }

  /** `push_back` appends exactly `v` to the elements. */
  lemma PushBackContents<T>(bs: seq<seq<T>>, c: nat, v: T)
    ensures Concat(PushBackBlocks(bs, c, v)) == Concat(bs) + [v]
  {
    if bs == [] {
      ConcatSingle([v]);
    } else if |bs[|bs| - 1]| < c {
      var k := |bs| - 1;
      ConcatUpdate(bs, k, bs[k] + [v]);
      assert bs[k + 1..] == [];
    } else {
      ConcatSplit(bs, [[v]]);
      ConcatSingle([v]);
    }
  }

  /** Pushing at the back keeps a packed chain packed: a new block is opened
      only once the last one is full. */
  lemma PushBackPacked<T>(bs: seq<seq<T>>, c: nat, v: T)
    requires Packed(bs, c) && c >= 1
    ensures Packed(PushBackBlocks(bs, c, v), c)
  {
  }

  /** The blocks after `push_back` of each element of `s` in turn. */
  function PushAll<T>(bs: seq<seq<T>>, c: nat, s: seq<T>): seq<seq<T>>
    decreases |s|
  {
    if s == [] then bs else PushAll(PushBackBlocks(bs, c, s[0]), c, s[1..])
  }

  /** Pushing a run of elements at the back appends exactly that run and
      keeps a packed chain packed. */
  lemma {:induction false} PushAllPacked<T>(bs: seq<seq<T>>, c: nat, s: seq<T>)
    requires Packed(bs, c) && c >= 1
    ensures Packed(PushAll(bs, c, s), c) && Concat(PushAll(bs, c, s)) == Concat(bs) + s
    decreases |s|
  {
    if s != [] {
      PushBackPacked(bs, c, s[0]);
      PushBackContents(bs, c, s[0]);
      PushAllPacked(PushBackBlocks(bs, c, s[0]), c, s[1..]);
      assert Concat(bs) + [s[0]] + s[1..] == Concat(bs) + s;
    }
  }

  /** `push_back` of the elements of `s` into an empty list uses the fewest
      nodes that can hold them: |s| divided by `c`, rounded up. */
  lemma PushAllNodeCount<T>(c: nat, s: seq<T>)
    requires c >= 1 && s != []
    ensures var bs := PushAll([], c, s); (|bs| - 1) * c < |s| <= |bs| * c
  {
    var none: seq<seq<T>> := [];
    assert Concat(none) == [];
    PushAllPacked(none, c, s);
    PackedLength(PushAll(none, c, s), c);
  }

  /** Eleven `push_back`s with `NodeMaxSize` 5 leave exactly three nodes. */
  lemma ElevenPushes<T>(s: seq<T>)
    requires |s| == 11
    ensures |PushAll([], 5, s)| == 3
  {
    PushAllNodeCount(5, s);
  }

  /** Loading the elements of `s` one at a time at the back, as the range
      and fill constructors do, keeps the blocks packed and holding the
      prefix of `s` read so far. */
  lemma LoadStep<T>(bs: seq<seq<T>>, c: nat, s: seq<T>, p: nat)
    requires Packed(bs, c) && c >= 1 && p < |s| && Concat(bs) == s[..p]
    ensures Packed(PushBackBlocks(bs, c, s[p]), c)
    ensures Concat(PushBackBlocks(bs, c, s[p])) == s[..p + 1]
  {
    PushBackContents(bs, c, s[p]);
    PushBackPacked(bs, c, s[p]);
    assert s[..p + 1] == s[..p] + [s[p]];
  }

  /** The blocks after `push_front(v)`: `v` goes to the front of the first
      block while it has room, and otherwise opens a new first block (also
      when there is none). */
  function PushFrontBlocks<T>(bs: seq<seq<T>>, c: nat, v: T): seq<seq<T>>
  {
    if bs == [] then [[v]]
    else if |bs[0]| < c then bs[0 := [v] + bs[0]]
    else [[v]] + bs
  }

  /** `push_front` prepends exactly `v` to the elements. */
  lemma PushFrontContents<T>(bs: seq<seq<T>>, c: nat, v: T)
    ensures Concat(PushFrontBlocks(bs, c, v)) == [v] + Concat(bs)
  {
    if bs == [] {
      ConcatSingle([v]);
    } else if |bs[0]| < c {
      assert PushFrontBlocks(bs, c, v)[1..] == bs[1..];
    } else {
      assert ([[v]] + bs)[1..] == bs;
    }
  }

  /** The blocks after `pop_back`: the last block loses its last element and
      is dropped once it holds none. */
  function PopBackBlocks<T>(bs: seq<seq<T>>): seq<seq<T>>
    requires bs != [] && bs[|bs| - 1] != []
  {
    var k := |bs| - 1;
    var b := bs[k][..|bs[k]| - 1];
    if b == [] then bs[..k] else bs[k := b]
  }

  /** `pop_back` removes exactly the last element. */
  lemma PopBackContents<T>(bs: seq<seq<T>>)
    requires bs != [] && bs[|bs| - 1] != []
    ensures Concat(bs) != [] && Concat(PopBackBlocks(bs)) == Concat(bs)[..|Concat(bs)| - 1]
  {
    var k := |bs| - 1;
    var pre, b := bs[..k], bs[k][..|bs[k]| - 1];
    assert bs == pre + [bs[k]];
    ConcatLast(pre, bs[k]);
    assert (Concat(pre) + bs[k])[..|Concat(bs)| - 1] == Concat(pre) + b;
    if b != [] {
      assert bs[k := b] == pre + [b];
      ConcatLast(pre, b);
    }
  }

  /** The blocks after `pop_front`: the first block loses its first element
      and is dropped once it holds none. */
  function PopFrontBlocks<T>(bs: seq<seq<T>>): seq<seq<T>>
    requires bs != [] && bs[0] != []
  {
    var b := bs[0][1..];
    if b == [] then bs[1..] else bs[0 := b]
  }

  /** `pop_front` removes exactly the first element. */
  lemma PopFrontContents<T>(bs: seq<seq<T>>)
    requires bs != [] && bs[0] != []
    ensures Concat(bs) != [] && Concat(PopFrontBlocks(bs)) == Concat(bs)[1..]
  {
    var b := bs[0][1..];
    var rest := Concat(bs[1..]);
    assert Concat(bs) == bs[0] + rest;
    assert Concat(bs)[1..] == b + rest;
    if b != [] {
      var r := bs[0 := b];
      assert r[0] == b && r[1..] == bs[1..];
      assert Concat(r) == b + rest;
    }
  }

  /** The blocks after `insert(v)` at slot `j` of block `k`. A block with room
      takes `v` at slot `j`; a full block (`c` elements) takes `v` at slot `j`,
      and its last element moves to a new one-element block right after it. */
  function InsertBlocks<T>(bs: seq<seq<T>>, k: nat, j: nat, c: nat, v: T): (r: seq<seq<T>>)
    requires k < |bs| && j < |bs[k]|
  {
    var b := bs[k];
    if |b| < c then bs[k := b[..j] + [v] + b[j..]]
    else bs[..k] + [b[..j] + [v] + b[j..|b| - 1], [b[|b| - 1]]] + bs[k + 1..]
  }

  /** `insert` puts exactly `v` before the element at its cursor. */
  lemma InsertContents<T>(bs: seq<seq<T>>, k: nat, j: nat, c: nat, v: T)
    requires k < |bs| && j < |bs[k]|
    ensures Offset(bs, k) + j < |Concat(bs)|
    ensures var i := Offset(bs, k) + j;
            Concat(InsertBlocks(bs, k, j, c, v)) == Concat(bs)[..i] + [v] + Concat(bs)[i..]
  {
    var b := bs[k];
    var i := Offset(bs, k) + j;
    var pre, post := Concat(bs[..k]), Concat(bs[k + 1..]);
    var grown := b[..j] + [v] + b[j..];
    ConcatAround(bs, k);
    Spliced(pre, b, post, j, v);
    assert Concat(bs)[..i] + [v] + Concat(bs)[i..] == pre + grown + post;
    if |b| < c {
      ConcatUpdate(bs, k, grown);
      assert Concat(InsertBlocks(bs, k, j, c, v)) == pre + grown + post;
    } else {
      InsertSplitContents(bs, k, j, v);
    }
  }

  /** The shape of `InsertBlocks` for a full block: it is split in two. */
  lemma InsertBlocksSplit<T>(bs: seq<seq<T>>, k: nat, j: nat, c: nat, v: T)
    requires k < |bs| && j < |bs[k]| == c
    ensures InsertBlocks(bs, k, j, c, v) ==
            bs[..k] + [bs[k][..j] + [v] + bs[k][j..c - 1], [bs[k][c - 1]]] + bs[k + 1..]
  {
  }

  /** Linking a block `[x]` after a full block `k` whose last element is `x`,
      then inserting `v` at slot `j` of block `k` and dropping its last
      slot, inserts `v` into the blocks. */
  lemma SplitAfter<T>(bs: seq<seq<T>>, k: nat, j: nat, c: nat, v: T, x: T)
    requires k < |bs| && j < |bs[k]| == c && x == bs[k][c - 1]
    ensures (bs[..k + 1] + [[x]] + bs[k + 1..])[k := bs[k][..j] + [v] + bs[k][j..c - 1]] ==
            InsertBlocks(bs, k, j, c, v)
  {
    InsertBlocksSplit(bs, k, j, c, v);
    var l := (bs[..k + 1] + [[x]] + bs[k + 1..])[k := bs[k][..j] + [v] + bs[k][j..c - 1]];
    var r := bs[..k] + [bs[k][..j] + [v] + bs[k][j..c - 1], [bs[k][c - 1]]] + bs[k + 1..];
    assert |l| == |r|;
    forall m | 0 <= m < |l|
      ensures l[m] == r[m]
    {
    }
  }

  /** Splitting block `k` in two around the inserted `v` keeps the elements
      in order. */
  lemma InsertSplitContents<T>(bs: seq<seq<T>>, k: nat, j: nat, v: T)
    requires k < |bs| && j < |bs[k]|
    ensures var b := bs[k];
            Concat(bs[..k] + [b[..j] + [v] + b[j..|b| - 1], [b[|b| - 1]]] + bs[k + 1..]) ==
            Concat(bs[..k]) + (b[..j] + [v] + b[j..]) + Concat(bs[k + 1..])
  {
    var b := bs[k];
    var x, y := b[..j] + [v] + b[j..|b| - 1], [b[|b| - 1]];
    ConcatSplit(bs[..k] + [x, y], bs[k + 1..]);
    ConcatSplit(bs[..k], [x, y]);
    assert Concat([x, y]) == x + y by {
      assert [x, y][1..] == [y];
      ConcatSingle(y);
    }
    assert x + y == b[..j] + [v] + b[j..] by {
      assert b[j..] == b[j..|b| - 1] + [b[|b| - 1]];
    }
  }

  /** Inserting `v` at slot `j` of the middle part of `pre + b + post` is
      inserting it at index `|pre| + j` of the whole. */
  lemma Spliced<T>(pre: seq<T>, b: seq<T>, post: seq<T>, j: nat, v: T)
    requires j < |b|
    ensures var s, i := pre + b + post, |pre| + j;
            s[..i] + [v] + s[i..] == pre + (b[..j] + [v] + b[j..]) + post
  {
    var s, i := pre + b + post, |pre| + j;
    assert s[..i] == pre + b[..j];
    assert s[i..] == b[j..] + post;
  }

  /** After an `insert`, the slot the cursor named still holds the element of
      the same logical index (now `v`), and the node keeps its place. */
  lemma InsertLocate<T>(bs: seq<seq<T>>, k: nat, j: nat, c: nat, v: T)
    requires k < |bs| && j < |bs[k]|
    ensures var r := InsertBlocks(bs, k, j, c, v);
            k < |r| && j < |r[k]| && Offset(r, k) == Offset(bs, k) &&
            Offset(r, k) + j < |Concat(r)| && Locate(r, Offset(r, k) + j) == (k, j)
  {
    var r := InsertBlocks(bs, k, j, c, v);
    assert r[..k] == bs[..k];
    OffsetPrefix(r, bs, k);
    LocateUnique(r, k, j);
  }

  /** The blocks after `erase` of slot `j` of block `k`: the slot's element
      goes and the later ones move left. A block left empty is dropped unless
      it is the last one: `erase` of the tail's last slot does not unlink
      the tail. */
  function EraseBlocks<T>(bs: seq<seq<T>>, k: nat, j: nat): seq<seq<T>>
    requires k < |bs| && j < |bs[k]|
  {
    var b := bs[k][..j] + bs[k][j + 1..];
    if b == [] && k < |bs| - 1 then bs[..k] + bs[k + 1..] else bs[k := b]
  }

  /** `erase` removes exactly the element at its cursor. */
  lemma EraseContents<T>(bs: seq<seq<T>>, k: nat, j: nat)
    requires k < |bs| && j < |bs[k]|
    ensures Offset(bs, k) + j < |Concat(bs)|
    ensures var i := Offset(bs, k) + j;
            Concat(EraseBlocks(bs, k, j)) == Concat(bs)[..i] + Concat(bs)[i + 1..]
  {
    var b := bs[k][..j] + bs[k][j + 1..];
    var pre, post := Concat(bs[..k]), Concat(bs[k + 1..]);
    ConcatAround(bs, k);
    Removed(pre, bs[k], post, j);
    ConcatUpdate(bs, k, b);
    var i := Offset(bs, k) + j;
    assert i == |pre| + j;
    assert Concat(bs)[..i] + Concat(bs)[i + 1..] == pre + b + post;
    if b == [] && k < |bs| - 1 {
      var bs' := bs[k := b];
      ConcatRemoveEmpty(bs', k);
      assert bs'[..k] + bs'[k + 1..] == bs[..k] + bs[k + 1..];
    }
  }

  /** Removing slot `j` of the middle part of `pre + b + post` is removing
      index `|pre| + j` of the whole. */
  lemma Removed<T>(pre: seq<T>, b: seq<T>, post: seq<T>, j: nat)
    requires j < |b|
    ensures var s, i := pre + b + post, |pre| + j;
            s[..i] + s[i + 1..] == pre + (b[..j] + b[j + 1..]) + post
  {
    var s, i := pre + b + post, |pre| + j;
    assert s[..i] == pre + b[..j];
    assert s[i + 1..] == b[j + 1..] + post;
  }

  /** Where element `Offset(bs, k) + j` is found after `erase` of slot `j` of
      block `k`, in a chain whose blocks other than the last are not empty:
      in the same slot when it was not the block's last, and otherwise at
      slot 0 of what was block `k + 1`, which is now block `k` when block `k`
      was dropped. */
  lemma EraseLocate<T>(bs: seq<seq<T>>, k: nat, j: nat)
    requires k < |bs| && j < |bs[k]|
    requires forall m | 0 <= m < |bs| - 1 :: |bs[m]| > 0
    requires Offset(bs, k) + j < |Concat(EraseBlocks(bs, k, j))|
    ensures var r, i := EraseBlocks(bs, k, j), Offset(bs, k) + j;
            i < |Concat(r)| &&
            Locate(r, i) ==
              (if j < |bs[k]| - 1 then (k, j)
               else if |bs[k]| == 1 then (k, 0)
               else (k + 1, 0))
  {
    var r := EraseBlocks(bs, k, j);
    assert r[..k] == bs[..k];
    OffsetPrefix(r, bs, k);
    if j < |bs[k]| - 1 {
      assert r == bs[k := bs[k][..j] + bs[k][j + 1..]];
      LocateUnique(r, k, j);
    } else if |bs[k]| == 1 {
      EraseLocateDropped(bs, k, j);
    } else {
      EraseLocateNext(bs, k, j);
    }
  }

  /** Erasing the only element of a block drops the block, and the erased
      index then lands on the first slot of the block that followed. */
  lemma EraseLocateDropped<T>(bs: seq<seq<T>>, k: nat, j: nat)
    requires k < |bs| && j == 0 && |bs[k]| == 1
    requires forall m | 0 <= m < |bs| - 1 :: |bs[m]| > 0
    requires Offset(bs, k) < |Concat(EraseBlocks(bs, k, j))|
    ensures Offset(bs, k) < |Concat(EraseBlocks(bs, k, j))|
    ensures Locate(EraseBlocks(bs, k, j), Offset(bs, k)) == (k, 0)
  {
    var r := EraseBlocks(bs, k, j);
    EraseContents(bs, k, j);
    assert bs[k][..j] + bs[k][j + 1..] == [];
    assert r[..k] == bs[..k];
    OffsetPrefix(r, bs, k);
    EraseFilled(bs, k, j);
    OffsetBelow(r, k);
    FilledBefore(r, k);
    LocateUnique(r, k, 0);
  }

  /** Erasing the last element of a block that keeps others lands the erased
      index on the first slot of the next block. */
  lemma EraseLocateNext<T>(bs: seq<seq<T>>, k: nat, j: nat)
    requires k < |bs| && j == |bs[k]| - 1 && |bs[k]| > 1
    requires forall m | 0 <= m < |bs| - 1 :: |bs[m]| > 0
    requires Offset(bs, k) + j < |Concat(EraseBlocks(bs, k, j))|
    ensures k + 1 < |EraseBlocks(bs, k, j)|
    ensures Offset(bs, k) + j < |Concat(EraseBlocks(bs, k, j))|
    ensures Locate(EraseBlocks(bs, k, j), Offset(bs, k) + j) == (k + 1, 0)
  {
    var r := EraseBlocks(bs, k, j);
    var b := bs[k][..j] + bs[k][j + 1..];
    assert |b| == j && b != [] && r == bs[k := b];
    assert r[..k] == bs[..k];
    OffsetPrefix(r, bs, k);
    OffsetNext(r, k);
    OffsetBelow(r, k + 1);
    EraseFilled(bs, k, j);
    FilledBefore(r, k + 1);
    LocateUnique(r, k + 1, 0);
  }

  /** When `erase` of the last slot of a block that is not the last leaves
      nothing at or after the erased index, the next block was the last one
      and empty. */
  lemma EraseAtEnd<T>(bs: seq<seq<T>>, k: nat, j: nat)
    requires k < |bs| - 1 && j == |bs[k]| - 1
    requires forall m | 0 <= m < |bs| - 1 :: |bs[m]| > 0
    requires Offset(bs, k) + j == |Concat(EraseBlocks(bs, k, j))|
    ensures k + 1 == |bs| - 1 && bs[k + 1] == []
  {
    var r := EraseBlocks(bs, k, j);
    var n := if |bs[k]| == 1 then k else k + 1;
    assert r[..k] == bs[..k];
    OffsetPrefix(r, bs, k);
    if |bs[k]| != 1 {
      OffsetNext(r, k);
    }
    assert n < |r| && r[n] == bs[k + 1];
    BlockWithin(r, n);
  }

  /** Erasing a block's last slot keeps its other elements and drops the
      block only when it is left empty and is not the last one. */
  lemma EraseLastSlot<T>(bs: seq<seq<T>>, k: nat, j: nat)
    requires k < |bs| && j == |bs[k]| - 1
    ensures EraseBlocks(bs, k, j)
         == if j == 0 && k < |bs| - 1 then bs[..k] + bs[k + 1..] else bs[k := bs[k][..j]]
  {
    assert bs[k][..j] + bs[k][j + 1..] == bs[k][..j];
  }

  /** Inserting `v` at index `i` of `c[..i] + r + c[i..]` puts it at the
      front of `r`. */
  lemma InsertBeforeRun<T>(c: seq<T>, i: nat, r: seq<T>, v: T)
    requires i <= |c|
    ensures var d := c[..i] + r + c[i..];
            i <= |d| && d[..i] + [v] + d[i..] == c[..i] + ([v] + r) + c[i..]
  {
    var d := c[..i] + r + c[i..];
    assert d[..i] == c[..i];
    assert d[i..] == r + c[i..];
  }

  /** Erasing index `i` of `c[..i] + c[i + t..]` widens the gap by one. */
  lemma EraseAfterGap<T>(c: seq<T>, i: nat, t: nat)
    requires i + t < |c|
    ensures var d := c[..i] + c[i + t..];
            i < |d| && d[..i] + d[i + 1..] == c[..i] + c[i + t + 1..]
  {
    var d := c[..i] + c[i + t..];
    assert d[..i] == c[..i];
    assert d[i + 1..] == c[i + t + 1..];
  }

  /** Two chains of blocks of the same lengths, block by block. */
  ghost predicate SameShape<T>(bs: seq<seq<T>>, bs': seq<seq<T>>)
  {
    |bs| == |bs'| && forall k | 0 <= k < |bs| :: |bs[k]| == |bs'[k]|
  }

  /** Where an element sits depends only on the lengths of the blocks. */
  lemma {:induction false} LocateSameShape<T>(bs: seq<seq<T>>, bs': seq<seq<T>>, m: nat)
    requires SameShape(bs, bs') && m < |Concat(bs)|
    ensures m < |Concat(bs')| && Locate(bs', m) == Locate(bs, m)
    decreases |bs|
  {
    if m >= |bs[0]| {
      LocateSameShape(bs[1..], bs'[1..], m - |bs[0]|);
    }
  }

  /** Overwriting slot `j` of block `k` overwrites the element at its
      offset, and keeps the shape. */
  lemma WriteContents<T>(bs: seq<seq<T>>, k: nat, j: nat, v: T)
    requires k < |bs| && j < |bs[k]|
    ensures Offset(bs, k) + j < |Concat(bs)|
    ensures Concat(bs[k := bs[k][j := v]]) == Concat(bs)[Offset(bs, k) + j := v]
    ensures SameShape(bs, bs[k := bs[k][j := v]])
  {
    ConcatUpdate(bs, k, bs[k][j := v]);
    UpdateMiddle(Concat(bs[..k]), bs[k], Concat(bs[k + 1..]), j, v);
  }

  /** Updating the middle part of a concatenation at `j` updates the whole
      at the same place shifted by the length of the first part. */
  lemma UpdateMiddle<T>(pre: seq<T>, x: seq<T>, post: seq<T>, j: nat, v: T)
    requires j < |x|
    ensures (pre + x + post)[|pre| + j := v] == pre + x[j := v] + post
  {
    var l, r := (pre + x + post)[|pre| + j := v], pre + x[j := v] + post;
    assert |l| == |r|;
    forall i | 0 <= i < |l|
      ensures l[i] == r[i]
    {
      if i < |pre| {
      } else if i < |pre| + |x| {
        assert r[i] == x[j := v][i - |pre|];
      }
    }
  }

  /** A block that starts before the end of the elements holds one, when
      only the last block may be empty. */
  lemma FilledBefore<T>(bs: seq<seq<T>>, k: nat)
    requires k < |bs| && forall m | 0 <= m < |bs| - 1 :: |bs[m]| > 0
    requires Offset(bs, k) < |Concat(bs)|
    ensures bs[k] != []
  {
    if k == |bs| - 1 {
      OffsetNext(bs, k);
      OffsetAll(bs);
    }
  }

  /** The element after element `m` is the next slot of its block, or else
      slot 0 of the next block; after the last slot of the last block there
      is none. */
  lemma LocateNext<T>(bs: seq<seq<T>>, m: nat)
    requires m < |Concat(bs)| && forall n | 0 <= n < |bs| - 1 :: |bs[n]| > 0
    ensures var (k, j) := Locate(bs, m);
            if j + 1 < |bs[k]| then m + 1 < |Concat(bs)| && Locate(bs, m + 1) == (k, j + 1)
            else if m + 1 < |Concat(bs)| then k + 1 < |bs| && Locate(bs, m + 1) == (k + 1, 0)
            else k + 1 == |bs| || (k + 2 == |bs| && bs[k + 1] == [])
  {
    var (k, j) := Locate(bs, m);
    OffsetNext(bs, k);
    if j + 1 < |bs[k]| {
      LocateUnique(bs, k, j + 1);
    } else if k + 1 < |bs| {
      if m + 1 < |Concat(bs)| {
        FilledBefore(bs, k + 1);
        LocateUnique(bs, k + 1, 0);
      } else {
        BlockWithin(bs, k + 1);
      }
    } else {
      OffsetAll(bs);
    }
  }

  /** Writing `s[n]` at index `n` of `s[..n] + c[n..]` extends the prefix
      of `s` by one. */
  lemma WritePrefix<T>(s: seq<T>, c: seq<T>, n: nat)
    requires n < |s| <= |c|
    ensures (s[..n] + c[n..])[n := s[n]] == s[..n + 1] + c[n + 1..]
  {
    assert s[..n + 1] == s[..n] + [s[n]];
  }

  /** Prefixes that agree, extended by one agreeing element, still agree. */
  lemma SliceStep<T>(s: seq<T>, t: seq<T>, m: nat)
    requires m < |s| && m < |t| && s[..m] == t[..m] && s[m] == t[m]
    ensures s[..m + 1] == t[..m + 1]
  {
    assert s[..m + 1] == s[..m] + [s[m]];
    assert t[..m + 1] == t[..m] + [t[m]];
  }

  /** Sequences of length `m` whose first `m` elements agree are equal. */
  lemma WholePrefix<T>(s: seq<T>, t: seq<T>, m: nat)
    requires m == |s| == |t| && s[..m] == t[..m]
    ensures s == t
  {
    assert s == s[..m] && t == t[..m];
  }

  /** `d` slots further on in the same block is `d` elements further on. */
  lemma LocateShift<T>(bs: seq<seq<T>>, p: nat, k: nat, j: nat, d: nat)
    requires p < |Concat(bs)| && Locate(bs, p) == (k, j) && j + d < |bs[k]|
    ensures p + d < |Concat(bs)| && Locate(bs, p + d) == (k, j + d)
  {
    LocateUnique(bs, k, j + d);
  }

  /** Passing the rest of the block of element `p` reaches slot 0 of the next
      block, or, when no element follows, the end: there is no next block, or
      it is the last one and empty. */
  lemma LocateNextBlock<T>(bs: seq<seq<T>>, p: nat, k: nat, j: nat)
    requires p < |Concat(bs)| && forall n | 0 <= n < |bs| - 1 :: |bs[n]| > 0
    requires Locate(bs, p) == (k, j)
    ensures p + (|bs[k]| - j) <= |Concat(bs)|
    ensures p + (|bs[k]| - j) < |Concat(bs)| ==> k + 1 < |bs| && Locate(bs, p + (|bs[k]| - j)) == (k + 1, 0)
    ensures p + (|bs[k]| - j) == |Concat(bs)| ==> k + 1 == |bs| || (k + 2 == |bs| && bs[k + 1] == [])
  {
    var last := |bs[k]| - 1;
    var q := p + (last - j);
    LocateUnique(bs, k, last);
    assert Locate(bs, q) == (k, last);
    LocateNext(bs, q);
    assert q + 1 == p + (|bs[k]| - j);
  }

  /** Element `p` lies in block 0 exactly when `p` is below that block's
      length, and then at slot `p`; otherwise going back over the slots
      before it in its block, and one more, reaches the last slot of the
      previous block. */
  lemma LocatePrevBlock<T>(bs: seq<seq<T>>, p: nat, k: nat, j: nat)
    requires p < |Concat(bs)| && forall n | 0 <= n < |bs| - 1 :: |bs[n]| > 0
    requires Locate(bs, p) == (k, j)
    ensures k == 0 <==> p < |bs[0]|
    ensures k == 0 ==> j == p
    ensures k > 0 ==> j + 1 <= p && Locate(bs, p - (j + 1)) == (k - 1, |bs[k - 1]| - 1)
  {
    assert Offset(bs, 0) == 0;
    if k > 0 {
      OffsetNext(bs, k - 1);
      LocateUnique(bs, k - 1, |bs[k - 1]| - 1);
      OffsetNext(bs, 0);
      OffsetMonotone(bs, 1, k);
    }
  }

  /** `d` slots back in the same block is `d` elements back. */
  lemma LocateShiftBack<T>(bs: seq<seq<T>>, p: nat, k: nat, j: nat, d: nat)
    requires p < |Concat(bs)| && Locate(bs, p) == (k, j) && d <= j
    ensures d <= p && Locate(bs, p - d) == (k, j - d)
  {
    LocateUnique(bs, k, j - d);
  }

  /** Block `k` ends where the elements end at the latest. */
  lemma BlockWithin<T>(bs: seq<seq<T>>, k: nat)
    requires k < |bs|
    ensures Offset(bs, k) + |bs[k]| <= |Concat(bs)|
  {
    OffsetNext(bs, k);
    OffsetMonotone(bs, k + 1, |bs|);
    OffsetAll(bs);
  }

  /** A block that starts before the end of the elements is one of the blocks. */
  lemma OffsetBelow<T>(bs: seq<seq<T>>, k: nat)
    requires k <= |bs| && Offset(bs, k) < |Concat(bs)|
    ensures k < |bs|
  {
    OffsetAll(bs);
  }

  /** `erase` keeps every block but the last holding an element. */
  lemma EraseFilled<T>(bs: seq<seq<T>>, k: nat, j: nat)
    requires k < |bs| && j < |bs[k]| && forall m | 0 <= m < |bs| - 1 :: |bs[m]| > 0
    ensures var r := EraseBlocks(bs, k, j); forall m | 0 <= m < |r| - 1 :: |r[m]| > 0
  {
  }

  /** Offsets grow with the block index. */
  lemma {:induction false} OffsetMonotone<T>(bs: seq<seq<T>>, k: nat, l: nat)
    requires k <= l <= |bs|
    ensures Offset(bs, k) <= Offset(bs, l)
    decreases l - k
  {
    if k < l {
      OffsetNext(bs, k);
      OffsetMonotone(bs, k + 1, l);
    }
  }
}
