/** What slicing and merging do to the neighbour chain, and so to the memory it describes. */
module Edits {
  import opened Collections
  import opened Words
  import opened Nodes
  import opened Bins

  datatype Block = Block(offset: nat, size: nat)

  predicate SameExtent(n: Node, m: Node) {
    n.offset == m.offset && n.size == m.size && n.used == m.used
  }

  ghost function LiveOf(nodes: seq<Node>, chain: seq<int>): map<int, Block>
    requires InTable(nodes, chain)
  {
    map x | x in Elements(chain) && nodes[x].used :: Block(nodes[x].offset, nodes[x].size)
  }

  /** The neighbour writes of `sliceTopBinNode` for a remainder `rest` behind `id`. */
  function SliceLinks(nodes: seq<Node>, id: int, rest: int): seq<Node>
    requires 0 <= id < |nodes| && 0 <= rest < |nodes|
    requires nodes[id].neighborNext != INVALID ==> 0 <= nodes[id].neighborNext < |nodes|
  {
    var next := nodes[id].neighborNext;
    var nodes1 := if next != INVALID then nodes[next := nodes[next].(neighborPrev := rest)] else nodes;
    var nodes2 := nodes1[rest := nodes1[rest].(neighborPrev := id, neighborNext := next)];
    nodes2[id := nodes2[id].(neighborNext := rest)]
  }

  /** What slicing leaves at the front of a free block. */
  function Carved(s: Segment, size: nat, rest: int): seq<Segment>
    requires size <= s.size
  {
    [Segment(s.offset, size, true, s.id)]
    + if size < s.size then [Segment(s.offset + size, s.size - size, false, rest)] else []
  }

  /** The node writes of a slice of `size`, with `rest` (if any) freshly inserted behind the block. */
  ghost predicate SliceShape(nodes: seq<Node>, nodes': seq<Node>, chain: seq<int>, at: nat, rest: int, size: nat,
    capacity: nat)
  {
    && ChainOk(nodes, chain, capacity) && at < |chain| && !nodes[chain[at]].used
    && |nodes'| == |nodes| && size <= nodes[chain[at]].size
    && rest !in chain
    && (forall k :: 0 <= k < |nodes| && k != chain[at] && k != rest ==> SameBlock(nodes'[k], nodes[k]))
    && SameBlock(nodes'[chain[at]], nodes[chain[at]].(size := size, used := true))
  }

  /** A free block used up entirely. */
  lemma SliceWhole(nodes: seq<Node>, nodes': seq<Node>, chain: seq<int>, at: nat, capacity: nat)
    requires InTable(nodes, chain) && at < |chain| &&
      SliceShape(nodes, nodes', chain, at, INVALID, nodes[chain[at]].size, capacity)
    ensures ChainOk(nodes', chain, capacity)
    ensures FreeSum(nodes', chain) + nodes[chain[at]].size == FreeSum(nodes, chain)
    ensures SegmentsOf(nodes', chain)
         == Spliced(SegmentsOf(nodes, chain), at, at + 1,
           Carved(SegmentsOf(nodes, chain)[at], nodes[chain[at]].size, INVALID))
  {
    var id, mid, b := chain[at], [chain[at]], at + 1;
    SliceWholeSplices(nodes, nodes', chain, at, b, capacity);
    assert Spliced(chain, at, b, mid) == chain;
    assert Linked(nodes', chain, capacity, at) by {
      assert Linked(nodes, chain, capacity, at);
      if b < |chain| { assert Kept(nodes, nodes', chain, at, b, mid, b); }
    }
    SpliceAll(nodes, nodes', chain, at, b, mid, capacity);
    assert chain[at..b] == mid;
    FreeSumOne(nodes, id);
    FreeSumOne(nodes', id);
    assert SegmentsOf(nodes', mid) == Carved(SegmentsOf(nodes, chain)[at], nodes[id].size, INVALID);
  }

  lemma SliceWholeSplices(nodes: seq<Node>, nodes': seq<Node>, chain: seq<int>, at: nat, b: nat, capacity: nat)
    requires InTable(nodes, chain) && at < |chain| &&
      SliceShape(nodes, nodes', chain, at, INVALID, nodes[chain[at]].size, capacity) && b == at + 1
    ensures SpliceOk(nodes, nodes', chain, at, b, [chain[at]], capacity)
  {
    var mid := [chain[at]];
    assert Linked(nodes, chain, capacity, at);
    forall i | 0 <= i < |chain| && i != at ensures Kept(nodes, nodes', chain, at, b, mid, i) {
      assert Linked(nodes, chain, capacity, i);
    }
    if at > 0 {
      assert Linked(nodes, chain, capacity, at - 1);
    }
  }

  lemma SliceNext(nodes: seq<Node>, nodes': seq<Node>, chain: seq<int>, at: nat, rest: int, size: nat, capacity: nat)
    requires SliceShape(nodes, nodes', chain, at, rest, size, capacity)
    ensures nodes'[chain[at]].neighborNext != chain[at]
    ensures nodes'[chain[at]].neighborNext != INVALID ==> 0 <= nodes'[chain[at]].neighborNext < |nodes|
  {
    assert Linked(nodes, chain, capacity, at);
  }

  /** A free block split in two: the front is used, `rest` is a fresh free block that joins the chain behind it. */
  ghost predicate SplitEdit(nodes: seq<Node>, nodes': seq<Node>, nodes2: seq<Node>, chain: seq<int>, chain2: seq<int>,
    at: nat, b: nat, rest: int, size: nat, capacity: nat)
  {
    && SliceShape(nodes, nodes', chain, at, rest, size, capacity) && size < nodes[chain[at]].size
    && 0 <= rest < |nodes| && b == at + 1
    && SameBlock(nodes'[rest],
         Node(nodes[chain[at]].offset + size, nodes[chain[at]].size - size, INVALID, INVALID, INVALID, INVALID, false))
    && (nodes'[chain[at]].neighborNext != INVALID ==> 0 <= nodes'[chain[at]].neighborNext < |nodes|)
    && nodes2 == SliceLinks(nodes', chain[at], rest)
    && chain2 == Spliced(chain, at, b, [chain[at], rest])
  }

  lemma {:induction false} SliceSplit(nodes: seq<Node>, nodes': seq<Node>, nodes2: seq<Node>, chain: seq<int>,
    chain2: seq<int>, at: nat, b: nat, rest: int, size: nat, capacity: nat)
    requires SplitEdit(nodes, nodes', nodes2, chain, chain2, at, b, rest, size, capacity)
    ensures |nodes2| == |nodes| && ChainOk(nodes2, chain2, capacity)
    ensures FreeSum(nodes2, chain2) + size == FreeSum(nodes, chain)
    ensures SegmentsOf(nodes2, chain2)
      == Spliced(SegmentsOf(nodes, chain), at, b, Carved(SegmentsOf(nodes, chain)[at], size, rest))
    ensures forall k :: 0 <= k < |nodes| ==> SameListing(nodes'[k], nodes2[k])
  {
    hide Linked, Kept, FreeSum, Carved, SegmentsOf, SameBlock;
    SliceLinksListing(nodes', chain[at], rest);
    SplicedIds(nodes2, chain, at, b, [chain[at], rest]);
    SliceSplitSplices(nodes, nodes', nodes2, chain, chain2, at, b, rest, size, capacity);
    SliceSplitLinks(nodes, nodes', nodes2, chain, chain2, at, b, rest, size, capacity);
    SplitFree(nodes, nodes', nodes2, chain, at, b, rest, size, capacity);
    SplitSegments(nodes, nodes', nodes2, chain, at, b, rest, size, capacity);
    SpliceAll(nodes, nodes2, chain, at, b, [chain[at], rest], capacity);
  }

  lemma SliceLinksListing(nodes: seq<Node>, id: int, rest: int)
    requires 0 <= id < |nodes| && 0 <= rest < |nodes|
    requires nodes[id].neighborNext != INVALID ==> 0 <= nodes[id].neighborNext < |nodes|
    ensures |SliceLinks(nodes, id, rest)| == |nodes|
    ensures forall k :: 0 <= k < |nodes| ==> SameListing(nodes[k], SliceLinks(nodes, id, rest)[k])
  {
  }

  /** The two halves of a split block as free storage. */
  lemma SplitFree(nodes: seq<Node>, nodes': seq<Node>, nodes2: seq<Node>, chain: seq<int>, at: nat, b: nat, rest: int,
    size: nat, capacity: nat)
    requires SliceShape(nodes, nodes', chain, at, rest, size, capacity) && size < nodes[chain[at]].size
    requires 0 <= rest < |nodes| && b == at + 1
    requires SameBlock(nodes'[rest],
      Node(nodes[chain[at]].offset + size, nodes[chain[at]].size - size, INVALID, INVALID, INVALID, INVALID, false))
    requires |nodes2| == |nodes| && forall k :: 0 <= k < |nodes| ==> SameListing(nodes'[k], nodes2[k])
    ensures FreeSum(nodes, chain[at..b]) == nodes[chain[at]].size
    ensures FreeSum(nodes2, [chain[at], rest]) == nodes[chain[at]].size - size
  {
    assert chain[at..b] == [chain[at]];
    assert SameListing(nodes'[chain[at]], nodes2[chain[at]]) && SameListing(nodes'[rest], nodes2[rest]);
    FreeSumOne(nodes, chain[at]);
    FreeSumOne(nodes2, chain[at]);
    FreeSumOne(nodes2, rest);
    FreeSumConcat(nodes2, [chain[at]], [rest]);
    assert [chain[at]] + [rest] == [chain[at], rest];
  }

  /** The two halves of a split block as segments. */
  lemma SplitSegments(nodes: seq<Node>, nodes': seq<Node>, nodes2: seq<Node>, chain: seq<int>, at: nat, b: nat,
    rest: int, size: nat, capacity: nat)
    requires SliceShape(nodes, nodes', chain, at, rest, size, capacity) && size < nodes[chain[at]].size
    requires 0 <= rest < |nodes| && b == at + 1
    requires SameBlock(nodes'[rest],
      Node(nodes[chain[at]].offset + size, nodes[chain[at]].size - size, INVALID, INVALID, INVALID, INVALID, false))
    requires |nodes2| == |nodes| && forall k :: 0 <= k < |nodes| ==> SameListing(nodes'[k], nodes2[k])
    ensures SegmentsOf(nodes2, [chain[at], rest]) == Carved(SegmentsOf(nodes, chain)[at], size, rest)
  {
    var mid := [chain[at], rest];
    assert SameListing(nodes'[chain[at]], nodes2[chain[at]]) && SameListing(nodes'[rest], nodes2[rest]);
    assert SegmentsOf(nodes, chain)[at] == SegmentAt(nodes, chain, at);
    assert SegmentsOf(nodes2, mid) == [SegmentAt(nodes2, mid, 0), SegmentAt(nodes2, mid, 1)];
  }

  lemma SliceSplitSplices(nodes: seq<Node>, nodes': seq<Node>, nodes2: seq<Node>, chain: seq<int>, chain2: seq<int>,
    at: nat, b: nat, rest: int, size: nat, capacity: nat)
    requires SplitEdit(nodes, nodes', nodes2, chain, chain2, at, b, rest, size, capacity)
    ensures SpliceOk(nodes, nodes2, chain, at, b, [chain[at], rest], capacity)
  {
    var mid := [chain[at], rest];
    assert Linked(nodes, chain, capacity, at);
    forall i | 0 <= i < |chain| && i != at ensures Kept(nodes, nodes2, chain, at, b, mid, i) {
      assert Linked(nodes, chain, capacity, i);
    }
    if at > 0 {
      assert Linked(nodes, chain, capacity, at - 1);
    }
  }

  lemma SliceSplitLinks(nodes: seq<Node>, nodes': seq<Node>, nodes2: seq<Node>, chain: seq<int>, chain2: seq<int>,
    at: nat, b: nat, rest: int, size: nat, capacity: nat)
    requires SplitEdit(nodes, nodes', nodes2, chain, chain2, at, b, rest, size, capacity)
    requires InTable(nodes2, chain2)
    ensures Linked(nodes2, chain2, capacity, at)
    ensures Linked(nodes2, chain2, capacity, b)
  {
    assert Linked(nodes, chain, capacity, at);
    assert chain2[at] == chain[at] && chain2[b] == rest;
    assert at > 0 ==> chain2[at - 1] == chain[at - 1];
    if b < |chain| {
      assert chain2[b + 1] == chain[b];
      assert SameBlock(nodes'[chain[b]], nodes[chain[b]]);
    }
  }

  /** The neighbour writes at the end of `free`. */
  function MergeLinks(nodes: seq<Node>, id: int, prev: int, next: int): seq<Node>
    requires 0 <= id < |nodes|
    requires (prev != INVALID ==> 0 <= prev < |nodes|) && (next != INVALID ==> 0 <= next < |nodes|)
  {
    var nodes1 := nodes[id := nodes[id].(neighborPrev := prev, neighborNext := next)];
    var nodes2 := if next != INVALID then nodes1[next := nodes1[next].(neighborPrev := id)] else nodes1;
    if prev != INVALID then nodes2[prev := nodes2[prev].(neighborNext := id)] else nodes2
  }

  /** The stretch `[a, b)` of the chain around position `i` that `free` merges. */
  ghost predicate MergeRange(nodes: seq<Node>, chain: seq<int>, i: nat, a: nat, b: nat)
    requires InTable(nodes, chain) && i < |chain|
  {
    && (a == if i > 0 && !nodes[chain[i - 1]].used then i - 1 else i)
    && (b == if i + 1 < |chain| && !nodes[chain[i + 1]].used then i + 2 else i + 1)
  }

  /** The end of the stretch of memory before chain position `i`. */
  ghost function Bound(nodes: seq<Node>, chain: seq<int>, capacity: nat, i: nat): nat
    requires InTable(nodes, chain) && i <= |chain|
  {
    if i == |chain| then capacity else nodes[chain[i]].offset
  }

  /** The node writes of `free` before relinking: one fresh free node over the whole stretch. */
  ghost predicate MergeShape(nodes: seq<Node>, nodes': seq<Node>, chain: seq<int>, i: nat, a: nat, b: nat,
    capacity: nat)
  {
    && ChainOk(nodes, chain, capacity) && i < |chain| && nodes[chain[i]].used
    && MergeRange(nodes, chain, i, a, b)
    && |nodes'| == |nodes|
    && (forall k :: 0 <= k < |nodes| && k != chain[i] ==> SameBlock(nodes'[k], nodes[k]))
    && Bound(nodes, chain, capacity, a) <= Bound(nodes, chain, capacity, b)
    && SameBlock(nodes'[chain[i]],
         Node(Bound(nodes, chain, capacity, a), Bound(nodes, chain, capacity, b) - Bound(nodes, chain, capacity, a),
              INVALID, INVALID, INVALID, INVALID, false))
  }

  /** The relinked outcome of a merge. */
  ghost predicate MergeEdit(nodes: seq<Node>, nodes': seq<Node>, nodes2: seq<Node>, chain: seq<int>, chain2: seq<int>,
    i: nat, a: nat, b: nat, prev: int, next: int, capacity: nat)
  {
    && MergeShape(nodes, nodes', chain, i, a, b, capacity)
    && prev == (if a == 0 then INVALID else chain[a - 1])
    && next == (if b == |chain| then INVALID else chain[b])
    && nodes2 == MergeLinks(nodes', chain[i], prev, next)
    && chain2 == Spliced(chain, a, b, [chain[i]])
  }

  /** Freeing merges the stretch `[a, b)` around `chain[i]` into one free block under the same id. */
  lemma MergeBlocks(nodes: seq<Node>, nodes': seq<Node>, nodes2: seq<Node>, chain: seq<int>, chain2: seq<int>, i: nat,
    a: nat, b: nat, prev: int, next: int, capacity: nat)
    requires MergeEdit(nodes, nodes', nodes2, chain, chain2, i, a, b, prev, next, capacity)
    ensures |nodes2| == |nodes| && ChainOk(nodes2, chain2, capacity)
    ensures FreeSum(nodes2, chain2) + FreeSum(nodes, chain[a..b])
         == FreeSum(nodes, chain) + Bound(nodes, chain, capacity, b) - Bound(nodes, chain, capacity, a)
    ensures SegmentsOf(nodes2, chain2)
         == Spliced(SegmentsOf(nodes, chain), a, b, [MergedSegment(nodes, chain, i, a, b, capacity)])
    ensures forall k :: 0 <= k < |nodes| ==> SameListing(nodes'[k], nodes2[k])
  {
    hide Linked, Kept, FreeSum, SegmentsOf, SameBlock;
    MergeLinksListing(nodes', chain[i], prev, next);
    SplicedIds(nodes2, chain, a, b, [chain[i]]);
    MergeSplices(nodes, nodes', nodes2, chain, chain2, i, a, b, prev, next, capacity);
    MergedLink(nodes, nodes', nodes2, chain, chain2, i, a, b, prev, next, capacity);
    MergedMiddle(nodes, nodes', nodes2, chain, i, a, b, capacity);
    SpliceAll(nodes, nodes2, chain, a, b, [chain[i]], capacity);
  }

  ghost function MergedSegment(nodes: seq<Node>, chain: seq<int>, i: nat, a: nat, b: nat, capacity: nat): Segment
    requires InTable(nodes, chain) && i < |chain| && a <= |chain| && b <= |chain|
    requires Bound(nodes, chain, capacity, a) <= Bound(nodes, chain, capacity, b)
  {
    Segment(Bound(nodes, chain, capacity, a), Bound(nodes, chain, capacity, b) - Bound(nodes, chain, capacity, a),
      false, chain[i])
  }

  lemma MergedMiddle(nodes: seq<Node>, nodes': seq<Node>, nodes2: seq<Node>, chain: seq<int>, i: nat, a: nat, b: nat,
    capacity: nat)
    requires MergeShape(nodes, nodes', chain, i, a, b, capacity)
    requires |nodes2| == |nodes| && SameListing(nodes'[chain[i]], nodes2[chain[i]])
    ensures FreeSum(nodes2, [chain[i]]) == Bound(nodes, chain, capacity, b) - Bound(nodes, chain, capacity, a)
    ensures SegmentsOf(nodes2, [chain[i]]) == [MergedSegment(nodes, chain, i, a, b, capacity)]
  {
    var mid := [chain[i]];
    FreeSumOne(nodes2, chain[i]);
    assert SegmentsOf(nodes2, mid) == [SegmentAt(nodes2, mid, 0)];
  }

  lemma MergeLinksListing(nodes: seq<Node>, id: int, prev: int, next: int)
    requires 0 <= id < |nodes|
    requires (prev != INVALID ==> 0 <= prev < |nodes|) && (next != INVALID ==> 0 <= next < |nodes|)
    ensures |MergeLinks(nodes, id, prev, next)| == |nodes|
    ensures forall k :: 0 <= k < |nodes| ==> SameListing(nodes[k], MergeLinks(nodes, id, prev, next)[k])
  {
  }

  lemma MergedLink(nodes: seq<Node>, nodes': seq<Node>, nodes2: seq<Node>, chain: seq<int>, chain2: seq<int>, i: nat,
    a: nat, b: nat, prev: int, next: int, capacity: nat)
    requires MergeEdit(nodes, nodes', nodes2, chain, chain2, i, a, b, prev, next, capacity)
    requires InTable(nodes2, chain2)
    ensures Linked(nodes2, chain2, capacity, a)
  {
    MergeSeams(nodes, chain, i, a, b, capacity);
    assert chain2[a] == chain[i];
    assert a > 0 ==> chain2[a - 1] == chain[a - 1];
    if b < |chain| {
      assert chain2[a + 1] == chain[b];
      assert SameBlock(nodes'[chain[b]], nodes[chain[b]]);
    }
  }

  /** The blocks on both sides of a merged stretch are in use. */
  lemma MergeSeams(nodes: seq<Node>, chain: seq<int>, i: nat, a: nat, b: nat, capacity: nat)
    requires ChainOk(nodes, chain, capacity) && i < |chain| && nodes[chain[i]].used && MergeRange(nodes, chain, i, a, b)
    ensures a > 0 ==> nodes[chain[a - 1]].used
    ensures b < |chain| ==> nodes[chain[b]].used
  {
    if a > 0 {
      assert Linked(nodes, chain, capacity, a - 1);
    }
    assert Linked(nodes, chain, capacity, b - 1);
  }

  lemma MergeSplices(nodes: seq<Node>, nodes': seq<Node>, nodes2: seq<Node>, chain: seq<int>, chain2: seq<int>, i: nat,
    a: nat, b: nat, prev: int, next: int, capacity: nat)
    requires MergeEdit(nodes, nodes', nodes2, chain, chain2, i, a, b, prev, next, capacity)
    ensures SpliceOk(nodes, nodes2, chain, a, b, [chain[i]], capacity)
  {
    var mid := [chain[i]];
    forall k | 0 <= k < |chain| && !(a <= k < b) ensures Kept(nodes, nodes2, chain, a, b, mid, k) {
      assert Linked(nodes, chain, capacity, k);
    }
    MergeSeams(nodes, chain, i, a, b, capacity);
  }

  /** The size that `free` adds up is the length of the stretch, and only its neighbours' part was counted as free. */
  lemma MergeSizes(nodes: seq<Node>, chain: seq<int>, i: nat, a: nat, b: nat, capacity: nat)
    requires ChainOk(nodes, chain, capacity) && i < |chain| && nodes[chain[i]].used && MergeRange(nodes, chain, i, a, b)
    ensures var before := if a < i then nodes[chain[i - 1]].size else 0;
      var after := if i + 1 < b then nodes[chain[i + 1]].size else 0;
      && before + after == FreeSum(nodes, chain[a..b]) <= FreeSum(nodes, chain)
      && Bound(nodes, chain, capacity, a) + before + nodes[chain[i]].size + after
        == Bound(nodes, chain, capacity, b) <= capacity
  {
    MergeFree(nodes, chain, i, a, b);
    SplitFreeSum(nodes, chain, a, b);
    assert Linked(nodes, chain, capacity, i);
    if a < i {
      assert Linked(nodes, chain, capacity, i - 1);
    }
    if i + 1 < b {
      assert Linked(nodes, chain, capacity, i + 1);
    }
    if b < |chain| {
      ChainInside(nodes, chain, capacity, b);
    }
  }

  lemma MergeFree(nodes: seq<Node>, chain: seq<int>, i: nat, a: nat, b: nat)
    requires InTable(nodes, chain) && i < |chain| && nodes[chain[i]].used && MergeRange(nodes, chain, i, a, b)
    ensures FreeSum(nodes, chain[a..b])
         == (if a < i then nodes[chain[i - 1]].size else 0) + (if i + 1 < b then nodes[chain[i + 1]].size else 0)
  {
    var before, after := chain[a..i], chain[i + 1..b];
    assert chain[a..b] == before + [chain[i]] + after;
    FreeSumConcat(nodes, before, [chain[i]]);
    FreeSumConcat(nodes, before + [chain[i]], after);
    FreeSumOne(nodes, chain[i]);
    if a < i {
      assert before == [chain[i - 1]];
      FreeSumOne(nodes, chain[i - 1]);
    }
    if i + 1 < b {
      assert after == [chain[i + 1]];
      FreeSumOne(nodes, chain[i + 1]);
    }
  }

  /** Slicing adds exactly the new block to what callers hold. */
  lemma SliceLive(nodes: seq<Node>, nodes': seq<Node>, chain: seq<int>, chain': seq<int>, at: nat, size: nat)
    requires InTable(nodes, chain) && InTable(nodes', chain') && |nodes| == |nodes'| && at < |chain|
    requires !nodes[chain[at]].used && chain[at] in chain'
    requires nodes'[chain[at]].used && nodes'[chain[at]].offset == nodes[chain[at]].offset &&
      nodes'[chain[at]].size == size
    requires forall x :: x in chain && x != chain[at] ==> x in chain' && SameExtent(nodes'[x], nodes[x])
    requires forall x :: x in chain' && x !in chain ==> !nodes'[x].used
    ensures chain[at] !in LiveOf(nodes, chain)
    ensures LiveOf(nodes', chain') == LiveOf(nodes, chain)[chain[at] := Block(nodes[chain[at]].offset, size)]
  {
  }

  /** Freeing takes exactly the freed block from what callers hold. */
  lemma MergeLive(nodes: seq<Node>, nodes': seq<Node>, chain: seq<int>, chain': seq<int>, id: int)
    requires InTable(nodes, chain) && InTable(nodes', chain') && |nodes| == |nodes'| && 0 <= id < |nodes|
    requires !nodes'[id].used
    requires forall x :: x in chain && x != id && nodes[x].used ==> x in chain'
    requires forall x :: x in chain' && x != id ==> x in chain && SameExtent(nodes'[x], nodes[x])
    ensures LiveOf(nodes', chain') == LiveOf(nodes, chain) - {id}
  {
  }

  /** Every node marked used is on the chain. */
  ghost predicate UsedOnChain(nodes: seq<Node>, chain: seq<int>) {
    forall k :: 0 <= k < |nodes| && nodes[k].used ==> k in chain
  }

  /** The whole effect of an allocation on the memory: block `at` is carved, callers gain its front. */
  ghost predicate Sliced(nodes: seq<Node>, chain: seq<int>, nodes': seq<Node>, chain': seq<int>, at: nat, size: nat,
    rest: int)
  {
    && InTable(nodes, chain) && InTable(nodes', chain') && at < |chain| && size <= nodes[chain[at]].size
    && rest !in chain
    && chain[at] !in LiveOf(nodes, chain)
    && SegmentsOf(nodes', chain')
      == Spliced(SegmentsOf(nodes, chain), at, at + 1, Carved(SegmentsOf(nodes, chain)[at], size, rest))
    && LiveOf(nodes', chain') == LiveOf(nodes, chain)[chain[at] := Block(nodes[chain[at]].offset, size)]
  }

  lemma WholeOutcome(nodes: seq<Node>, nodes': seq<Node>, chain: seq<int>, at: nat, rest: int, capacity: nat)
    requires InTable(nodes, chain) && at < |chain| &&
      SliceShape(nodes, nodes', chain, at, INVALID, nodes[chain[at]].size, capacity)
    requires UsedOnChain(nodes, chain) && rest !in chain
    ensures ChainOk(nodes', chain, capacity) && UsedOnChain(nodes', chain)
    ensures FreeSum(nodes', chain) + nodes[chain[at]].size == FreeSum(nodes, chain)
    ensures Sliced(nodes, chain, nodes', chain, at, nodes[chain[at]].size, rest)
  {
    SliceWhole(nodes, nodes', chain, at, capacity);
    forall x | x in chain && x != chain[at] ensures SameExtent(nodes'[x], nodes[x]) {
      assert SameBlock(nodes'[x], nodes[x]);
    }
    SliceLive(nodes, nodes', chain, chain, at, nodes[chain[at]].size);
    forall k | 0 <= k < |nodes'| && nodes'[k].used ensures k in chain {
      assert k != chain[at] ==> SameBlock(nodes'[k], nodes[k]);
    }
  }

  lemma SplitOutcome(nodes: seq<Node>, nodes': seq<Node>, nodes2: seq<Node>, chain: seq<int>, chain2: seq<int>, at: nat,
    b: nat, rest: int, size: nat, capacity: nat)
    requires SplitEdit(nodes, nodes', nodes2, chain, chain2, at, b, rest, size, capacity)
    requires UsedOnChain(nodes, chain)
    ensures |nodes2| == |nodes| && ChainOk(nodes2, chain2, capacity) && UsedOnChain(nodes2, chain2)
    ensures FreeSum(nodes2, chain2) + size == FreeSum(nodes, chain)
    ensures Sliced(nodes, chain, nodes2, chain2, at, size, rest)
    ensures Elements(chain2) == Elements(chain) + {rest}
    ensures forall k :: 0 <= k < |nodes| ==> SameListing(nodes'[k], nodes2[k])
  {
    hide Linked, FreeSum, SameBlock, SliceLinks, LiveOf, Spliced, Carved, SegmentsOf, Kept, SameListing;
    SliceSplit(nodes, nodes', nodes2, chain, chain2, at, b, rest, size, capacity);
    SplitElements(nodes2, chain, at, b, rest);
    SplitExtents(nodes, nodes', nodes2, chain, at, rest, size, capacity);
    SliceLive(nodes, nodes2, chain, chain2, at, size);
  }

  lemma SplitElements(nodes': seq<Node>, chain: seq<int>, at: nat, b: nat, rest: int)
    requires at < |chain| && b == at + 1 && Distinct(chain)
    ensures var chain2 := Spliced(chain, at, b, [chain[at], rest]);
      && Elements(chain2) == Elements(chain) + {rest}
      && forall x :: x in chain2 <==> x in chain || x == rest
  {
    var chain2 := Spliced(chain, at, b, [chain[at], rest]);
    SplicedElements(nodes', chain, at, b, [chain[at], rest]);
    assert chain[at..b] == [chain[at]];
    assert forall x :: x in chain2 <==> x in Elements(chain2);
    assert forall x :: x in chain <==> x in Elements(chain);
  }

  lemma SplitExtents(nodes: seq<Node>, nodes': seq<Node>, nodes2: seq<Node>, chain: seq<int>, at: nat, rest: int,
    size: nat, capacity: nat)
    requires SliceShape(nodes, nodes', chain, at, rest, size, capacity) && 0 <= rest < |nodes|
    requires SameBlock(nodes'[rest],
      Node(nodes[chain[at]].offset + size, nodes[chain[at]].size - size, INVALID, INVALID, INVALID, INVALID, false))
    requires |nodes2| == |nodes| && forall k :: 0 <= k < |nodes| ==> SameListing(nodes'[k], nodes2[k])
    ensures forall k :: 0 <= k < |nodes| && k != chain[at] && k != rest ==> SameExtent(nodes2[k], nodes[k])
    ensures !nodes2[rest].used
    ensures SameExtent(nodes2[chain[at]], nodes[chain[at]].(size := size, used := true))
  {
    forall k | 0 <= k < |nodes| && k != chain[at] && k != rest ensures SameExtent(nodes2[k], nodes[k]) {
      assert SameBlock(nodes'[k], nodes[k]) && SameListing(nodes'[k], nodes2[k]);
    }
    assert SameListing(nodes'[rest], nodes2[rest]) && SameListing(nodes'[chain[at]], nodes2[chain[at]]);
  }

  lemma FreeBlockCounted(nodes: seq<Node>, chain: seq<int>, at: nat, capacity: nat)
    requires ChainOk(nodes, chain, capacity) && at < |chain| && !nodes[chain[at]].used
    ensures nodes[chain[at]].size <= FreeSum(nodes, chain)
    ensures nodes[chain[at]].offset + nodes[chain[at]].size <= capacity
  {
    SplitFreeSum(nodes, chain, at, at + 1);
    assert chain[at..at + 1] == [chain[at]];
    FreeSumOne(nodes, chain[at]);
    ChainInside(nodes, chain, capacity, at);
  }

  lemma RestFits(nodes: seq<Node>, nodes': seq<Node>, chain: seq<int>, at: nat, size: nat, capacity: nat, w: nat)
    requires SliceShape(nodes, nodes', chain, at, INVALID, size, capacity) && capacity < Pow2(w)
    ensures 0 <= chain[at] < |nodes'|
    ensures nodes'[chain[at]].offset == nodes[chain[at]].offset
    ensures nodes[chain[at]].size - size < Pow2(w)
  {
    ChainInside(nodes, chain, capacity, at);
  }

  /** Inserting the remainder after taking the block is the two-node write of a split. */
  lemma RestShape(nodes: seq<Node>, nodes1: seq<Node>, nodes2: seq<Node>, chain: seq<int>, at: nat, rest: int,
    size: nat, capacity: nat)
    requires SliceShape(nodes, nodes1, chain, at, INVALID, size, capacity) && rest !in Elements(chain)
    requires |nodes2| == |nodes1| && forall k :: 0 <= k < |nodes1| && k != rest ==> SameBlock(nodes2[k], nodes1[k])
    ensures SliceShape(nodes, nodes2, chain, at, rest, size, capacity)
  {
    assert chain[at] in chain;
  }

  /** The whole effect of a free on the memory: the stretch `[a, b)` around block `i` is one free block,
      and callers lose exactly block `i`. */
  ghost predicate Merged(nodes: seq<Node>, chain: seq<int>, nodes': seq<Node>, chain': seq<int>, i: nat, a: nat, b: nat,
    capacity: nat)
  {
    && InTable(nodes, chain) && InTable(nodes', chain') && i < |chain| && a <= i < b <= |chain|
    && MergeRange(nodes, chain, i, a, b)
    && Bound(nodes, chain, capacity, a) <= Bound(nodes, chain, capacity, b)
    && SegmentsOf(nodes', chain')
      == Spliced(SegmentsOf(nodes, chain), a, b, [MergedSegment(nodes, chain, i, a, b, capacity)])
    && LiveOf(nodes', chain') == LiveOf(nodes, chain) - {chain[i]}
  }

  lemma MergeOutcome(nodes: seq<Node>, nodes': seq<Node>, nodes2: seq<Node>, chain: seq<int>, chain2: seq<int>, i: nat,
    a: nat, b: nat, prev: int, next: int, capacity: nat)
    requires MergeEdit(nodes, nodes', nodes2, chain, chain2, i, a, b, prev, next, capacity)
    requires UsedOnChain(nodes, chain)
    ensures |nodes2| == |nodes| && ChainOk(nodes2, chain2, capacity) && UsedOnChain(nodes2, chain2)
    ensures FreeSum(nodes2, chain2) + FreeSum(nodes, chain[a..b])
         == FreeSum(nodes, chain) + Bound(nodes, chain, capacity, b) - Bound(nodes, chain, capacity, a)
    ensures Merged(nodes, chain, nodes2, chain2, i, a, b, capacity)
    ensures forall k :: 0 <= k < |nodes| ==> SameListing(nodes'[k], nodes2[k])
  {
    hide Linked, FreeSum, SameBlock, MergeLinks, LiveOf, Spliced, SegmentsOf, Kept, SameListing, MergedSegment;
    MergeBlocks(nodes, nodes', nodes2, chain, chain2, i, a, b, prev, next, capacity);
    MergedExtents(nodes, nodes', nodes2, chain, i, a, b, capacity);
    MergeMembers(nodes, chain, i, a, b);
    MergeLive(nodes, nodes2, chain, chain2, chain[i]);
  }

  lemma MergedExtents(nodes: seq<Node>, nodes': seq<Node>, nodes2: seq<Node>, chain: seq<int>, i: nat, a: nat, b: nat,
    capacity: nat)
    requires MergeShape(nodes, nodes', chain, i, a, b, capacity)
    requires |nodes2| == |nodes| && forall k :: 0 <= k < |nodes| ==> SameListing(nodes'[k], nodes2[k])
    ensures forall k :: 0 <= k < |nodes| && k != chain[i] ==> SameExtent(nodes2[k], nodes[k])
    ensures !nodes2[chain[i]].used
  {
    forall k | 0 <= k < |nodes| && k != chain[i] ensures SameExtent(nodes2[k], nodes[k]) {
      assert SameBlock(nodes'[k], nodes[k]) && SameListing(nodes'[k], nodes2[k]);
    }
    assert SameListing(nodes'[chain[i]], nodes2[chain[i]]);
  }

  lemma StretchElements(chain: seq<int>, i: nat, a: nat, b: nat)
    requires i < |chain| && (a == i || a + 1 == i) && (b == i + 1 || b == i + 2) && b <= |chain|
    ensures Elements(chain[a..b])
      == (if a < i then {chain[i - 1]} else {}) + {chain[i]} + (if i + 1 < b then {chain[i + 1]} else {})
  {
    var s := chain[a..b];
    assert s[i - a] == chain[i];
    assert a < i ==> s[0] == chain[i - 1];
    assert i + 1 < b ==> s[i + 1 - a] == chain[i + 1];
  }

  /** The ids on the chain after a merge: the absorbed neighbours, which were free, are gone. */
  lemma MergeMembers(nodes: seq<Node>, chain: seq<int>, i: nat, a: nat, b: nat)
    requires InTable(nodes, chain) && Distinct(chain) && i < |chain| && nodes[chain[i]].used &&
      MergeRange(nodes, chain, i, a, b)
    ensures var chain2 := Spliced(chain, a, b, [chain[i]]);
      && (forall x :: x in chain2 ==> x in chain)
      && (forall x :: x in chain && nodes[x].used ==> x in chain2)
      && Elements(chain2)
        == Elements(chain) - (if a < i then {chain[i - 1]} else {}) - (if i + 1 < b then {chain[i + 1]} else {})
  {
    hide Spliced;
    var chain2 := Spliced(chain, a, b, [chain[i]]);
    SplicedElements(nodes, chain, a, b, [chain[i]]);
    StretchElements(chain, i, a, b);
    MergeSets(Elements(chain), Elements(chain2), if a < i then {chain[i - 1]} else {}, chain[i],
      if i + 1 < b then {chain[i + 1]} else {});
    assert forall x :: x in chain2 <==> x in Elements(chain2);
    assert forall x :: x in chain <==> x in Elements(chain);
  }

  lemma MergeSets(s: set<int>, t: set<int>, l: set<int>, x: int, r: set<int>)
    requires t == s - (l + {x} + r) + {x} && x in s && x !in l && x !in r
    ensures t == s - l - r
  {
  }

  lemma FreeRange(nodes: seq<Node>, chain: seq<int>, id: int) returns (i: nat, a: nat, b: nat)
    requires InTable(nodes, chain) && id in LiveOf(nodes, chain)
    ensures i < |chain| && chain[i] == id && nodes[id].used
    ensures MergeRange(nodes, chain, i, a, b) && a <= i < b <= |chain|
  {
    i :| 0 <= i < |chain| && chain[i] == id;
    a := if i > 0 && !nodes[chain[i - 1]].used then i - 1 else i;
    b := if i + 1 < |chain| && !nodes[chain[i + 1]].used then i + 2 else i + 1;
  }

  /** The links that `free` follows, two steps in both directions. */
  lemma LinksOfBlock(nodes: seq<Node>, chain: seq<int>, capacity: nat, i: nat)
    requires ChainOk(nodes, chain, capacity) && i < |chain|
    ensures nodes[chain[i]].neighborPrev == if i == 0 then INVALID else chain[i - 1]
    ensures nodes[chain[i]].neighborNext == if i + 1 == |chain| then INVALID else chain[i + 1]
    ensures i > 0 ==> nodes[chain[i - 1]].neighborPrev == if i == 1 then INVALID else chain[i - 2]
    ensures i + 1 < |chain| ==> nodes[chain[i + 1]].neighborNext == if i + 2 == |chain| then INVALID else chain[i + 2]
  {
    assert Linked(nodes, chain, capacity, i);
    if i > 0 {
      assert Linked(nodes, chain, capacity, i - 1);
    }
    if i + 1 < |chain| {
      assert Linked(nodes, chain, capacity, i + 1);
    }
  }

  lemma MergeShapeHolds(nodes: seq<Node>, nodes1: seq<Node>, nodes2: seq<Node>, chain: seq<int>, i: nat, a: nat, b: nat,
    capacity: nat)
    requires ChainOk(nodes, chain, capacity) && i < |chain| && nodes[chain[i]].used && MergeRange(nodes, chain, i, a, b)
    requires |nodes1| == |nodes2| == |nodes|
    requires forall k :: 0 <= k < |nodes| ==> SameBlock(nodes1[k], nodes[k])
    requires forall k :: 0 <= k < |nodes| && k != chain[i] ==> SameBlock(nodes2[k], nodes1[k])
    requires Bound(nodes, chain, capacity, a) <= Bound(nodes, chain, capacity, b)
    requires SameBlock(nodes2[chain[i]],
      Node(Bound(nodes, chain, capacity, a), Bound(nodes, chain, capacity, b) - Bound(nodes, chain, capacity, a),
           INVALID, INVALID, INVALID, INVALID, false))
    ensures MergeShape(nodes, nodes2, chain, i, a, b, capacity)
  {
    forall k | 0 <= k < |nodes| && k != chain[i] ensures SameBlock(nodes2[k], nodes[k]) {
      assert SameBlock(nodes2[k], nodes1[k]) && SameBlock(nodes1[k], nodes[k]);
    }
  }
}
