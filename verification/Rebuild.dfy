/** What a defragmentation rebuilds: the order of the used nodes, the id stack and the free space behind them. */
module Rebuild {
  import opened Collections
  import opened TinyFloat
  import opened Nodes
  import opened Edits
  import opened Bins
  import opened Compaction

  // ----- the id stack -----

  /** The ids below `k` whose node is in use, in increasing order. */
  function UsedIds(nodes: seq<Node>, k: nat): (ids: seq<int>)
    requires k <= |nodes|
    ensures forall x :: x in ids <==> 0 <= x < k && nodes[x].used
    ensures forall i :: 0 <= i < |ids| ==> 0 <= ids[i] < k
    ensures forall i, j :: 0 <= i < j < |ids| ==> ids[i] < ids[j]
  {
    if k == 0 then [] else UsedIds(nodes, k - 1) + if nodes[k - 1].used then [k - 1] else []
  }

  function UnusedIds(nodes: seq<Node>, k: nat): (ids: seq<int>)
    requires k <= |nodes|
    ensures forall x :: x in ids <==> 0 <= x < k && !nodes[x].used
    ensures |ids| + |UsedIds(nodes, k)| == k
  {
    if k == 0 then [] else UnusedIds(nodes, k - 1) + if nodes[k - 1].used then [] else [k - 1]
  }

  /** The unused ids come in increasing order. */
  lemma {:induction false} UnusedIncrease(nodes: seq<Node>, k: nat)
    requires k <= |nodes|
    ensures forall i, j :: 0 <= i < j < |UnusedIds(nodes, k)| ==> UnusedIds(nodes, k)[i] < UnusedIds(nodes, k)[j]
  {
    if k > 0 {
      UnusedIncrease(nodes, k - 1);
      var ids := UnusedIds(nodes, k - 1);
      assert forall i :: 0 <= i < |ids| ==> ids[i] in ids;
    }
  }

  /** The stack after `defragment` has looked at the nodes below `k`: the unused ids among them are written from the
      bottom, and everything from their count upwards, where ids are popped from, is left as it was. */
  function RestackedTo(nodes: seq<Node>, freeNodes: seq<int>, k: nat): (stack: seq<int>)
    requires |freeNodes| == |nodes| && k <= |nodes|
    ensures |stack| == |nodes| && |UnusedIds(nodes, k)| <= k
  {
    UnusedIds(nodes, k) + freeNodes[|UnusedIds(nodes, k)|..]
  }

  function Restacked(nodes: seq<Node>, freeNodes: seq<int>): (stack: seq<int>)
    requires |freeNodes| == |nodes|
    ensures |stack| == |nodes|
  {
    RestackedTo(nodes, freeNodes, |nodes|)
  }

  /** The first id that a defragmented allocator pops is the stale entry at the number of unused ids,
      so it is a spare id exactly when there is a used node at all and that entry does not name one. */
  lemma FirstPoppedIsSpare(nodes: seq<Node>, freeNodes: seq<int>)
    requires |freeNodes| == |nodes| && InTable(nodes, freeNodes)
    ensures var ptr := |UnusedIds(nodes, |nodes|)|;
      && (ptr < |nodes| <==> UsedIds(nodes, |nodes|) != [])
      && (ptr < |nodes| ==>
        (Restacked(nodes, freeNodes)[ptr] in UnusedIds(nodes, |nodes|) <==> !nodes[freeNodes[ptr]].used))
  {
  }

  /** The next `count` ids to be popped from a stack. */
  function Popped(stack: seq<int>, ptr: nat, count: nat): seq<int>
    requires ptr + count <= |stack|
  {
    stack[ptr..ptr + count]
  }

  /** A defragmentation that pops `count` ids gets distinct ids of unused nodes exactly when the stack it starts from
      has that many entries above the number of unused nodes, and those are distinct and spare. */
  lemma PopsAreSpare(nodes: seq<Node>, freeNodes: seq<int>, count: nat)
    requires |freeNodes| == |nodes| && InTable(nodes, freeNodes)
    ensures var ptr := |UnusedIds(nodes, |nodes|)|;
      FreshPops(nodes, freeNodes, ptr, count) <==>
        (ptr + count <= |nodes| && Distinct(Popped(Restacked(nodes, freeNodes), ptr, count))
         && forall x :: x in Popped(Restacked(nodes, freeNodes), ptr, count) ==> x in UnusedIds(nodes, |nodes|))
  {
    hide UnusedIds, UsedIds;
    var ptr := |UnusedIds(nodes, |nodes|)|;
    if ptr + count <= |nodes| {
      assert Popped(Restacked(nodes, freeNodes), ptr, count) == Popped(freeNodes, ptr, count);
      FreshStretch(nodes, freeNodes, ptr, count);
    }
  }

  lemma FreshStretch(nodes: seq<Node>, stack: seq<int>, ptr: nat, count: nat)
    requires |stack| == |nodes| && ptr + count <= |nodes| && InTable(nodes, stack)
    ensures FreshPops(nodes, stack, ptr, count) <==>
      (Distinct(Popped(stack, ptr, count)) && forall x :: x in Popped(stack, ptr, count) ==>
        0 <= x < |nodes| && !nodes[x].used)
  {
    var popped := Popped(stack, ptr, count);
    if Distinct(popped) && forall x :: x in popped ==> 0 <= x < |nodes| && !nodes[x].used {
      forall k | ptr <= k < ptr + count ensures !nodes[stack[k]].used {
        assert popped[k - ptr] in popped;
      }
      forall k, l | ptr <= k < l < ptr + count ensures stack[k] != stack[l] {
        assert popped[k - ptr] != popped[l - ptr];
      }
    }
  }

  lemma RestackStep(nodes: seq<Node>, freeNodes: seq<int>, k: nat)
    requires |freeNodes| == |nodes| && k < |nodes|
    ensures UsedIds(nodes, k + 1) == if nodes[k].used then UsedIds(nodes, k) + [k] else UsedIds(nodes, k)
    ensures UnusedIds(nodes, k + 1) == if nodes[k].used then UnusedIds(nodes, k) else UnusedIds(nodes, k) + [k]
    ensures RestackedTo(nodes, freeNodes, k + 1) ==
      if nodes[k].used then RestackedTo(nodes, freeNodes, k)
        else RestackedTo(nodes, freeNodes, k)[|UnusedIds(nodes, k)| := k]
  {
    Overwrite(UnusedIds(nodes, k), freeNodes, k);
  }

  lemma Overwrite(written: seq<int>, stack: seq<int>, x: int)
    requires |written| < |stack|
    ensures (written + stack[|written|..])[|written| := x] == written + [x] + stack[|written| + 1..]
  {
  }

  // ----- the rebuilt chain -----

  /** Compacted nodes tile the memory up to their total size. */
  lemma CompactedTiles(nodes: seq<Node>, nodes': seq<Node>, ids: seq<int>)
    requires InTable(nodes, ids) && Distinct(ids) && |nodes'| == |nodes|
    requires forall i :: 0 <= i < |ids| ==> InPlace(nodes, nodes', ids, i)
    ensures TiledTo(nodes', ids, Pos(BlocksOf(nodes, ids), |ids|))
  {
    var blocks := BlocksOf(nodes, ids);
    assert ids != [] ==> InPlace(nodes, nodes', ids, 0);
    forall i | 0 <= i < |ids| ensures Tile(nodes', ids, Pos(blocks, |ids|), i) {
      assert InPlace(nodes, nodes', ids, i);
      assert i + 1 < |ids| ==> InPlace(nodes, nodes', ids, i + 1);
    }
  }

  /** The link writes that `reconstructFreeSpace` makes for a fresh node behind `prev`. */
  function Appended(nodes: seq<Node>, prev: int, id: int): seq<Node>
    requires 0 <= id < |nodes| && (prev != INVALID ==> 0 <= prev < |nodes|)
  {
    var nodes1 := nodes[id := nodes[id].(used := false, neighborPrev := prev)];
    if prev != INVALID then nodes1[prev := nodes1[prev].(neighborNext := id)] else nodes1
  }

  lemma AppendKeepsListing(nodes: seq<Node>, prev: int, id: int, size: nat, offset: nat)
    requires 0 <= id < |nodes| && (prev != INVALID ==> 0 <= prev < |nodes|)
    requires SameBlock(nodes[id], Node(offset, size, INVALID, INVALID, INVALID, INVALID, false))
    ensures !nodes[id].used
    ensures |Appended(nodes, prev, id)| == |nodes|
    ensures forall k :: 0 <= k < |nodes| ==> SameListing(nodes[k], Appended(nodes, prev, id)[k])
  {
  }

  /** A fresh free node behind the last tile. */
  lemma AppendTiles(nodes: seq<Node>, nodes': seq<Node>, ids: seq<int>, end: nat, id: int, size: nat)
    requires TiledTo(nodes, ids, end) && |nodes'| == |nodes| && id !in ids && 0 <= id < |nodes|
    requires SameBlock(nodes'[id], Node(end, size, INVALID, INVALID, INVALID, INVALID, false))
    requires forall k :: 0 <= k < |nodes| && k != id ==> SameBlock(nodes'[k], nodes[k])
    ensures TiledTo(Appended(nodes', if ids == [] then INVALID else ids[|ids| - 1], id), ids + [id], end + size)
  {
    var prev := if ids == [] then INVALID else ids[|ids| - 1];
    var nodes2, ids2, end2 := Appended(nodes', prev, id), ids + [id], end + size;
    forall i | 0 <= i < |ids2| ensures Tile(nodes2, ids2, end2, i) {
      if i < |ids| {
        assert Tile(nodes, ids, end, i);
        assert ids2[i] == ids[i] && SameBlock(nodes'[ids[i]], nodes[ids[i]]);
        assert i > 0 ==> ids2[i - 1] == ids[i - 1];
        if i + 1 < |ids| {
          assert ids2[i + 1] == ids[i + 1] && SameBlock(nodes'[ids[i + 1]], nodes[ids[i + 1]]);
        }
      }
    }
    assert ids != [] ==> SameBlock(nodes'[ids[0]], nodes[ids[0]]);
  }

  // ----- the order of the used nodes -----

  /** The used ids of the table, each once, sorted by offset; ties may come in any order. */
  ghost predicate SortedUsed(nodes: seq<Node>, order: seq<int>) {
    && InTable(nodes, order) && Distinct(order)
    && (forall x :: x in order <==> 0 <= x < |nodes| && nodes[x].used)
    && forall i, j :: 0 <= i < j < |order| ==> nodes[order[i]].offset <= nodes[order[j]].offset
  }

  /** Sorting by offset is enough for compaction: blocks with data come out in the order of the chain. */
  lemma SortedIsOrdered(nodes: seq<Node>, chain: seq<int>, capacity: nat, order: seq<int>)
    requires ChainOk(nodes, chain, capacity) && UsedOnChain(nodes, chain) && SortedUsed(nodes, order)
    ensures Ordered(BlocksOf(nodes, order)) && Inside(BlocksOf(nodes, order), capacity)
  {
    var blocks := BlocksOf(nodes, order);
    forall i | 0 <= i < |order| ensures order[i] in chain {
      assert order[i] in order;
    }
    forall i | 0 <= i < |blocks| ensures blocks[i].offset + blocks[i].size <= capacity {
      var p :| 0 <= p < |chain| && chain[p] == order[i];
      ChainInside(nodes, chain, capacity, p);
    }
    forall i, j | 0 <= i < j < |blocks| && blocks[i].size > 0 && blocks[j].size > 0
      ensures blocks[i].offset + blocks[i].size <= blocks[j].offset
    {
      var p :| 0 <= p < |chain| && chain[p] == order[i];
      var q :| 0 <= q < |chain| && chain[q] == order[j];
      if p < q {
        ChainOrdered(nodes, chain, capacity, p, q);
      } else {
        ChainOrdered(nodes, chain, capacity, q, p);
      }
    }
  }

  /** How many free blocks `reconstructFreeSpace` makes of `total` free elements. */
  ghost function Pieces(total: nat): nat {
    if total == 0 then 0 else if Value(FloorToFloat(total)) == total then 1 else 2
  }

  /** Node `x` is where compaction put block `i`. */
  predicate Relocated(nodes: seq<Node>, nodes': seq<Node>, order: seq<int>, i: nat)
    requires InTable(nodes, order) && |nodes'| == |nodes| && i < |order|
  {
    SameExtent(nodes'[order[i]], nodes[order[i]].(offset := Pos(BlocksOf(nodes, order), i)))
  }

  lemma CompactedRelocates(nodes: seq<Node>, nodes': seq<Node>, order: seq<int>)
    requires SortedUsed(nodes, order) && |nodes'| == |nodes|
    requires forall i :: 0 <= i < |order| ==> InPlace(nodes, nodes', order, i)
    requires forall k :: 0 <= k < |nodes| && k !in order ==> nodes'[k] == nodes[k]
    ensures forall i :: 0 <= i < |order| ==> Relocated(nodes, nodes', order, i)
    ensures forall x :: 0 <= x < |nodes| ==> nodes'[x].used == nodes[x].used
  {
    forall i | 0 <= i < |order|
      ensures Relocated(nodes, nodes', order, i) && nodes'[order[i]].used == nodes[order[i]].used
    {
      assert InPlace(nodes, nodes', order, i);
    }
    forall x | 0 <= x < |nodes| ensures nodes'[x].used == nodes[x].used {
      if x in order {
        var i :| 0 <= i < |order| && order[i] == x;
      }
    }
  }

  lemma NothingTiled(nodes: seq<Node>)
    ensures TiledTo(nodes, [], 0)
  {
  }

  /** The next `count` ids to be popped are in the table, spare and different. */
  predicate FreshPops(nodes: seq<Node>, freeNodes: seq<int>, ptr: nat, count: nat) {
    && |freeNodes| == |nodes| && ptr + count <= |nodes|
    && (forall k :: ptr <= k < ptr + count ==> 0 <= freeNodes[k] < |nodes| && !nodes[freeNodes[k]].used)
    && forall k, l :: ptr <= k < l < ptr + count ==> freeNodes[k] != freeNodes[l]
  }

  // ----- what the popped ids decide -----

  /** The nodes of the ids in `spare` are free blocks now, all others are where they were. */
  predicate FreeBlocksAt(nodes: seq<Node>, nodes': seq<Node>, spare: seq<int>) {
    && |nodes'| == |nodes|
    && (forall x :: x in spare ==> 0 <= x < |nodes| && !nodes'[x].used)
    && forall x :: 0 <= x < |nodes| && x !in spare ==> SameExtent(nodes'[x], nodes[x])
  }

  lemma FreeSameExtent(nodes: seq<Node>, id: int, size: nat, offset: nat)
    requires 0 <= id < |nodes| && SameExtent(nodes[id], Node(offset, size, INVALID, INVALID, INVALID, INVALID, false))
    ensures !nodes[id].used
  {
  }

  lemma NoFreeBlocks(nodes: seq<Node>)
    ensures FreeBlocksAt(nodes, nodes, [])
  {
  }

  lemma OneFreeBlock(nodes: seq<Node>, nodes': seq<Node>, id: int)
    requires |nodes'| == |nodes| && 0 <= id < |nodes| && !nodes'[id].used
    requires forall k :: 0 <= k < |nodes| && k != id ==> SameExtent(nodes'[k], nodes[k])
    ensures FreeBlocksAt(nodes, nodes', [id])
  {
  }

  lemma TwoFreeBlocks(nodes: seq<Node>, nodes1: seq<Node>, nodes2: seq<Node>, id: int, id2: int)
    requires |nodes2| == |nodes1| == |nodes| && 0 <= id < |nodes| && 0 <= id2 < |nodes|
    requires !nodes1[id].used && forall k :: 0 <= k < |nodes| && k != id ==> SameExtent(nodes1[k], nodes[k])
    requires !nodes2[id2].used && forall k :: 0 <= k < |nodes| && k != id2 ==> SameExtent(nodes2[k], nodes1[k])
    ensures FreeBlocksAt(nodes, nodes2, [id, id2])
  {
    forall k | 0 <= k < |nodes| && k !in [id, id2] ensures SameExtent(nodes2[k], nodes[k]) {
      assert k != id && k != id2;
      assert SameExtent(nodes1[k], nodes[k]) && SameExtent(nodes2[k], nodes1[k]);
    }
    assert id != id2 ==> SameExtent(nodes2[id], nodes1[id]);
  }

  lemma PoppedOne(stack: seq<int>, ptr: nat)
    requires ptr < |stack|
    ensures Popped(stack, ptr, 1) == [stack[ptr]]
  {
  }

  lemma PoppedTwo(stack: seq<int>, ptr: nat)
    requires ptr + 1 < |stack|
    ensures Popped(stack, ptr, 2) == [stack[ptr], stack[ptr + 1]]
  {
  }

  lemma NothingPopped(stack: seq<int>, ptr: nat)
    requires ptr <= |stack|
    ensures Popped(stack, ptr, 0) == []
  {
  }

  lemma DistinctAppend(s: seq<int>, t: seq<int>)
    ensures Distinct(s + t) <==> Distinct(s) && Distinct(t) && forall x :: x in t ==> x !in s
  {
    var all := s + t;
    assert forall i :: 0 <= i < |s| ==> all[i] == s[i];
    assert forall i :: 0 <= i < |t| ==> all[|s| + i] == t[i];
    if Distinct(all) {
      forall i, j | 0 <= i < j < |t| ensures t[i] != t[j] {
        assert all[|s| + i] != all[|s| + j];
      }
      forall i, j | 0 <= i < |s| && 0 <= j < |t| ensures s[i] != t[j] {
        assert all[i] != all[|s| + j];
      }
    }
    if Distinct(s) && Distinct(t) && forall x :: x in t ==> x !in s {
      forall i, j | 0 <= i < j < |all| ensures all[i] != all[j] {
        assert i >= |s| ==> all[i] == t[i - |s|];
        assert j >= |s| ==> all[j] == t[j - |s|] && t[j - |s|] in t;
      }
    }
  }

  lemma DistinctTwo(ids: seq<int>, id: int, id2: int)
    ensures ids + [id] + [id2] == ids + [id, id2]
    ensures Distinct(ids + [id, id2]) ==> id !in ids && id2 !in ids + [id]
  {
    hide Distinct;
    DistinctAppend(ids + [id], [id2]);
    DistinctAppend(ids, [id]);
    assert id2 in [id2] && id in [id];
  }

  /** The entries that are popped are those of the stack before the call. */
  lemma RestackedPopped(nodes: seq<Node>, freeNodes: seq<int>, count: nat)
    requires |freeNodes| == |nodes| && InTable(nodes, freeNodes) && |UnusedIds(nodes, |nodes|)| + count <= |nodes|
    ensures InTable(nodes, Restacked(nodes, freeNodes))
    ensures var ptr := |UnusedIds(nodes, |nodes|)|;
      Popped(Restacked(nodes, freeNodes), ptr, count) == Popped(freeNodes, ptr, count)
  {
    var unused := UnusedIds(nodes, |nodes|);
    forall i | 0 <= i < |nodes| ensures 0 <= Restacked(nodes, freeNodes)[i] < |nodes| {
      if i < |unused| {
        assert unused[i] in unused;
      }
    }
  }

  /** The ids to be popped are spare exactly if they extend the ids in use without repetition. */
  lemma FreshIffDistinct(nodes: seq<Node>, stack: seq<int>, order: seq<int>, ptr: nat, count: nat)
    requires |stack| == |nodes| && InTable(nodes, stack) && ptr + count <= |nodes| && SortedUsed(nodes, order)
    ensures FreshPops(nodes, stack, ptr, count) <==> Distinct(order + Popped(stack, ptr, count))
    ensures InTable(nodes, order + Popped(stack, ptr, count))
  {
    hide FreshPops, Distinct;
    FreshStretch(nodes, stack, ptr, count);
    DistinctAppend(order, Popped(stack, ptr, count));
    UsedAreDistinct(nodes, order);
    forall x | x in Popped(stack, ptr, count) ensures 0 <= x < |nodes| && (x in order <==> nodes[x].used) {
    }
  }

  lemma UsedAreDistinct(nodes: seq<Node>, order: seq<int>)
    requires SortedUsed(nodes, order)
    ensures Distinct(order)
  {
  }

  /** A block stays where compaction put it exactly if its id is not popped. */
  lemma RelocatedUnlessPopped(nodes: seq<Node>, nodes1: seq<Node>, nodes2: seq<Node>, order: seq<int>, popped: seq<int>)
    requires SortedUsed(nodes, order) && |nodes1| == |nodes| && FreeBlocksAt(nodes1, nodes2, popped)
    requires forall i :: 0 <= i < |order| ==> Relocated(nodes, nodes1, order, i)
    ensures |nodes2| == |nodes|
    ensures forall i :: 0 <= i < |order| ==> (Relocated(nodes, nodes2, order, i) <==> order[i] !in popped)
    ensures forall x :: x in popped ==> 0 <= x < |nodes| && !nodes2[x].used
  {
    forall i | 0 <= i < |order| ensures Relocated(nodes, nodes2, order, i) <==> order[i] !in popped {
      assert Relocated(nodes, nodes1, order, i) && order[i] in order;
    }
  }

  lemma UsedUnlessPopped(nodes: seq<Node>, nodes1: seq<Node>, nodes2: seq<Node>, popped: seq<int>)
    requires |nodes1| == |nodes| && FreeBlocksAt(nodes1, nodes2, popped)
    requires forall x :: 0 <= x < |nodes| ==> nodes1[x].used == nodes[x].used
    ensures |nodes2| == |nodes|
    ensures forall x :: 0 <= x < |nodes| && x !in popped ==> nodes2[x].used == nodes[x].used
  {
    forall x | 0 <= x < |nodes| && x !in popped ensures nodes2[x].used == nodes[x].used {
      assert SameExtent(nodes2[x], nodes1[x]);
    }
  }

  lemma ElementsAppend(ids: seq<int>, id: int)
    ensures Elements(ids + [id]) == Elements(ids) + {id}
    ensures id in Elements(ids) <==> id in ids
  {
  }

  lemma NotTiled(nodes: seq<Node>, ids: seq<int>, end: nat)
    requires !Distinct(ids)
    ensures !TiledTo(nodes, ids, end)
  {
  }

  lemma TiledTable(nodes: seq<Node>, ids: seq<int>, end: nat)
    requires TiledTo(nodes, ids, end)
    ensures InTable(nodes, ids) && Distinct(ids)
  {
  }
}
