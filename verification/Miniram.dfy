/** The offset allocator: a node table threaded by the neighbour chain and the free lists,
    a two-level bitmap over the lists, a stack of spare node ids and a counter of free storage. */
module Miniram {
  import opened Collections
  import opened Words
  import opened TinyFloat
  import opened Nodes
  import opened Bins
  import opened Edits
  import opened Memmoves
  import opened Compaction
  import opened Rebuild
  import opened Pools

  class Miniram {
    const width: nat
    var capacity: nat
    var freeStorage: nat
    var usedBinsTop: nat
    const usedBins: array<nat>
    const binIndices: array<int>
    var nodes: seq<Node>
    var freeNodes: seq<int>
    var freeStackPtr: nat

    ghost var chain: seq<int>
    ghost var bins: seq<seq<int>>

    /** The bins and their bitmap, for a given set of ids in use. */
    ghost predicate Lists(active: set<int>)
      reads this`nodes, this`bins, this`usedBinsTop, usedBins, binIndices
    {
      && width in {8, 16, 32, 64}
      && MasksOk(width, usedBinsTop, usedBins[..], binIndices[..])
      && ListsOk(nodes, binIndices[..], bins, active)
    }

    /** What it takes to insert into the bins: the bitmap is exact and every head is a node. */
    ghost predicate Shaped()
      reads this`nodes, this`bins, this`usedBinsTop, usedBins, binIndices
    {
      && width in {8, 16, 32, 64} && |bins| == 8 * width
      && MasksOk(width, usedBinsTop, usedBins[..], binIndices[..])
      && HeadsInTable(|nodes|, binIndices[..])
    }

    /** Everything but the neighbour chain, for a given set of ids in use. */
    ghost predicate Structure(active: set<int>)
      reads this, usedBins, binIndices
    {
      Lists(active) && IdsOk(|nodes|, active, freeNodes, freeStackPtr)
    }

    ghost predicate Valid()
      reads this, usedBins, binIndices
      ensures Valid() ==> InTable(nodes, chain) && freeStackPtr <= |freeNodes| == |nodes|
    {
      && Structure(Elements(chain))
      && ChainOk(nodes, chain, capacity)
      && capacity < Pow2(width)
      && |nodes| >= 2
      && freeStorage == FreeSum(nodes, chain)
      && UsedOnChain(nodes, chain)
    }

    /** The physical memory, left to right. */
    ghost function Segments(): seq<Segment>
      reads this
      requires InTable(nodes, chain)
    {
      SegmentsOf(nodes, chain)
    }

    /** The ids still on the stack, the next one to be popped first. */
    ghost function Spare(): seq<int>
      reads this`freeNodes, this`freeStackPtr
      requires freeStackPtr <= |freeNodes|
    {
      freeNodes[freeStackPtr..]
    }

    /** The allocations a caller holds. */
    ghost function Live(): map<int, Block>
      reads this
      requires InTable(nodes, chain)
    {
      LiveOf(nodes, chain)
    }

    // ----- what every reachable allocator promises -----

    /** Live blocks lie inside the memory and never overlap. */
    lemma LiveBlocksDisjoint(x: int, y: int)
      requires Valid() && x in Live()
      ensures Live()[x].offset + Live()[x].size <= capacity
      ensures y in Live() && y != x ==>
        Live()[x].offset + Live()[x].size <= Live()[y].offset || Live()[y].offset + Live()[y].size <= Live()[x].offset
    {
      var i :| 0 <= i < |chain| && chain[i] == x;
      ChainInside(nodes, chain, capacity, i);
      if y in Live() && y != x {
        var j :| 0 <= j < |chain| && chain[j] == y;
        if i < j {
          ChainOrdered(nodes, chain, capacity, i, j);
        } else {
          ChainOrdered(nodes, chain, capacity, j, i);
        }
      }
    }

    /** `remaining` and `allocated`: the counter is the free part of an exact tiling. */
    lemma StorageConserved()
      requires Valid()
      ensures freeStorage + UsedSum(nodes, chain) == capacity
    {
      SumsToCapacity(nodes, chain, capacity, 0);
      assert chain[0..] == chain;
    }

    /** Whatever the order of the frees, once nothing is live the memory is one free block again. */
    lemma AllFreedIsOneBlock()
      requires Valid() && Live() == map[]
      ensures |chain| == 1 && Segments() == [Segment(0, capacity, false, chain[0])]
    {
      assert forall x :: x in Elements(chain) && nodes[x].used ==> x in Live();
      AllFreeIsOneBlock(nodes, chain, capacity);
    }

    /** The id stack and the chain share out the node table, so neither guard of the stack can fire:
        a live id means something was popped, and `allocate` grows the table before the stack is empty. */
    lemma IdsShareTable()
      requires Valid()
      ensures Distinct(freeNodes[freeStackPtr..])
      ensures forall x :: 0 <= x < |nodes| <==> x in chain || x in freeNodes[freeStackPtr..]
      ensures forall x :: !(x in chain && x in freeNodes[freeStackPtr..])
      ensures freeStackPtr == |chain| > 0
    {
      IdsPartition(|nodes|, Elements(chain), freeNodes, freeStackPtr);
      DistinctCount(chain);
      assert forall x :: x in chain <==> x in Elements(chain);
    }

    /** The highest non-empty bin is the bin of some free block, and of none larger. */
    lemma MaxAllocBin() returns (top: nat)
      requires Valid() && freeStorage > 0
      ensures MaxAlloc() == Value(top)
      ensures forall i :: 0 <= i < |chain| && !nodes[chain[i]].used ==> FloorToFloat(nodes[chain[i]].size) <= top
      ensures exists i :: 0 <= i < |chain| && !nodes[chain[i]].used && FloorToFloat(nodes[chain[i]].size) == top
    {
      hide MasksOk, ListsOk, IdsOk, Linked, FreeSum, FloorToFloat, ToUint, Or, HighestBit;
      TopShowsStorage();
      ghost var heads := binIndices[..];
      HighestBinIsHighest(width, usedBinsTop, usedBins[..], heads);
      BinCount(width, usedBinsTop, usedBins[..], heads, nodes, bins, Elements(chain));
      top := Or(8 * HighestBit(usedBinsTop), HighestBit(usedBins[HighestBit(usedBinsTop)]));
      BinIsFreeOfBin(nodes, heads, bins, chain, top);
      assert bins[top][0] in FreeOfBin(nodes, chain, top) by {
        assert bins[top][0] in Elements(bins[top]);
      }
      var i :| 0 <= i < |chain| && chain[i] == bins[top][0];
      ChainInside(nodes, chain, capacity, i);
      CodesFit(width, nodes[chain[i]].size);
      forall k | 0 <= k < |chain| && !nodes[chain[k]].used ensures FloorToFloat(nodes[chain[k]].size) <= top {
        FreeHasHead(nodes, heads, bins, chain, k);
      }
    }

    /** For sizes of at least one, `allocatable` is exactly the condition under which `Allocate` succeeds. */
    lemma AllocatableIsExact(size: nat)
      requires Valid() && size >= 1
      ensures size <= MaxAlloc() <==> Fits(Segments(), size)
    {
      if freeStorage == 0 {
        TooLarge(nodes, chain, capacity, size);
      } else {
        var top := MaxAllocBin();
        MaxFits(nodes, chain, top, size);
      }
    }

    /** Rounding to bins hides less than a ninth of the largest free block. */
    lemma MaxAllocIsClose(i: nat)
      requires Valid() && freeStorage > 0 && i < |chain| && !nodes[chain[i]].used
      ensures 8 * nodes[chain[i]].size < 9 * MaxAlloc()
    {
      var top := MaxAllocBin();
      var k := FreeSumWitness(nodes, chain);
      FloorGalois(nodes[chain[k]].size, 1);
      MaxIsClose(nodes[chain[i]].size, top);
    }

    /** The ids that a defragmentation pops are spare whenever at least as many nodes are unused as the stack has
        given out, so that the stale entries it pops lie in the part of the stack that was still live. */
    lemma HalfEmptyPopsSpareIds(count: nat)
      requires Valid() && freeStackPtr <= |UnusedIds(nodes, |nodes|)| && |UnusedIds(nodes, |nodes|)| + count <= |nodes|
      ensures FreshPops(nodes, freeNodes, |UnusedIds(nodes, |nodes|)|, count)
    {
      assert forall x :: x in chain <==> x in Elements(chain);
    }

    // ----- what the parts of the invariant give each other -----

    lemma ListsAreShaped(active: set<int>)
      requires Lists(active)
      ensures Shaped()
    {
      BinHeadsInTable(nodes, binIndices[..], bins);
    }

    /** A used node is in no bin. */
    lemma RetireKeepsLists(active: set<int>, id: int)
      requires Lists(active) && 0 <= id < |nodes| && nodes[id].used
      ensures Lists(active - {id})
    {
      hide MasksOk, ListsOk;
      RetireKeepsMatch(nodes, binIndices[..], bins, active, id);
    }

    lemma AllValid()
      requires Lists(Elements(chain)) && IdsOk(|nodes|, Elements(chain), freeNodes, freeStackPtr)
      requires ChainOk(nodes, chain, capacity) && UsedOnChain(nodes, chain)
      requires capacity < Pow2(width) && |nodes| >= 2 && freeStorage == FreeSum(nodes, chain)
      ensures Valid()
    {
    }

    lemma ShapedHeads()
      requires Shaped()
      ensures width in {8, 16, 32, 64} && |bins| == binIndices.Length == 8 * width
      ensures forall b :: 0 <= b < |bins| && binIndices[b] != INVALID ==> 0 <= binIndices[b] < |nodes|
    {
      hide MasksOk;
      MaskCount(width, usedBinsTop, usedBins[..], binIndices[..]);
      assert forall b :: 0 <= b < binIndices.Length ==> binIndices[..][b] == binIndices[b];
    }

    lemma ValidShape()
      requires Valid()
      ensures width in {8, 16, 32, 64} && usedBins.Length == width && binIndices.Length == 8 * width
      ensures |freeNodes| == |nodes| >= 2 && InTable(nodes, freeNodes)
      ensures ChainOk(nodes, chain, capacity) && UsedOnChain(nodes, chain)
    {
      hide MasksOk, ListsOk, IdsOk;
      BinCount(width, usedBinsTop, usedBins[..], binIndices[..], nodes, bins, Elements(chain));
      IdCount(|nodes|, Elements(chain), freeNodes, freeStackPtr);
    }

    lemma StackSize(active: set<int>)
      requires Structure(active)
      ensures freeStackPtr <= |freeNodes| == |nodes| && freeStackPtr == |active|
    {
    }

    lemma ValidParts()
      requires Valid()
      ensures Structure(Elements(chain)) && ChainOk(nodes, chain, capacity) && freeStorage == FreeSum(nodes, chain)
    {
    }

    lemma ValidIds()
      requires Valid()
      ensures IdsOk(|nodes|, Elements(chain), freeNodes, freeStackPtr)
    {
    }

    // ----- allocating and freeing -----

    method PopFreeNode() returns (id: int)
      requires freeStackPtr < |nodes| == |freeNodes|
      modifies this`freeStackPtr
      ensures id == freeNodes[old(freeStackPtr)] && freeStackPtr == old(freeStackPtr) + 1
    {
      id := freeNodes[freeStackPtr];
      freeStackPtr := freeStackPtr + 1;
    }

    method PushFreeNode(id: int, ghost active: set<int>)
      requires IdsOk(|nodes|, active, freeNodes, freeStackPtr) && id in active
      modifies this`freeStackPtr, this`freeNodes
      ensures old(freeStackPtr) > 0 && freeStackPtr == old(freeStackPtr) - 1
      ensures freeStackPtr < |nodes| == |freeNodes| && freeNodes == old(freeNodes)[freeStackPtr := id]
      ensures freeNodes[freeStackPtr] == id
      ensures IdsOk(|nodes|, active - {id}, freeNodes, freeStackPtr)
    {
      PushKeepsIds(|nodes|, active, freeNodes, freeStackPtr, id);
      freeStackPtr := freeStackPtr - 1;
      freeNodes := freeNodes[freeStackPtr := id];
    }

    /** `insertNode`: the id on top of the stack becomes a free node at the front of its bin. The lists stay exact if
        that id was spare; if it was not, its node is overwritten all the same. */
    method InsertNode(size: nat, offset: nat, ghost active: set<int>) returns (id: int)
      requires Shaped() && freeStackPtr < |nodes| == |freeNodes| && 0 <= freeNodes[freeStackPtr] < |nodes|
      requires size < Pow2(width)
      modifies this, usedBins, binIndices
      ensures unchanged(`capacity, `chain, `freeNodes)
      ensures id == freeNodes[old(freeStackPtr)] && freeStackPtr == old(freeStackPtr) + 1
      ensures Shaped() && (old(Lists(active)) && id !in active ==> Lists(active + {id}))
      ensures freeStorage == old(freeStorage) + size
      ensures FloorToFloat(size) < |old(bins)|
      ensures bins == old(bins)[FloorToFloat(size) := [id] + old(bins)[FloorToFloat(size)]]
      ensures |nodes| == |old(nodes)|
      ensures SameBlock(nodes[id], Node(offset, size, INVALID, INVALID, INVALID, INVALID, false))
      ensures forall k :: 0 <= k < |nodes| && k != id ==> SameBlock(nodes[k], old(nodes)[k])
    {
      hide Shaped, Lists, FloorToFloat, SameBlock, PushFront, Pow2;
      ShapedHeads();
      freeStorage := freeStorage + size;
      id := PopFreeNode();
      var binIndex := FloorToFloat(size);
      assert binIndex < |bins| by { CodesFit(width, size); }
      PushFrontBlocks(nodes, binIndices[binIndex], id, size, offset);
      PutFront(id, size, offset, binIndex, active);
    }

    /** `insertNode` in an allocator whose id stack is in order, where the id it takes is spare. */
    method InsertSpare(size: nat, offset: nat, ghost active: set<int>) returns (id: int)
      requires Structure(active) && freeStackPtr < |nodes| && size < Pow2(width)
      modifies this, usedBins, binIndices
      ensures unchanged(`capacity, `chain, `freeNodes) && |nodes| == |old(nodes)|
      ensures old(freeStackPtr) < |freeNodes| && id == freeNodes[old(freeStackPtr)] &&
        freeStackPtr == old(freeStackPtr) + 1
      ensures 0 <= id < |nodes| && id !in active && Structure(active + {id}) && freeStorage == old(freeStorage) + size
      ensures FloorToFloat(size) < |old(bins)|
      ensures bins == old(bins)[FloorToFloat(size) := [id] + old(bins)[FloorToFloat(size)]]
      ensures SameBlock(nodes[id], Node(offset, size, INVALID, INVALID, INVALID, INVALID, false))
      ensures forall k :: 0 <= k < |nodes| && k != id ==> SameBlock(nodes[k], old(nodes)[k])
    {
      hide Lists, Shaped, IdsOk, FloorToFloat, SameBlock;
      PopKeepsIds(|nodes|, active, freeNodes, freeStackPtr);
      ListsAreShaped(active);
      id := InsertNode(size, offset, active);
    }

    /** The writes of `insertNode` for the id it took. */
    method PutFront(id: int, size: nat, offset: nat, binIndex: nat, ghost active: set<int>)
      requires Shaped() && binIndex == FloorToFloat(size) && binIndex < |bins| == binIndices.Length && 0 <= id < |nodes|
      requires binIndices[binIndex] != INVALID ==> 0 <= binIndices[binIndex] < |nodes|
      modifies this, usedBins, binIndices
      ensures unchanged(`capacity, `chain, `freeStorage, `freeNodes, `freeStackPtr)
      ensures Shaped() && (old(Lists(active)) && id !in active ==> Lists(active + {id}))
      ensures nodes == PushFront(old(nodes), old(binIndices[binIndex]), id, size, offset)
      ensures bins == old(bins)[binIndex := [id] + old(bins)[binIndex]]
    {
      hide MasksOk, PushFront, ListsOk, FloorToFloat, HeadsInTable;
      ghost var nodes0, heads0, bins0, clean := nodes, binIndices[..], bins, Lists(active) && id !in active;
      PushFrontBlocks(nodes, binIndices[binIndex], id, size, offset);
      NewHeadInTable(|nodes|, heads0, binIndex, id);
      MarkBin(binIndex, id);
      LinkFront(id, size, offset, binIndex);
      bins := bins[binIndex := [id] + bins[binIndex]];
      if clean {
        InsertKeepsMatch(nodes0, heads0, bins0, active, id, size, offset);
      }
    }

    /** The mask writes of `insertNode`, needed when its bin was empty. */
    method MarkBin(binIndex: nat, ghost id: int)
      requires MasksOk(width, usedBinsTop, usedBins[..], binIndices[..])
      requires binIndex < 8 * width && id != INVALID && usedBins as object != binIndices
      modifies this, usedBins
      ensures unchanged(`capacity, `chain, `freeStorage, `bins, `nodes, `freeNodes, `freeStackPtr)
      ensures MasksOk(width, usedBinsTop, usedBins[..], binIndices[..][binIndex := id])
    {
      AndSeven(binIndex);
      var t, l := binIndex / 8, And(binIndex, 7);
      if binIndices[binIndex] == INVALID {
        SetKeepsMasks(width, usedBinsTop, usedBins[..], binIndices[..], t, l, id);
        usedBinsTop := WithBit(usedBinsTop, t);
        usedBins[t] := WithBit(usedBins[t], l);
        assert usedBins[..] == old(usedBins[..])[t := WithBit(old(usedBins[t]), l)];
      } else {
        HeadChangeKeepsMasks(width, usedBinsTop, usedBins[..], binIndices[..], binIndex, id);
      }
    }

    /** The list writes of `insertNode`. */
    method LinkFront(id: int, size: nat, offset: nat, binIndex: nat)
      requires 0 <= id < |nodes| && binIndex < binIndices.Length
      requires binIndices[binIndex] != INVALID ==> 0 <= binIndices[binIndex] < |nodes|
      modifies this, binIndices
      ensures unchanged(`capacity, `chain, `freeStorage, `bins, `usedBinsTop, `freeNodes, `freeStackPtr)
      ensures nodes == PushFront(old(nodes), old(binIndices[binIndex]), id, size, offset)
      ensures binIndices[..] == old(binIndices[..])[binIndex := id]
    {
      var listPos := binIndices[binIndex];
      nodes := nodes[id := Node(offset, size, INVALID, listPos, INVALID, INVALID, false)];
      if listPos != INVALID {
        nodes := nodes[listPos := nodes[listPos].(binPrev := id)];
      }
      binIndices[binIndex] := id;
    }

    /** Bin `binIndex` loses its first node; `next` becomes its head. */
    method DropHead(binIndex: nat, next: int)
      requires MasksOk(width, usedBinsTop, usedBins[..], binIndices[..])
      requires width in {8, 16, 32, 64} && binIndex < 8 * width && usedBins as object != binIndices
      requires binIndices[binIndex] != INVALID
      modifies this, usedBins, binIndices
      ensures unchanged(`capacity, `chain, `freeStorage, `bins, `nodes, `freeNodes, `freeStackPtr)
      ensures binIndices[..] == old(binIndices[..])[binIndex := next]
      ensures MasksOk(width, usedBinsTop, usedBins[..], binIndices[..])
    {
      hide MasksOk, And, WithoutBit, TopBits;
      MaskCount(width, usedBinsTop, usedBins[..], binIndices[..]);
      AndSeven(binIndex);
      var t, l := binIndex / 8, And(binIndex, 7);
      ghost var top0, leaf0, heads0 := usedBinsTop, usedBins[..], binIndices[..];
      binIndices[binIndex] := next;
      if binIndices[binIndex] == INVALID {
        ClearKeepsMasks(width, top0, leaf0, heads0, t, l, TopBits(width));
        usedBins[t] := WithoutBit(8, usedBins[t], l);
        if usedBins[t] == 0 {
          usedBinsTop := WithoutBit(TopBits(width), usedBinsTop, t);
        }
        assert usedBins[..] == leaf0[t := WithoutBit(8, leaf0[t], l)];
      } else {
        HeadChangeKeepsMasks(width, top0, leaf0, heads0, binIndex, next);
      }
      assert binIndices[..] == heads0[binIndex := next];
    }

    method RemoveNode(id: int, ghost active: set<int>, ghost b: nat, ghost j: nat)
      requires Structure(active) && 0 <= id < |nodes|
      requires b < |bins| && j < |bins[b]| && bins[b][j] == id
      requires nodes[id].size <= freeStorage
      modifies this, usedBins, binIndices
      ensures unchanged(`capacity, `chain)
      ensures old(freeStackPtr) > 0 && freeStackPtr == old(freeStackPtr) - 1
      ensures freeNodes == old(freeNodes)[freeStackPtr := id]
      ensures id in active && Structure(active - {id})
      ensures freeStorage == old(freeStorage) - old(nodes)[id].size
      ensures |nodes| == |old(nodes)|
      ensures forall k :: 0 <= k < |nodes| ==> SameBlock(nodes[k], old(nodes)[k])
      ensures bins == old(bins)[b := Without(old(bins)[b], j)]
    {
      hide MasksOk, ListsOk, IdsOk, FloorToFloat, SameBlock;
      BinCount(width, usedBinsTop, usedBins[..], binIndices[..], nodes, bins, active);
      RemoveKeepsMatch(nodes, binIndices[..], bins, active, b, j);
      ghost var nodes0, heads0 := nodes, binIndices[..];
      assert id != INVALID;
      var node := nodes[id];
      if node.binPrev != INVALID {
        nodes := nodes[node.binPrev := nodes[node.binPrev].(binNext := node.binNext)];
        if node.binNext != INVALID {
          nodes := nodes[node.binNext := nodes[node.binNext].(binPrev := node.binPrev)];
        }
        assert binIndices[..] == heads0[b := heads0[b]];
      } else {
        var binIndex := FloorToFloat(node.size);
        if node.binNext != INVALID {
          nodes := nodes[node.binNext := nodes[node.binNext].(binPrev := INVALID)];
        }
        DropHead(binIndex, node.binNext);
      }
      assert nodes == Unlinked(nodes0, id);
      bins := bins[b := Without(bins[b], j)];
      freeStorage := freeStorage - nodes[id].size;
      PushFreeNode(id, active);
    }

    /** `reserve_nodes`: spare nodes are added at the far end of the id stack. */
    method ReserveNodes(count: nat, ghost active: set<int>)
      requires Structure(active)
      modifies this
      ensures unchanged(`capacity, `chain, `freeStorage, `bins, `usedBinsTop, `freeStackPtr)
      ensures |nodes| == if count <= |old(nodes)| then |old(nodes)| else count
      ensures old(nodes) <= nodes && old(freeNodes) <= freeNodes
      ensures forall k :: |old(nodes)| <= k < |nodes| ==> nodes[k] == UNUSED_NODE
      ensures |freeNodes| == |nodes| && forall k :: |old(nodes)| <= k < |nodes| ==> freeNodes[k] == k
      ensures Structure(active)
    {
      hide MasksOk, ListsOk, IdsOk;
      IdCount(|nodes|, active, freeNodes, freeStackPtr);
      if count <= |nodes| {
        return;
      }
      var n := |nodes|;
      GrowKeepsMatch(nodes, seq(count - n, _ => UNUSED_NODE), binIndices[..], bins, active);
      GrowKeepsIds(n, active, freeNodes, freeStackPtr, count);
      nodes := nodes + seq(count - n, _ => UNUSED_NODE);
      freeNodes := freeNodes + seq(count - n, i => n + i);
    }

    /** The growth step of `allocate`: the node table doubles when no spare id is left. */
    method Grow()
      requires Valid()
      modifies this
      ensures Valid() && freeStackPtr < |nodes| == |freeNodes|
      ensures unchanged(`capacity, `chain, `freeStorage, `bins, `usedBinsTop, `freeStackPtr)
      ensures Segments() == old(Segments()) && Live() == old(Live())
      ensures old(nodes) <= nodes && old(freeNodes) <= freeNodes
      ensures |nodes| == if old(freeStackPtr) < |old(nodes)| then |old(nodes)| else 2 * |old(nodes)| - 1
      ensures forall k :: |old(nodes)| <= k < |nodes| ==> freeNodes[k] == k
    {
      hide MasksOk, ListsOk, Linked, FreeSum, LiveOf;
      if |nodes| - freeStackPtr == 0 {
        ghost var nodes0 := nodes;
        ReserveNodes((|nodes| - 1) * 2 + 1, Elements(chain));
        GrowKeepsChain(nodes0, nodes, chain, capacity);
      }
    }

    /** The first half of `sliceTopBinNode`: the first node of a bin leaves it and becomes a used block of `size`. */
    method TakeFront(binId: nat, size: nat, ghost active: set<int>) returns (id: int)
      requires Structure(active) && binId < |bins| && bins[binId] != []
      requires 0 <= bins[binId][0] < |nodes| && nodes[bins[binId][0]].size <= freeStorage
      modifies this, usedBins, binIndices
      ensures unchanged(`capacity, `chain, `freeNodes, `freeStackPtr)
      ensures id == old(bins)[binId][0] && id in active
      ensures Structure(active)
      ensures freeStorage == old(freeStorage) - old(nodes)[id].size
      ensures bins == old(bins)[binId := old(bins)[binId][1..]]
      ensures |nodes| == |old(nodes)|
      ensures SameBlock(nodes[id], old(nodes)[id].(size := size, used := true))
      ensures forall k :: 0 <= k < |nodes| && k != id ==> SameBlock(nodes[k], old(nodes)[k])
    {
      hide MasksOk, ListsOk, IdsOk;
      BinCount(width, usedBinsTop, usedBins[..], binIndices[..], nodes, bins, active);
      TakeKeepsMatch(nodes, binIndices[..], bins, active, binId, size);
      id := binIndices[binId];
      var next := nodes[id].binNext;
      freeStorage := freeStorage - nodes[id].size;
      nodes := nodes[id := nodes[id].(size := size, used := true)];
      if next != INVALID {
        nodes := nodes[next := nodes[next].(binPrev := INVALID)];
      }
      DropHead(binId, next);
      bins := bins[binId := bins[binId][1..]];
    }

    /** The neighbour writes of `sliceTopBinNode`. */
    method LinkRest(id: int, rest: int, ghost active: set<int>)
      requires 0 <= id < |nodes| && 0 <= rest < |nodes| && id != rest
      requires nodes[id].neighborNext != INVALID ==> 0 <= nodes[id].neighborNext < |nodes|
      requires nodes[id].neighborNext != id
      modifies this`nodes
      ensures nodes == SliceLinks(old(nodes), id, rest)
      ensures old(Lists(active)) ==> Lists(active)
    {
      hide MasksOk, ListsOk;
      ghost var nodes0, clean := nodes, Lists(active);
      SliceLinksListing(nodes, id, rest);
      if nodes[id].neighborNext != INVALID {
        nodes := nodes[nodes[id].neighborNext := nodes[nodes[id].neighborNext].(neighborPrev := rest)];
      }
      nodes := nodes[rest := nodes[rest].(neighborPrev := id, neighborNext := nodes[id].neighborNext)];
      nodes := nodes[id := nodes[id].(neighborNext := rest)];
      if clean {
        RelinkKeepsMatch(nodes0, nodes, binIndices[..], bins, active);
      }
    }

    /** `sliceTopBinNode`: the bin's first block is used for `size`, what is left of it becomes a block behind it. */
    method SliceTopBinNode(size: nat, binId: nat, ghost at: nat)
      requires Valid() && binId < |bins| && bins[binId] != [] && freeStackPtr < |nodes|
      requires at < |chain| && chain[at] == bins[binId][0] && !nodes[chain[at]].used && size <= nodes[chain[at]].size
      modifies this, usedBins, binIndices
      ensures Valid() && capacity == old(capacity) && |nodes| == |old(nodes)| && freeNodes == old(freeNodes)
      ensures Sliced(old(nodes), old(chain), nodes, chain, at, size, old(freeNodes)[old(freeStackPtr)])
      ensures TakenFromFront(old(bins), bins, old(Segments())[at], size, old(freeNodes)[old(freeStackPtr)])
    {
      hide MasksOk, ListsOk, IdsOk, FloorToFloat, SameBlock, Linked, LiveOf, FreeSum, SegmentsOf, Sliced, UsedOnChain,
        TakenFromFront;
      BinCount(width, usedBinsTop, usedBins[..], binIndices[..], nodes, bins, Elements(chain));
      TakeKeepsMatch(nodes, binIndices[..], bins, Elements(chain), binId, size);
      FreeBlockCounted(nodes, chain, at, capacity);
      PopKeepsIds(|nodes|, Elements(chain), freeNodes, freeStackPtr);
      ghost var nodes0, rest, bins0, s := nodes, freeNodes[freeStackPtr], bins, Segments()[at];
      HeadIsBlock(nodes, binIndices[..], bins, chain, binId, at);
      var total := nodes[binIndices[binId]].size;
      var id := TakeFront(binId, size, Elements(chain));
      ghost var bins1 := bins;
      if total - size > 0 {
        InsertRest(id, total, size, at, nodes0);
      } else {
        assert SliceShape(nodes0, nodes, chain, at, INVALID, size, capacity);
        WholeOutcome(nodes0, nodes, chain, at, rest, capacity);
      }
      TakingIsFromFront(bins0, bins1, bins, s, size, rest);
    }

    /** The second half of `sliceTopBinNode`: the remainder becomes a free block and joins the neighbour chain. */
    method InsertRest(id: int, total: nat, size: nat, ghost at: nat, ghost nodes0: seq<Node>)
      requires Structure(Elements(chain)) && freeStackPtr < |nodes| && |nodes| >= 2 && capacity < Pow2(width)
      requires SliceShape(nodes0, nodes, chain, at, INVALID, size, capacity) && UsedOnChain(nodes0, chain)
      requires id == chain[at] && total == nodes0[id].size && size < total
      requires freeStorage + total == FreeSum(nodes0, chain)
      modifies this, usedBins, binIndices
      ensures Valid() && capacity == old(capacity) && |nodes| == |old(nodes)| && freeNodes == old(freeNodes)
      ensures old(freeStackPtr) < |freeNodes| && FloorToFloat(total - size) < |old(bins)|
      ensures bins == old(bins)[FloorToFloat(total - size) :=
        [freeNodes[old(freeStackPtr)]] + old(bins)[FloorToFloat(total - size)]]
      ensures Sliced(nodes0, old(chain), nodes, chain, at, size, old(freeNodes)[old(freeStackPtr)])
    {
      hide Lists, Shaped, Valid, IdsOk, FloorToFloat, SameBlock, Linked, LiveOf, FreeSum, SliceLinks, Spliced, Sliced,
        SliceShape, SegmentsOf, UsedOnChain, ChainOk, Elements, SameListing;
      RestFits(nodes0, nodes, chain, at, size, capacity, width);
      ghost var nodes1, active := nodes, Elements(chain);
      var rest := InsertSpare(total - size, nodes[id].offset + size, active);
      ghost var nodes2 := nodes;
      RestShape(nodes0, nodes1, nodes2, chain, at, rest, size, capacity);
      SliceNext(nodes0, nodes2, chain, at, rest, size, capacity);
      LinkRest(id, rest, active + {rest});
      chain := Spliced(chain, at, at + 1, [id, rest]);
      SplitOutcome(nodes0, nodes2, nodes, old(chain), chain, at, at + 1, rest, size, capacity);
      AllValid();
    }

    /** The bin that `allocate` takes a block from, or -1; `at` is the place of the bin's first block. */
    method ChooseBin(size: nat) returns (binIndex: int, ghost at: nat)
      requires Valid() && size < Pow2(width)
      ensures binIndex == -1 ==> !Fits(Segments(), size)
      ensures binIndex != -1 ==>
        && 0 <= binIndex < |bins| && bins[binIndex] != [] && binIndex < binIndices.Length
        && at < |chain| && chain[at] == bins[binIndex][0] == binIndices[binIndex]
        && BestFit(Segments(), size, at) && TakesHead(bins, Segments()[at], binIndices[binIndex])
        && !nodes[chain[at]].used && size <= nodes[chain[at]].size
    {
      hide MasksOk, ListsOk, IdsOk, Linked, FreeSum, FloorToFloat, CeilToFloat;
      CodesFit(width, size);
      at := 0;
      ghost var heads := binIndices[..];
      BinCount(width, usedBinsTop, usedBins[..], heads, nodes, bins, Elements(chain));
      FindBinIsLowest(width, usedBinsTop, usedBins[..], heads, CeilToFloat(size));
      binIndex := FindBin(width, usedBinsTop, usedBins[..], heads, CeilToFloat(size));
      if binIndex == -1 {
        NoneFits(nodes, heads, bins, chain, capacity, size);
      } else {
        at := BestBlock(nodes, heads, bins, chain, capacity, size, binIndex);
      }
    }

    /** `allocate`. On success `at` is the block it used and `rest` the id of what was left of it. */
    method Allocate(size: nat) returns (r: Alloc, ghost at: nat, ghost rest: int)
      requires Valid() && size < Pow2(width)
      modifies this, usedBins, binIndices
      ensures Valid() && capacity == old(capacity)
      ensures r.id != INVALID <==> Fits(old(Segments()), size)
      ensures size >= 1 ==> (r.id != INVALID <==> size <= old(MaxAlloc()))
      ensures r.id == INVALID ==> r.offset == Pow2(width) - 1 && Segments() == old(Segments()) && Live() == old(Live())
      ensures r.id == INVALID ==> bins == old(bins)
      ensures r.id != INVALID ==>
        && BestFit(old(Segments()), size, at) && TakesHead(old(bins), old(Segments())[at], r.id)
        && r == Alloc(old(Segments())[at].offset, old(Segments())[at].id)
        && Sliced(old(nodes), old(chain), nodes, chain, at, size, rest)
        && TakenFromFront(old(bins), bins, old(Segments())[at], size, rest)
        && old(freeStackPtr) < |freeNodes| && rest == freeNodes[old(freeStackPtr)]
      ensures |nodes| == if size <= old(freeStorage) && old(freeStackPtr) == |old(nodes)| then 2 * |old(nodes)| - 1
        else |old(nodes)|
      ensures old(freeNodes) <= freeNodes && forall k :: |old(nodes)| <= k < |nodes| ==> freeNodes[k] == k
    {
      hide MasksOk, ListsOk, IdsOk, Linked, FreeSum, LiveOf, Carved, Spliced, FloorToFloat, CeilToFloat, BestFit, Fits,
        TakesHead, TakenFromFront, Pow2;
      r := Alloc(Pow2(width) - 1, INVALID);
      at, rest := 0, INVALID;
      if size >= 1 {
        AllocatableIsExact(size);
      }
      if size > freeStorage {
        TooLarge(nodes, chain, capacity, size);
        return;
      }
      Grow();
      var binIndex;
      binIndex, at := ChooseBin(size);
      if binIndex == -1 {
        return;
      }
      rest := freeNodes[freeStackPtr];
      var nodeId := binIndices[binIndex];
      assert SegmentsOf(nodes, chain)[at] == SegmentAt(nodes, chain, at);
      SliceTopBinNode(size, binIndex, at);
      BestFitFits(old(Segments()), size, at);
      LiveBlock(nodes, chain, nodeId);
      r := Alloc(nodes[nodeId].offset, nodeId);
    }

    /** The first half of `free`: free neighbours of block `i` leave their bins and give up their ids. */
    method AbsorbNeighbors(nodeId: int, ghost i: nat, ghost a: nat, ghost b: nat)
      returns (offset: nat, size: nat, prev: int, next: int, ghost active: set<int>)
      requires InTable(nodes, chain) && i < |chain| && chain[i] == nodeId && nodes[nodeId].used
      requires MergeRange(nodes, chain, i, a, b) && a <= i < b <= |chain|
      requires Valid()
      modifies this, usedBins, binIndices
      ensures unchanged(`capacity, `chain)
      ensures active
        == Elements(chain) - (if a < i then {chain[i - 1]} else {}) - (if i + 1 < b then {chain[i + 1]} else {})
      ensures |nodes| == |old(nodes)|
      ensures forall k :: 0 <= k < |nodes| ==> SameBlock(nodes[k], old(nodes)[k])
      ensures freeStorage + FreeSum(old(nodes), chain[a..b]) == old(freeStorage)
      ensures offset == Bound(old(nodes), chain, capacity, a)
      ensures offset + size == Bound(old(nodes), chain, capacity, b) <= capacity
      ensures prev == if a == 0 then INVALID else chain[a - 1]
      ensures next == if b == |chain| then INVALID else chain[b]
      ensures nodes[nodeId].used && nodeId in active
      ensures freeStackPtr <= |freeNodes| && Spare() == Returned(chain, i, a, b) + old(Spare())
      ensures Dropped(old(bins), bins, Elements(Returned(chain, i, a, b)))
      ensures Structure(active)
    {
      hide Lists, IdsOk, Linked, FreeSum, FloorToFloat, Pow2, Dropped, Staying, Valid, Returned;
      ValidParts();
      LinksOfBlock(nodes, chain, capacity, i);
      MergeSizes(nodes, chain, i, a, b, capacity);
      ghost var nodes0 := nodes;
      var node := nodes[nodeId];
      offset, size, prev, next := node.offset, node.size, node.neighborPrev, node.neighborNext;
      active := Elements(chain);
      ghost var spare, gone, bins0: seq<seq<int>> := Spare(), {}, bins;
      DropNone(bins);
      if prev != INVALID && !nodes[prev].used {
        offset := nodes[prev].offset;
        size := size + nodes[prev].size;
        prev := nodes[prev].neighborPrev;
        RemoveFree(node.neighborPrev, active);
        active, gone := active - {node.neighborPrev}, {node.neighborPrev};
        assert forall k :: 0 <= k < |nodes| ==> SameBlock(nodes[k], nodes0[k]);
      }
      if next != INVALID && !nodes[next].used {
        assert SameBlock(nodes[next], nodes0[next]);
        size := size + nodes[next].size;
        next := nodes[next].neighborNext;
        ghost var bins1 := bins;
        RemoveFree(node.neighborNext, active);
        DropTwice(bins0, bins1, bins, gone, {node.neighborNext});
        active, gone := active - {node.neighborNext}, gone + {node.neighborNext};
      }
      ReturnedIds(chain, i, a, b, spare);
      assert gone == Elements(Returned(chain, i, a, b));
    }

    /** The relinking at the end of `free`. */
    method LinkMerged(id: int, prev: int, next: int, ghost active: set<int>)
      requires 0 <= id < |nodes|
      requires (prev != INVALID ==> 0 <= prev < |nodes|) && (next != INVALID ==> 0 <= next < |nodes|)
      modifies this`nodes
      ensures nodes == MergeLinks(old(nodes), id, prev, next)
      ensures old(Lists(active)) ==> Lists(active)
    {
      hide MasksOk, ListsOk;
      ghost var nodes0, clean := nodes, Lists(active);
      MergeLinksListing(nodes, id, prev, next);
      nodes := nodes[id := nodes[id].(neighborPrev := prev, neighborNext := next)];
      if next != INVALID {
        nodes := nodes[next := nodes[next].(neighborPrev := id)];
      }
      if prev != INVALID {
        nodes := nodes[prev := nodes[prev].(neighborNext := id)];
      }
      if clean {
        RelinkKeepsMatch(nodes0, nodes, binIndices[..], bins, active);
      }
    }

    /** The second half of `free`: block `i`'s id goes back to the stack and is at once taken again for the merged
        block. */
    method InsertMerged(nodeId: int, offset: nat, size: nat, prev: int, next: int, ghost active: set<int>,
      ghost nodes0: seq<Node>, ghost i: nat, ghost a: nat, ghost b: nat)
      requires Structure(active) && |nodes| >= 2 && capacity < Pow2(width)
      requires ChainOk(nodes0, chain, capacity) && UsedOnChain(nodes0, chain)
      requires i < |chain| && chain[i] == nodeId && nodes0[nodeId].used && nodeId in active
      requires |nodes| == |nodes0| && 0 <= nodeId < |nodes| && nodes[nodeId].used
      requires MergeRange(nodes0, chain, i, a, b) && a <= i < b <= |chain|
      requires active == Elements(Spliced(chain, a, b, [nodeId]))
      requires forall k :: 0 <= k < |nodes| ==> SameBlock(nodes[k], nodes0[k])
      requires freeStorage + FreeSum(nodes0, chain[a..b]) == FreeSum(nodes0, chain)
      requires offset == Bound(nodes0, chain, capacity, a)
      requires offset + size == Bound(nodes0, chain, capacity, b) <= capacity
      requires prev == if a == 0 then INVALID else chain[a - 1]
      requires next == if b == |chain| then INVALID else chain[b]
      modifies this, usedBins, binIndices
      ensures Valid() && capacity == old(capacity) && |nodes| == |old(nodes)|
      ensures Merged(nodes0, old(chain), nodes, chain, i, a, b, capacity)
      ensures old(freeStackPtr) <= |old(freeNodes)| && Spare() == old(Spare())
      ensures FloorToFloat(size) < |old(bins)|
      ensures bins == old(bins)[FloorToFloat(size) := [nodeId] + old(bins)[FloorToFloat(size)]]
    {
      hide Lists, Shaped, Valid, IdsOk, Linked, FreeSum, FloorToFloat, SameListing, MergeLinks, Merged, MergeRange,
        Spliced, Elements, Distinct, Bound, SameBlock, ChainOk, UsedOnChain, SegmentsOf, LiveOf, MergeShape;
      ChainTable(nodes0, chain, capacity);
      ghost var nodes1, chain0 := nodes, chain;
      var id := Reinsert(nodeId, size, offset, active);
      ghost var nodes2 := nodes;
      MergeShapeHolds(nodes0, nodes1, nodes2, chain, i, a, b, capacity);
      LinkMerged(id, prev, next, active);
      chain := Spliced(chain, a, b, [id]);
      MergeOutcome(nodes0, nodes2, nodes, chain0, chain, i, a, b, prev, next, capacity);
      AllValid();
    }

    /** The id of a used node goes back to the stack and is at once taken again, for a free block. */
    method Reinsert(nodeId: int, size: nat, offset: nat, ghost active: set<int>) returns (id: int)
      requires Structure(active) && nodeId in active && 0 <= nodeId < |nodes| && nodes[nodeId].used &&
        size < Pow2(width)
      modifies this, usedBins, binIndices
      ensures unchanged(`capacity, `chain)
      ensures id == nodeId && Structure(active) && freeStorage == old(freeStorage) + size && |nodes| == |old(nodes)|
      ensures old(freeStackPtr) <= |old(freeNodes)| && freeStackPtr <= |freeNodes| && Spare() == old(Spare())
      ensures FloorToFloat(size) < |old(bins)|
      ensures bins == old(bins)[FloorToFloat(size) := [id] + old(bins)[FloorToFloat(size)]]
      ensures SameBlock(nodes[id], Node(offset, size, INVALID, INVALID, INVALID, INVALID, false))
      ensures forall k :: 0 <= k < |nodes| && k != id ==> SameBlock(nodes[k], old(nodes)[k])
    {
      hide Lists, Shaped, IdsOk, FloorToFloat, SameBlock;
      RetireKeepsLists(active, nodeId);
      StackSize(active);
      PushedTop(freeNodes, freeStackPtr, nodeId);
      PushFreeNode(nodeId, active);
      id := InsertSpare(size, offset, active - {nodeId});
      assert active - {nodeId} + {id} == active;
    }

    /** `free` of a live allocation: its block merges with its free neighbours, the stretch `[a, b)`, under its own
        id. */
    method Free(allocation: Alloc) returns (ghost i: nat, ghost a: nat, ghost b: nat)
      requires Valid() && allocation.id in Live()
      modifies this, usedBins, binIndices
      ensures Valid() && capacity == old(capacity) && |nodes| == |old(nodes)|
      ensures i < |old(chain)| && old(chain)[i] == allocation.id
      ensures Merged(old(nodes), old(chain), nodes, chain, i, a, b, capacity)
      ensures a <= i < b <= |old(chain)| && Spare() == Returned(old(chain), i, a, b) + old(Spare())
      ensures MergedInFront(old(bins), bins, allocation.id,
        Bound(old(nodes), old(chain), capacity, b) - Bound(old(nodes), old(chain), capacity, a),
        Elements(Returned(old(chain), i, a, b)))
    {
      hide MasksOk, ListsOk, IdsOk, Linked, FreeSum, FloorToFloat, SameBlock, SameListing, MergeLinks, Merged,
        MergeRange, MergedInFront, Dropped, Returned, Elements, Pow2, Lists;
      i, a, b := FreeRange(nodes, chain, allocation.id);
      ghost var nodes0 := nodes;
      var offset, size, prev, next;
      ghost var active;
      offset, size, prev, next, active := AbsorbNeighbors(allocation.id, i, a, b);
      MergeMembers(nodes0, chain, i, a, b);
      ghost var bins1, gone := bins, Elements(Returned(chain, i, a, b));
      InsertMerged(allocation.id, offset, size, prev, next, active, nodes0, i, a, b);
      MergedIsInFront(old(bins), bins1, bins, allocation.id, size, gone);
    }

    /** `removeNode` of an active free node, which is somewhere in the bin of its size. */
    method RemoveFree(id: int, ghost active: set<int>)
      requires Structure(active) && id in active && 0 <= id < |nodes| && !nodes[id].used
      requires nodes[id].size <= freeStorage
      modifies this, usedBins, binIndices
      ensures unchanged(`capacity, `chain)
      ensures Structure(active - {id})
      ensures old(freeStackPtr) <= |old(freeNodes)| && freeStackPtr <= |freeNodes| && Spare() == [id] + old(Spare())
      ensures Dropped(old(bins), bins, {id})
      ensures freeStorage == old(freeStorage) - old(nodes)[id].size
      ensures |nodes| == |old(nodes)|
      ensures forall k :: 0 <= k < |nodes| ==> SameBlock(nodes[k], old(nodes)[k])
    {
      ghost var b := FloorToFloat(nodes[id].size);
      ghost var j :| 0 <= j < |bins[b]| && bins[b][j] == id;
      StackSize(active);
      DropOne(nodes, binIndices[..], bins, active, b, j);
      RemoveNode(id, active, b, j);
      PushedTop(old(freeNodes), old(freeStackPtr), id);
    }

    /** A fresh allocator: `clear` reserves one node more than the allocations asked for and inserts one free block. */
    constructor (width: nat, capacity: nat, initialAllocCapacity: nat)
      requires width in {8, 16, 32, 64} && capacity < Pow2(width) && initialAllocCapacity >= 1
      ensures Valid() && this.width == width && this.capacity == capacity
      ensures |nodes| == initialAllocCapacity + 1 && freeStackPtr == 1
      ensures |freeNodes| == |nodes| && forall k :: 0 <= k < |nodes| ==> freeNodes[k] == k
      ensures chain == [0] && Segments() == [Segment(0, capacity, false, chain[0])] && Live() == map[]
      ensures fresh(usedBins) && fresh(binIndices)
    {
      hide MasksOk, ListsOk, IdsOk, SegmentsOf, LiveOf, Pow2, ChainOk, UsedOnChain, FreeSum, Elements, Valid;
      this.width, this.capacity := width, capacity;
      freeStorage, usedBinsTop, freeStackPtr := 0, 0, 0;
      usedBins := new nat[width](_ => 0);
      binIndices := new int[8 * width](_ => INVALID);
      nodes, freeNodes := [], [];
      chain, bins := [], seq(8 * width, _ => []);
      new;
      EmptyMasks(width, usedBins[..], binIndices[..]);
      EmptyLists(nodes, binIndices[..], bins, {});
      NoIdsYet();
      Initialize(initialAllocCapacity + 1);
    }

    method Initialize(count: nat)
      requires Structure({}) && count >= 2 && nodes == [] && freeStorage == 0 && freeStackPtr == 0 &&
        capacity < Pow2(width)
      modifies this, usedBins, binIndices
      ensures Valid() && capacity == old(capacity) && |nodes| == count && freeStackPtr == 1
      ensures |freeNodes| == |nodes| && forall k :: 0 <= k < |nodes| ==> freeNodes[k] == k
      ensures chain == [0] && Segments() == [Segment(0, capacity, false, chain[0])] && Live() == map[]
    {
      hide Lists, Shaped, Valid, IdsOk, FloorToFloat, Pow2, SameBlock, SegmentsOf, LiveOf, ChainOk, UsedOnChain;
      ReserveNodes(count, {});
      ghost var nodes0 := nodes;
      var id := InsertSpare(capacity, 0, {});
      chain := [id];
      assert Elements(chain) == {} + {id};
      FirstBlock(nodes0, nodes, id, capacity);
      AllValid();
    }

    /** Whether `id` names a block in use, the condition under which `free` accepts it. */
    method Holds(id: int) returns (held: bool)
      requires Valid()
      ensures held <==> id in Live()
    {
      held := 0 <= id < |nodes| && nodes[id].used;
    }

    /** `size_of` */
    method SizeOf(allocation: Alloc) returns (size: nat)
      requires Valid() && (allocation.id == INVALID || allocation.id in Live())
      ensures size == if allocation.id == INVALID then 0 else Live()[allocation.id].size
    {
      if allocation.id == INVALID || |nodes| == 0 {
        return 0;
      }
      size := nodes[allocation.id].size;
    }

    /** `max_alloc`: the size of the highest non-empty bin. */
    function MaxAlloc(): nat
      reads this, usedBins, binIndices
      requires Valid()
    {
      if freeStorage == 0 then 0
      else
        TopShowsStorage();
        HighestBinIsHighest(width, usedBinsTop, usedBins[..], binIndices[..]);
        var t := HighestBit(usedBinsTop);
        ToUint(width, Or(8 * t, HighestBit(usedBins[t])))
    }

    lemma TopShowsStorage()
      requires Valid() && freeStorage > 0
      ensures usedBinsTop > 0
    {
      var i := FreeSumWitness(nodes, chain);
      FreeShowsInTop(width, usedBinsTop, usedBins[..], binIndices[..], nodes, bins, chain, i);
    }

    /** `free_regions`: how many free blocks each bin holds, walking its list. */
    method FreeRegions() returns (regions: seq<Region>)
      requires Valid()
      ensures |regions| == 8 * width
      ensures forall b :: 0 <= b < |regions| ==>
        regions[b] == Region(|FreeOfBin(nodes, chain, b)|, ToUint(width, b))
    {
      hide MasksOk, ListsOk, IdsOk, Linked, FreeSum, FloorToFloat, ToUint;
      regions := [];
      var i := 0;
      BinCount(width, usedBinsTop, usedBins[..], binIndices[..], nodes, bins, Elements(chain));
      while i < 8 * width
        invariant 0 <= i <= 8 * width && |regions| == i
        invariant forall b :: 0 <= b < i ==> regions[b] == Region(|FreeOfBin(nodes, chain, b)|, ToUint(width, b))
      {
        BinIsFreeOfBin(nodes, binIndices[..], bins, chain, i);
        var count, nodeIndex := 0, binIndices[i];
        while nodeIndex != INVALID
          invariant 0 <= count <= |bins[i]|
          invariant nodeIndex == if count == |bins[i]| then INVALID else bins[i][count]
          decreases |bins[i]| - count
        {
          ListMemberLinks(nodes, bins[i], i, count);
          count := count + 1;
          nodeIndex := nodes[nodeIndex].binNext;
        }
        regions := regions + [Region(count, ToUint(width, i))];
        i := i + 1;
      }
    }

    /** The node writes of one round of `compactUsedNodes`. */
    method PlaceNode(id: int, prev: int, offset: nat)
      requires 0 <= id < |nodes| && (prev != INVALID ==> 0 <= prev < |nodes| && prev != id)
      modifies this`nodes
      ensures |nodes| == |old(nodes)|
      ensures nodes[id] == old(nodes)[id].(offset := offset, neighborPrev := prev)
      ensures prev != INVALID ==> nodes[prev] == old(nodes)[prev].(neighborNext := id)
      ensures forall k :: 0 <= k < |nodes| && k != id && k != prev ==> nodes[k] == old(nodes)[k]
    {
      nodes := nodes[id := nodes[id].(offset := offset, neighborPrev := prev)];
      if prev != INVALID {
        nodes := nodes[prev := nodes[prev].(neighborNext := id)];
      }
    }

    /** `compactUsedNodes`: the used nodes, in the given order, are laid out from zero without gaps;
        the report says where each went and which moves bring its data there. */
    method CompactUsedNodes(ids: seq<int>) returns (report: Defrag, compactedOffset: nat)
      requires |ids| > 0 && InTable(nodes, ids) && Distinct(ids)
      modifies this`nodes
      ensures |nodes| == |old(nodes)|
      ensures report
        == Defrag(Updates(BlocksOf(old(nodes), ids), ids, |ids|), CompactMoves(BlocksOf(old(nodes), ids), |ids|))
      ensures compactedOffset == Pos(BlocksOf(old(nodes), ids), |ids|)
      ensures forall i :: 0 <= i < |ids| ==> InPlace(old(nodes), nodes, ids, i)
      ensures forall k :: 0 <= k < |nodes| && k !in ids ==> nodes[k] == old(nodes)[k]
    {
      hide CompactMoves, PartlyCompacted, InPlace, CompactedNode, Pos;
      CompactionStart(nodes, ids);
      ghost var nodes0, blocks := nodes, BlocksOf(nodes, ids);
      NoMovesYet(blocks);
      var moves, updated := [], [];
      compactedOffset := 0;
      var prevNodeId, prevNodeOldOffset := INVALID, 0;
      for i := 0 to |ids|
        invariant |nodes| == |nodes0| && compactedOffset == Pos(blocks, i)
        invariant moves == CompactMoves(blocks, i) && updated == Updates(blocks, ids, i)
        invariant prevNodeId == if i == 0 then INVALID else ids[i - 1]
        invariant i > 0 ==> prevNodeOldOffset == blocks[i - 1].offset
        invariant PartlyCompacted(nodes0, nodes, ids, i)
      {
        var currentNodeId := ids[i];
        PlacementStep(nodes0, nodes, ids, i);
        var oldOffset, nodeSize := nodes[currentNodeId].offset, nodes[currentNodeId].size;
        updated := updated + [Alloc(compactedOffset, currentNodeId)];
        ReportStep(blocks, i);
        if oldOffset != compactedOffset {
          var contiguous := prevNodeId != INVALID && oldOffset == prevNodeOldOffset + nodes[prevNodeId].size;
          if contiguous && moves != [] {
            moves := moves[|moves| - 1 := moves[|moves| - 1].(size := moves[|moves| - 1].size + nodeSize)];
          } else {
            moves := moves + [Move(oldOffset, compactedOffset, nodeSize)];
          }
        }
        ghost var nodes1 := nodes;
        PlaceNode(currentNodeId, prevNodeId, compactedOffset);
        PlacedStep(nodes0, nodes1, nodes, ids, i);
        compactedOffset := compactedOffset + nodeSize;
        prevNodeId := currentNodeId;
        prevNodeOldOffset := oldOffset;
      }
      ghost var nodes2 := nodes;
      nodes := nodes[prevNodeId := nodes[prevNodeId].(neighborNext := INVALID)];
      LastPlaced(nodes0, nodes2, nodes, ids);
      report := Defrag(updated, moves);
    }

    // ----- defragmentation -----

    /** The loop of `defragment` over the node table: used ids are listed, unused ones written to the bottom of the
        stack. */
    method CollectNodes() returns (usedNodes: seq<int>)
      requires |freeNodes| == |nodes|
      modifies this`freeNodes, this`freeStackPtr
      ensures usedNodes == UsedIds(nodes, |nodes|)
      ensures freeNodes == Restacked(nodes, old(freeNodes)) && freeStackPtr == |UnusedIds(nodes, |nodes|)|
    {
      hide UsedIds, UnusedIds, RestackedTo;
      usedNodes := [];
      freeStackPtr := 0;
      ghost var stack0 := freeNodes;
      NothingCollected(nodes, stack0);
      for i := 0 to |nodes|
        invariant usedNodes == UsedIds(nodes, i)
        invariant freeStackPtr == |UnusedIds(nodes, i)|
        invariant |freeNodes| == |nodes| && freeNodes == RestackedTo(nodes, stack0, i)
      {
        RestackStep(nodes, stack0, i);
        if nodes[i].used {
          usedNodes := usedNodes + [i];
        } else {
          freeNodes := freeNodes[freeStackPtr := i];
          freeStackPtr := freeStackPtr + 1;
        }
      }
    }

    /** `defragmentReset` */
    method DefragmentReset(ghost active: set<int>)
      requires width in {8, 16, 32, 64} && usedBins.Length == width && binIndices.Length == 8 * width
      requires forall x :: x in active ==> 0 <= x < |nodes| && nodes[x].used
      modifies this, usedBins, binIndices
      ensures unchanged(`capacity, `chain, `nodes, `freeNodes, `freeStackPtr)
      ensures freeStorage == 0 && Lists(active)
    {
      hide MasksOk, ListsOk;
      usedBinsTop := 0;
      forall t | 0 <= t < usedBins.Length {
        usedBins[t] := 0;
      }
      forall b | 0 <= b < binIndices.Length {
        binIndices[b] := INVALID;
      }
      freeStorage := 0;
      bins := seq(8 * width, _ => []);
      EmptyMasks(width, usedBins[..], binIndices[..]);
      EmptyLists(nodes, binIndices[..], bins, active);
    }

    /** One free block of `reconstructFreeSpace`, behind the nodes `ids`. With a spare id the lists and the tiling are
        extended by it; an id in use loses its node to the block. */
    method AppendFree(size: nat, offset: nat, prev: int, ghost ids: seq<int>) returns (id: int)
      requires Shaped() && InTable(nodes, ids) && size < Pow2(width)
      requires prev == if ids == [] then INVALID else ids[|ids| - 1]
      requires freeStackPtr < |nodes| == |freeNodes| && 0 <= freeNodes[freeStackPtr] < |nodes|
      modifies this, usedBins, binIndices
      ensures unchanged(`capacity, `chain, `freeNodes)
      ensures id == freeNodes[old(freeStackPtr)] && freeStackPtr == old(freeStackPtr) + 1
      ensures Shaped() && |nodes| == |old(nodes)| && InTable(nodes, ids + [id])
      ensures old(Lists(Elements(ids))) && id !in ids ==> Lists(Elements(ids + [id]))
      ensures TiledTo(old(nodes), ids, offset) && id !in ids ==> TiledTo(nodes, ids + [id], offset + size)
      ensures freeStorage == old(freeStorage) + size
      ensures SameExtent(nodes[id], Node(offset, size, INVALID, INVALID, INVALID, INVALID, false))
      ensures forall k :: 0 <= k < |nodes| && k != id ==> SameExtent(nodes[k], old(nodes)[k])
    {
      hide Shaped, Lists, FloorToFloat, SameBlock, Tile, TiledTo, SameListing, SameExtent, Appended, Elements;
      ghost var nodes0 := nodes;
      id := InsertNode(size, offset, Elements(ids));
      ghost var nodes1 := nodes;
      ElementsAppend(ids, id);
      AppendKeepsListing(nodes1, prev, id, size, offset);
      if TiledTo(nodes0, ids, offset) && id !in ids {
        AppendTiles(nodes0, nodes1, ids, offset, id, size);
      }
      SetNeighbors(prev, id, Elements(ids + [id]));
      ExtentsThrough(nodes0, nodes1, nodes, id, size, offset);
    }

    /** The neighbour writes of `reconstructFreeSpace`. */
    method SetNeighbors(prev: int, id: int, ghost active: set<int>)
      requires 0 <= id < |nodes| && !nodes[id].used && (prev != INVALID ==> 0 <= prev < |nodes|)
      modifies this`nodes
      ensures nodes == Appended(old(nodes), prev, id)
      ensures (old(Shaped()) ==> Shaped()) && (old(Lists(active)) ==> Lists(active))
    {
      hide MasksOk, ListsOk;
      ghost var nodes0, clean := nodes, Lists(active);
      nodes := nodes[id := nodes[id].(used := false, neighborPrev := prev)];
      if prev != INVALID {
        nodes := nodes[prev := nodes[prev].(neighborNext := id)];
      }
      if clean {
        RelinkKeepsMatch(nodes0, nodes, binIndices[..], bins, active);
      }
    }

    /** `reconstructFreeSpace`: the rest of the memory becomes a block of an exact bin size and, if anything is left,
        a second free block right behind it, under the ids next on the stack. If these are spare, the lists are exact
        and the nodes tile the memory; the nodes of all other ids stay where they are in any case. */
    method ReconstructFreeSpace(compactedOffset: nat, lastUsedNode: int, ghost ids: seq<int>)
      requires Lists(Elements(ids)) && TiledTo(nodes, ids, compactedOffset) && freeStorage == 0
      requires compactedOffset < capacity < Pow2(width)
      requires lastUsedNode == if ids == [] then INVALID else ids[|ids| - 1]
      requires |freeNodes| == |nodes| && InTable(nodes, freeNodes)
      requires freeStackPtr + Pieces(capacity - compactedOffset) <= |nodes|
      modifies this, usedBins, binIndices
      ensures unchanged(`capacity, `chain, `freeNodes) && |nodes| == |old(nodes)|
      ensures freeStorage == capacity - compactedOffset && Shaped()
      ensures freeStackPtr == old(freeStackPtr) + Pieces(capacity - compactedOffset)
      ensures FreeBlocksAt(old(nodes), nodes, Popped(freeNodes, old(freeStackPtr), Pieces(capacity - compactedOffset)))
      ensures var all := ids + Popped(freeNodes, old(freeStackPtr), Pieces(capacity - compactedOffset));
        Distinct(all) ==> Lists(Elements(all)) && TiledTo(nodes, all, capacity)
      ensures Pieces(capacity - compactedOffset) > 0
      ensures var all := ids + Popped(freeNodes, old(freeStackPtr), Pieces(capacity - compactedOffset));
        Distinct(all) ==> MainSize(nodes, all[|ids|], capacity - compactedOffset)
    {
      hide Shaped, Lists, FloorToFloat, Value, ToUint, TiledTo, Elements, Distinct, Pieces, FreeBlocksAt, Popped,
        SameExtent, MainSize;
      PieceCount(capacity - compactedOffset);
      ListsAreShaped(Elements(ids));
      ShapedHeads();
      TiledTable(nodes, ids, compactedOffset);
      var totalFreeSize := capacity - compactedOffset;
      var mainBlockSize := ToUint(width, FloorToFloat(totalFreeSize));
      MainFits(width, totalFreeSize);
      var sliverSize := totalFreeSize - mainBlockSize;
      ghost var nodes0, ptr := nodes, freeStackPtr;
      var mainNode := AppendFree(mainBlockSize, compactedOffset, lastUsedNode, ids);
      if sliverSize > 0 {
        ghost var nodes1 := nodes;
        FreeSameExtent(nodes, mainNode, mainBlockSize, compactedOffset);
        var sliverNode := AppendFree(sliverSize, compactedOffset + mainBlockSize, mainNode, ids + [mainNode]);
        PoppedTwo(freeNodes, ptr);
        DistinctTwo(ids, mainNode, sliverNode);
        FreeSameExtent(nodes, sliverNode, sliverSize, compactedOffset + mainBlockSize);
        TwoFreeBlocks(nodes0, nodes1, nodes, mainNode, sliverNode);
        if mainNode != sliverNode {
          MainIsExact(nodes1, nodes, mainNode, totalFreeSize, compactedOffset);
        }
      } else {
        PoppedOne(freeNodes, ptr);
        DistinctAppend(ids, [mainNode]);
        assert mainNode in [mainNode];
        FreeSameExtent(nodes, mainNode, mainBlockSize, compactedOffset);
        OneFreeBlock(nodes0, nodes, mainNode);
        MainIsExact(nodes, nodes, mainNode, totalFreeSize, compactedOffset);
      }
    }

    /** `defragment`: the used nodes, in the order that sorting by offset leaves them, are compacted, and the free space
        behind them is rebuilt under the ids next on the stack. The report moves every block's data to its new place.
        A block keeps its node exactly if its id is not among the ids popped, and the memory ends up tiled, with exact
        lists, exactly if the ids popped are spare. */
    method Defragment(newSize: nat, order: seq<int>) returns (report: Defrag)
      requires Valid() && newSize < Pow2(width) && SortedUsed(nodes, order)
      requires CanPop(nodes, newSize, order)
      modifies this, usedBins, binIndices
      ensures capacity == newSize && |nodes| == |old(nodes)|
      ensures Ordered(BlocksOf(old(nodes), order)) && Inside(BlocksOf(old(nodes), order), old(capacity))
      ensures report
        == Defrag(Updates(BlocksOf(old(nodes), order), order, |order|),
          CompactMoves(BlocksOf(old(nodes), order), |order|))
      ensures |report.updatedAllocs| == |order|
      ensures forall i :: 0 <= i < |order| ==> Gapless(old(nodes), order, report.updatedAllocs, i)
      ensures freeStorage == Leftover(newSize, old(nodes), order)
      ensures chain == order + old(PoppedIds(nodes, freeNodes, newSize, order))
      ensures forall x :: x in chain[|order|..] ==> 0 <= x < |nodes| && !nodes[x].used
      ensures forall i :: 0 <= i < |order| ==>
        (Relocated(old(nodes), nodes, order, i) <==> order[i] !in chain[|order|..])
      ensures forall i :: 0 <= i < |order| && order[i] !in chain[|order|..] ==>
        nodes[order[i]].offset == report.updatedAllocs[i].offset && nodes[order[i]].size == old(nodes)[order[i]].size
      ensures old(PopsSpare(nodes, freeNodes, newSize, order)) <==>
        TiledTo(nodes, chain, if freeStorage > 0 then newSize else Pos(BlocksOf(old(nodes), order), |order|))
      ensures old(PopsSpare(nodes, freeNodes, newSize, order)) ==> Lists(Elements(chain))
      ensures freeStorage > 0 ==> |order| < |chain|
      ensures freeStorage > 0 && old(PopsSpare(nodes, freeNodes, newSize, order)) ==>
        MainSize(nodes, chain[|order|], freeStorage)
      ensures freeNodes == old(Restacked(nodes, freeNodes))
      ensures freeStackPtr == |UnusedIds(old(nodes), |nodes|)| + Pieces(freeStorage)
      ensures old(PopsSpare(nodes, freeNodes, newSize, order)) ==>
        (IdsOk(|nodes|, Elements(chain), freeNodes, freeStackPtr) <==> old(StackRecovers(nodes, freeNodes)))
      ensures Valid() <==>
        old(StackRecovers(nodes, freeNodes)) && Pieces(freeStorage) <= 1 &&
        Pos(BlocksOf(old(nodes), order), |order|) <= newSize
    {
      hide FloorToFloat, Value, TiledTo, Linked, FreeSum, CompactMoves, Updates, Relocated, Pieces, Ordered, Inside,
        SortedUsed, FreshPops, UnusedIds, UsedIds, ChainOk, UsedOnChain, BlocksOf, Pos, Popped, Distinct, Restacked,
        Elements, FreeBlocksAt, Valid, Lists, Leftover, IdsOk, StackRecovers, Pow2, Gapless, MainSize;
      ValidShape();
      UsedInOrder(nodes, nodes, order);
      ghost var nodes0, stack0 := nodes, freeNodes;
      ghost var ptr, count := |UnusedIds(nodes, |nodes|)|, Pieces(Leftover(newSize, nodes, order));
      SortedIsOrdered(nodes, chain, capacity, order);
      var usedNodes := CollectNodes();
      var compactedOffset, lastUsedNode;
      report, compactedOffset, lastUsedNode := CompactAll(order);
      ghost var nodes1 := nodes;
      RestackedPopped(nodes0, stack0, count);
      FreshIffDistinct(nodes0, stack0, order, ptr, count);
      UsedInOrder(nodes0, nodes1, order);
      LeftoverIs(newSize, nodes0, order);
      RebuildFreeSpace(newSize, compactedOffset, lastUsedNode, order);
      if FreshPops(nodes0, stack0, ptr, count) {
        StackAfter(nodes0, stack0, order, count);
      }
      RelocatedUnlessPopped(nodes0, nodes1, nodes, order, Popped(stack0, ptr, count));
      UpdatesAreGapless(nodes0, order);
      forall i | 0 <= i < |order| && Relocated(nodes0, nodes, order, i)
        ensures nodes[order[i]].offset == report.updatedAllocs[i].offset &&
          nodes[order[i]].size == nodes0[order[i]].size
      {
        RelocatedIsReported(nodes0, nodes, order, i);
      }
      UsedUnlessPopped(nodes0, nodes1, nodes, Popped(stack0, ptr, count));
      if StackRecovers(nodes0, stack0) {
        RecoversPopsSpare(nodes0, stack0, count);
      }
      PoppedCount(stack0, ptr, count);
      RebuiltIsValid(nodes0, stack0, order, Popped(stack0, ptr, count), compactedOffset);
    }

    /** What it takes for a rebuilt allocator to be whole again: half of the nodes were in use, all stack entries above
        the number of unused ids were spare, and the used blocks leave at most one free block. */
    lemma RebuiltIsValid(nodes0: seq<Node>, stack0: seq<int>, order: seq<int>, popped: seq<int>, used: nat)
      requires |nodes0| == |stack0| == |nodes| >= 2 && SortedUsed(nodes0, order) && capacity < Pow2(width)
      requires used == Pos(BlocksOf(nodes0, order), |order|) && |popped| == Pieces(freeStorage)
      requires freeStorage == if capacity > used then capacity - used else 0
      requires chain == order + popped && forall x :: x in popped ==> 0 <= x < |nodes| && !nodes[x].used
      requires forall x :: 0 <= x < |nodes| && x !in popped ==> nodes[x].used == nodes0[x].used
      requires forall i :: 0 <= i < |order| ==> (Relocated(nodes0, nodes, order, i) <==> order[i] !in popped)
      requires Distinct(chain) ==>
        && TiledTo(nodes, chain, if freeStorage > 0 then capacity else used) && Lists(Elements(chain))
        && (IdsOk(|nodes|, Elements(chain), freeNodes, freeStackPtr) <==> StackRecovers(nodes0, stack0))
      requires StackRecovers(nodes0, stack0) ==> Distinct(chain)
      ensures Valid() <==> StackRecovers(nodes0, stack0) && Pieces(freeStorage) <= 1 && used <= capacity
    {
      hide *;
      if StackRecovers(nodes0, stack0) {
        RecoversNonempty(nodes0, stack0, order);
        NotPopped(order, popped);
        PieceCount(freeStorage);
        RebuiltUsed(nodes0, nodes, order, popped, used);
        RebuiltChain(nodes, chain, |order|, capacity, used);
        if |popped| <= 1 && used <= capacity {
          AllValid();
        } else if Valid() {
          ValidShape();
        }
      } else if Valid() {
        ValidShape();
        ChainTable(nodes, chain, capacity);
        ValidIds();
      }
    }

    /** The last step of `defragment`: the bins are cleared and the free space behind the used nodes is rebuilt. */
    method RebuildFreeSpace(newSize: nat, compactedOffset: nat, lastUsedNode: int, ghost order: seq<int>)
      requires width in {8, 16, 32, 64} && usedBins.Length == width && binIndices.Length == 8 * width &&
        newSize < Pow2(width)
      requires TiledTo(nodes, order, compactedOffset) && forall x :: x in order ==> 0 <= x < |nodes| && nodes[x].used
      requires lastUsedNode == if order == [] then INVALID else order[|order| - 1]
      requires |freeNodes| == |nodes| && InTable(nodes, freeNodes)
      requires freeStackPtr <= |nodes|
      requires newSize > compactedOffset ==> freeStackPtr + Pieces(newSize - compactedOffset) <= |nodes|
      modifies this, usedBins, binIndices
      ensures capacity == newSize && |nodes| == |old(nodes)|
      ensures freeStorage == if newSize > compactedOffset then newSize - compactedOffset else 0
      ensures chain == order + Popped(old(freeNodes), old(freeStackPtr), Pieces(freeStorage))
      ensures FreeBlocksAt(old(nodes), nodes, Popped(old(freeNodes), old(freeStackPtr), Pieces(freeStorage)))
      ensures Distinct(chain) <==> TiledTo(nodes, chain, if freeStorage > 0 then newSize else compactedOffset)
      ensures Distinct(chain) ==> Lists(Elements(chain))
      ensures freeStorage > 0 ==>
        |order| < |chain| && (Distinct(chain) ==> MainSize(nodes, chain[|order|], freeStorage))
      ensures freeNodes == old(freeNodes) && freeStackPtr == old(freeStackPtr) + Pieces(freeStorage)
    {
      hide TiledTo, Pieces, Popped, Distinct, FreeBlocksAt, Lists, MainSize;
      NoPieces();
      ghost var popped := Popped(freeNodes, freeStackPtr,
        if newSize > compactedOffset then Pieces(newSize - compactedOffset) else 0);
      capacity := newSize;
      chain := order + popped;
      DefragmentReset(Elements(order));
      if capacity > compactedOffset {
        PieceCount(capacity - compactedOffset);
        PoppedCount(freeNodes, freeStackPtr, Pieces(capacity - compactedOffset));
        ReconstructFreeSpace(compactedOffset, lastUsedNode, order);
        if !Distinct(chain) {
          NotTiled(nodes, chain, newSize);
        }
      } else {
        NothingPopped(freeNodes, freeStackPtr);
        assert chain == order;
        TiledTable(nodes, order, compactedOffset);
        NoFreeBlocks(nodes);
      }
    }

    /** The compaction step of `defragment`, skipped when nothing is in use. */
    method CompactAll(order: seq<int>) returns (report: Defrag, compactedOffset: nat, lastUsedNode: int)
      requires SortedUsed(nodes, order)
      modifies this`nodes
      ensures |nodes| == |old(nodes)|
      ensures report
        == Defrag(Updates(BlocksOf(old(nodes), order), order, |order|),
          CompactMoves(BlocksOf(old(nodes), order), |order|))
      ensures compactedOffset == Pos(BlocksOf(old(nodes), order), |order|)
      ensures lastUsedNode == if order == [] then INVALID else order[|order| - 1]
      ensures TiledTo(nodes, order, compactedOffset)
      ensures forall i :: 0 <= i < |order| ==> Relocated(old(nodes), nodes, order, i)
      ensures forall x :: 0 <= x < |nodes| ==> nodes[x].used == old(nodes)[x].used
    {
      hide CompactMoves, TiledTo, Relocated, InPlace, Pos, BlocksOf;
      report, compactedOffset, lastUsedNode := Defrag([], []), 0, INVALID;
      ghost var nodes0 := nodes;
      if order != [] {
        report, compactedOffset := CompactUsedNodes(order);
        lastUsedNode := order[|order| - 1];
        CompactedTiles(nodes0, nodes, order);
        CompactedRelocates(nodes0, nodes, order);
      } else {
        NothingTiled(nodes);
        NoMovesYet(BlocksOf(nodes, order));
        CompactionStart(nodes, order);
      }
    }
  }
}
