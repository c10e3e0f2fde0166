/** The value-level half of the allocator: what the id stack, the bins and the chain promise each other,
    and how the steps of `allocate`, `free` and `defragment` keep those promises. */
module Pools {
  import opened Collections
  import opened Words
  import opened TinyFloat
  import opened Nodes
  import opened Bins
  import opened Edits
  import opened Memmoves
  import opened Compaction
  import opened Rebuild

  datatype Alloc = Alloc(offset: int, id: int)

  /** The report of a defragmentation. */
  datatype Defrag = Defrag(updatedAllocs: seq<Alloc>, moves: seq<Move>)

  /** The id stack holds ids; its live part `freeNodes[ptr..]` holds distinct ones, none of them active,
      and there are exactly as many active ids as popped ones. */
  predicate IdsOk(n: nat, active: set<int>, freeNodes: seq<int>, ptr: nat) {
    && |freeNodes| == n && ptr <= n && |active| == ptr
    && (forall x :: x in active ==> 0 <= x < n)
    && (forall i :: 0 <= i < n ==> 0 <= freeNodes[i] < n)
    && (forall i :: ptr <= i < n ==> freeNodes[i] !in active)
    && (forall i, j :: ptr <= i < j < n ==> freeNodes[i] != freeNodes[j])
  }

  /** Bins hold active nodes only, and every active free node is in the bin of its size. */
  ghost predicate BinsMatch(nodes: seq<Node>, bins: seq<seq<int>>, active: set<int>) {
    && (forall b, j :: 0 <= b < |bins| && 0 <= j < |bins[b]| ==> bins[b][j] in active)
    && (forall x :: x in active ==> 0 <= x < |nodes|)
    && (forall x :: x in active && !nodes[x].used ==>
          FloorToFloat(nodes[x].size) < |bins| && x in bins[FloorToFloat(nodes[x].size)])
  }

  ghost predicate ListsOk(nodes: seq<Node>, heads: seq<int>, bins: seq<seq<int>>, active: set<int>) {
    BinsOk(nodes, heads, bins) && BinsMatch(nodes, bins, active)
  }

  /** Popping and pushing ids. */
  lemma PopKeepsIds(n: nat, active: set<int>, freeNodes: seq<int>, ptr: nat)
    requires IdsOk(n, active, freeNodes, ptr) && ptr < n
    ensures |freeNodes| == n && 0 <= freeNodes[ptr] < n
    ensures freeNodes[ptr] !in active && IdsOk(n, active + {freeNodes[ptr]}, freeNodes, ptr + 1)
  {
  }

  lemma PushKeepsIds(n: nat, active: set<int>, freeNodes: seq<int>, ptr: nat, id: int)
    requires IdsOk(n, active, freeNodes, ptr) && id in active
    ensures ptr > 0 && IdsOk(n, active - {id}, freeNodes[ptr - 1 := id], ptr - 1)
  {
    assert active == (active - {id}) + {id};
  }

  /** A fresh free node joins its bin. */
  lemma InsertKeepsMatch(nodes: seq<Node>, heads: seq<int>, bins: seq<seq<int>>, active: set<int>, id: int, size: nat,
    offset: nat)
    requires ListsOk(nodes, heads, bins, active)
    requires 0 <= id < |nodes| && id !in active && FloorToFloat(size) < |bins|
    ensures var b := FloorToFloat(size);
      && (heads[b] != INVALID ==> 0 <= heads[b] < |nodes|)
      && var nodes' := PushFront(nodes, heads[b], id, size, offset);
      && ListsOk(nodes', heads[b := id], bins[b := [id] + bins[b]], active + {id})
  {
    var b := FloorToFloat(size);
    PushKeepsBins(nodes, heads, bins, id, size, offset);
    var nodes', bins' := PushFront(nodes, heads[b], id, size, offset), bins[b := [id] + bins[b]];
    assert bins[b] != [] ==> bins[b][0] in active;
    PushFrontBlocks(nodes, heads[b], id, size, offset);
    forall x | x in active + {id} && !nodes'[x].used
      ensures FloorToFloat(nodes'[x].size) < |bins'| && x in bins'[FloorToFloat(nodes'[x].size)]
    {
      if x != id {
        assert SameBlock(nodes'[x], nodes[x]);
        assert x in bins[FloorToFloat(nodes[x].size)];
      }
    }
  }

  /** A node leaves its bin; with `n` in its place it may stay active as a used node. */
  lemma RemoveKeepsMatch(nodes: seq<Node>, heads: seq<int>, bins: seq<seq<int>>, active: set<int>, b: nat, j: nat)
    requires ListsOk(nodes, heads, bins, active) && b < |bins| && j < |bins[b]|
    ensures var id := bins[b][j];
      && LinksInTable(nodes, id) && id in active
      && (nodes[id].binPrev == INVALID <==> j == 0)
      && !nodes[id].used && FloorToFloat(nodes[id].size) == b
      && nodes[id].binPrev != id && nodes[id].binNext != id
      && heads[b] == bins[b][0]
      && var head := if j == 0 then nodes[id].binNext else heads[b];
      && ListsOk(Unlinked(nodes, id), heads[b := head], bins[b := Without(bins[b], j)], active - {id})
      && forall k :: 0 <= k < |nodes| ==> SameBlock(Unlinked(nodes, id)[k], nodes[k])
  {
    assert BinOk(nodes, heads, bins, b);
    ListMemberLinks(nodes, bins[b], b, j);
    RemoveKeepsBins(nodes, heads, bins, b, j);
    var id := bins[b][j];
    var nodes', bins' := Unlinked(nodes, id), bins[b := Without(bins[b], j)];
    forall c, i | 0 <= c < |bins'| && 0 <= i < |bins'[c]| ensures bins'[c][i] in active - {id} {
      if c != b {
        BinsDisjoint(nodes, heads, bins, b, c, j, i);
      } else {
        assert bins'[c][i] == bins[b][if i < j then i else i + 1];
      }
    }
    forall x | x in active - {id} && !nodes'[x].used
      ensures FloorToFloat(nodes'[x].size) < |bins'| && x in bins'[FloorToFloat(nodes'[x].size)]
    {
      assert SameBlock(nodes'[x], nodes[x]);
      var c := FloorToFloat(nodes[x].size);
      var i :| 0 <= i < |bins[c]| && bins[c][i] == x;
      if c == b {
        assert i != j;
        assert bins'[b][if i < j then i else i - 1] == x;
      }
    }
  }

  // ----- the order within the bins -----

  /** What is left of a list without the ids in `gone`. */
  function Staying(list: seq<int>, gone: set<int>): seq<int> {
    if list == [] then [] else (if list[0] in gone then [] else [list[0]]) + Staying(list[1..], gone)
  }

  /** Ids are kept or dropped one by one and stay in order. */
  lemma {:induction false} StayingConcat(l: seq<int>, m: seq<int>, gone: set<int>)
    ensures Staying(l + m, gone) == Staying(l, gone) + Staying(m, gone)
    ensures forall x :: Staying([x], gone) == if x in gone then [] else [x]
    decreases |l|
  {
    if l == [] {
      assert [] + m == m;
    } else {
      assert (l + m)[1..] == l[1..] + m;
      StayingConcat(l[1..], m, gone);
    }
  }

  lemma {:induction false} StayingAll(list: seq<int>, gone: set<int>)
    requires forall x :: x in list ==> x !in gone
    ensures Staying(list, gone) == list
  {
    if list != [] {
      var head := list[0];
      assert head in list;
      StayingAll(list[1..], gone);
      assert Staying(list, gone) == [head] + list[1..] == list;
    }
  }

  lemma {:induction false} StayingTwice(list: seq<int>, s: set<int>, t: set<int>)
    ensures Staying(Staying(list, s), t) == Staying(list, s + t)
  {
    if list != [] {
      StayingConcat(if list[0] in s then [] else [list[0]], Staying(list[1..], s), t);
      StayingTwice(list[1..], s, t);
    }
  }

  /** Every bin has lost the ids in `gone` and nothing else. */
  ghost predicate Dropped(bins: seq<seq<int>>, bins': seq<seq<int>>, gone: set<int>) {
    |bins'| == |bins| && forall c :: 0 <= c < |bins| ==> bins'[c] == Staying(bins[c], gone)
  }

  lemma DropNone(bins: seq<seq<int>>)
    ensures Dropped(bins, bins, {})
  {
    forall c | 0 <= c < |bins| ensures bins[c] == Staying(bins[c], {}) {
      StayingAll(bins[c], {});
    }
  }

  lemma DropTwice(bins: seq<seq<int>>, bins1: seq<seq<int>>, bins2: seq<seq<int>>, s: set<int>, t: set<int>)
    requires Dropped(bins, bins1, s) && Dropped(bins1, bins2, t)
    ensures Dropped(bins, bins2, s + t)
  {
    forall c | 0 <= c < |bins| ensures bins2[c] == Staying(bins[c], s + t) {
      StayingTwice(bins[c], s, t);
    }
  }

  /** Taking one id out of its place in its bin. */
  lemma DropOne(nodes: seq<Node>, heads: seq<int>, bins: seq<seq<int>>, active: set<int>, b: nat, j: nat)
    requires ListsOk(nodes, heads, bins, active) && b < |bins| && j < |bins[b]|
    ensures Dropped(bins, bins[b := Without(bins[b], j)], {bins[b][j]})
  {
    var x := bins[b][j];
    forall c | 0 <= c < |bins| ensures bins[b := Without(bins[b], j)][c] == Staying(bins[c], {x}) {
      assert BinOk(nodes, heads, bins, c);
      if c == b {
        WithoutIsStaying(bins[b], j);
      } else {
        forall y | y in bins[c] ensures y != x {
          var i :| 0 <= i < |bins[c]| && bins[c][i] == y;
          BinsDisjoint(nodes, heads, bins, b, c, j, i);
        }
        StayingAll(bins[c], {x});
      }
    }
  }

  lemma WithoutIsStaying(list: seq<int>, j: nat)
    requires j < |list| && Distinct(list)
    ensures Without(list, j) == Staying(list, {list[j]})
  {
    hide Staying, Distinct;
    OnlyThere(list, j);
    LeaveOut(list[..j], list[j], list[j + 1..]);
    assert list == list[..j] + ([list[j]] + list[j + 1..]);
  }

  lemma OnlyThere(list: seq<int>, j: nat)
    requires j < |list| && Distinct(list)
    ensures list[j] !in list[..j] && list[j] !in list[j + 1..]
  {
  }

  lemma LeaveOut(l: seq<int>, x: int, m: seq<int>)
    requires x !in l && x !in m
    ensures Staying(l + ([x] + m), {x}) == l + m
  {
    hide Staying;
    StayingConcat(l, [x] + m, {x});
    StayingConcat([x], m, {x});
    StayingAll(l, {x});
    StayingAll(m, {x});
  }

  /** What a free does to the bins: the absorbed ids leave them, and the merged block heads the bin of its size. */
  ghost predicate MergedInFront(bins: seq<seq<int>>, bins': seq<seq<int>>, id: int, size: nat, gone: set<int>) {
    && |bins'| == |bins| && FloorToFloat(size) < |bins|
    && forall c :: 0 <= c < |bins| ==>
      bins'[c] == (if c == FloorToFloat(size) then [id] else []) + Staying(bins[c], gone)
  }

  lemma MergedIsInFront(bins: seq<seq<int>>, bins1: seq<seq<int>>, bins2: seq<seq<int>>, id: int, size: nat,
    gone: set<int>)
    requires Dropped(bins, bins1, gone) && FloorToFloat(size) < |bins1|
    requires bins2 == bins1[FloorToFloat(size) := [id] + bins1[FloorToFloat(size)]]
    ensures MergedInFront(bins, bins2, id, size, gone)
  {
    hide FloorToFloat, Staying;
  }

  lemma HeadIsBlock(nodes: seq<Node>, heads: seq<int>, bins: seq<seq<int>>, chain: seq<int>, b: nat, at: nat)
    requires ListsOk(nodes, heads, bins, Elements(chain)) && InTable(nodes, chain)
    requires b < |bins| && bins[b] != [] && at < |chain| && chain[at] == bins[b][0]
    ensures var s := SegmentsOf(nodes, chain)[at]; s.id == bins[b][0] && FloorToFloat(s.size) == b
    ensures SegmentsOf(nodes, chain)[at].size == nodes[chain[at]].size
  {
    assert SegmentsOf(nodes, chain)[at] == SegmentAt(nodes, chain, at);
    assert BinOk(nodes, heads, bins, b);
    assert Listed(nodes, bins[b], b, 0);
  }

  /** What an allocation does to the bins: block `s` leaves the front of its bin, and what is left of it, if anything,
      heads the bin of its own size. */
  ghost predicate TakenFromFront(bins: seq<seq<int>>, bins': seq<seq<int>>, s: Segment, size: nat, rest: int) {
    && |bins'| == |bins| && size <= s.size
    && FloorToFloat(s.size) < |bins| && bins[FloorToFloat(s.size)] != [] && bins[FloorToFloat(s.size)][0] == s.id
    && (size < s.size ==> FloorToFloat(s.size - size) < |bins|)
    && forall c :: 0 <= c < |bins| ==>
      bins'[c] == (if size < s.size && c == FloorToFloat(s.size - size) then [rest] else [])
        + if c == FloorToFloat(s.size) then bins[c][1..] else bins[c]
  }

  lemma TakingIsFromFront(bins: seq<seq<int>>, bins1: seq<seq<int>>, bins2: seq<seq<int>>, s: Segment, size: nat,
    rest: int)
    requires FloorToFloat(s.size) < |bins| && bins[FloorToFloat(s.size)] != [] && bins[FloorToFloat(s.size)][0] == s.id
    requires bins1 == bins[FloorToFloat(s.size) := bins[FloorToFloat(s.size)][1..]] && size <= s.size
    requires size == s.size ==> bins2 == bins1
    requires size < s.size ==> FloorToFloat(s.size - size) < |bins1|
    requires size < s.size ==>
      bins2 == bins1[FloorToFloat(s.size - size) := [rest] + bins1[FloorToFloat(s.size - size)]]
    ensures TakenFromFront(bins, bins2, s, size, rest)
  {
    hide FloorToFloat;
  }

  /** The ids that `free` gives back for the neighbours it absorbs, the last one pushed first. */
  function Returned(chain: seq<int>, i: nat, a: nat, b: nat): seq<int>
    requires a <= i < b <= |chain|
  {
    (if i + 1 < b then [chain[i + 1]] else []) + if a < i then [chain[i - 1]] else []
  }

  lemma ReturnedIds(chain: seq<int>, i: nat, a: nat, b: nat, spare: seq<int>)
    requires a <= i < b <= |chain|
    ensures a == i && i + 1 == b ==> Returned(chain, i, a, b) + spare == spare
    ensures a < i && i + 1 == b ==> Returned(chain, i, a, b) + spare == [chain[i - 1]] + spare
    ensures a == i && i + 1 < b ==> Returned(chain, i, a, b) + spare == [chain[i + 1]] + spare
    ensures a < i && i + 1 < b ==> Returned(chain, i, a, b) + spare == [chain[i + 1]] + ([chain[i - 1]] + spare)
    ensures Elements(Returned(chain, i, a, b))
      == (if a < i then {chain[i - 1]} else {}) + (if i + 1 < b then {chain[i + 1]} else {})
  {
  }

  lemma PushedTop(stack: seq<int>, ptr: nat, id: int)
    requires 0 < ptr <= |stack|
    ensures stack[ptr - 1 := id][ptr - 1..] == [id] + stack[ptr..]
    ensures stack[ptr - 1 := id][ptr..] == stack[ptr..]
  {
  }

  lemma GrowKeepsIds(n: nat, active: set<int>, freeNodes: seq<int>, ptr: nat, count: nat)
    requires IdsOk(n, active, freeNodes, ptr) && n <= count
    ensures IdsOk(count, active, freeNodes + seq(count - n, i => n + i), ptr)
  {
  }

  lemma MaskCount(w: nat, top: nat, leaf: seq<nat>, heads: seq<int>)
    requires MasksOk(w, top, leaf, heads)
    ensures |leaf| == w && |heads| == 8 * w && top < Pow2(w)
    ensures w <= 64 ==> w <= TopBits(w) && top < Pow2(TopBits(w))
  {
    if w <= 64 {
      Pow2Monotone(w, TopBits(w));
    }
  }

  lemma BinCount(w: nat, top: nat, leaf: seq<nat>, heads: seq<int>, nodes: seq<Node>, bins: seq<seq<int>>,
    active: set<int>)
    requires MasksOk(w, top, leaf, heads) && ListsOk(nodes, heads, bins, active)
    ensures |leaf| == w && |heads| == |bins| == 8 * w
  {
  }

  /** The node writes that take `id` from the front of its list as a used block of `size`. */
  function Taken(nodes: seq<Node>, id: int, size: nat): seq<Node>
    requires 0 <= id < |nodes| && (nodes[id].binNext != INVALID ==> 0 <= nodes[id].binNext < |nodes|)
  {
    var nodes1, next := nodes[id := nodes[id].(size := size, used := true)], nodes[id].binNext;
    if next == INVALID then nodes1 else nodes1[next := nodes1[next].(binPrev := INVALID)]
  }

  lemma TakeKeepsMatch(nodes: seq<Node>, heads: seq<int>, bins: seq<seq<int>>, active: set<int>, b: nat, size: nat)
    requires ListsOk(nodes, heads, bins, active) && b < |bins| && bins[b] != []
    ensures var id := bins[b][0];
      && 0 <= id < |nodes| && id in active && heads[b] == id
      && (nodes[id].binNext != INVALID ==> 0 <= nodes[id].binNext < |nodes|)
      && ListsOk(Taken(nodes, id, size), heads[b := nodes[id].binNext], bins[b := bins[b][1..]], active)
      && SameBlock(Taken(nodes, id, size)[id], nodes[id].(size := size, used := true))
      && forall k :: 0 <= k < |nodes| && k != id ==> SameBlock(Taken(nodes, id, size)[k], nodes[k])
  {
    RemoveKeepsMatch(nodes, heads, bins, active, b, 0);
    var id := bins[b][0];
    var nodes', bins' := Unlinked(nodes, id), bins[b := Without(bins[b], 0)];
    assert Without(bins[b], 0) == bins[b][1..];
    UseKeepsMatch(nodes', heads[b := nodes[id].binNext], bins', active, id, nodes'[id].(size := size, used := true));
    assert Taken(nodes, id, size) == nodes'[id := nodes'[id].(size := size, used := true)];
  }

  /** A node outside every bin may be rewritten as a used one. */
  lemma UseKeepsMatch(nodes: seq<Node>, heads: seq<int>, bins: seq<seq<int>>, active: set<int>, id: int, n: Node)
    requires ListsOk(nodes, heads, bins, active - {id}) && 0 <= id < |nodes| && n.used && id in active
    ensures ListsOk(nodes[id := n], heads, bins, active)
  {
    WriteKeepsBins(nodes, heads, bins, id, n);
    forall x | x in active ensures 0 <= x < |nodes| && (x != id ==> x in active - {id}) {
      assert x != id ==> x in active - {id};
    }
  }

  /** A used node is in no bin, so it can be given up without touching one. */
  lemma RetireKeepsMatch(nodes: seq<Node>, heads: seq<int>, bins: seq<seq<int>>, active: set<int>, id: int)
    requires ListsOk(nodes, heads, bins, active) && 0 <= id < |nodes| && nodes[id].used
    ensures ListsOk(nodes, heads, bins, active - {id})
  {
    forall b, j | 0 <= b < |bins| && 0 <= j < |bins[b]| ensures bins[b][j] != id {
      assert BinOk(nodes, heads, bins, b);
      assert Listed(nodes, bins[b], b, j);
    }
  }

  /** The lists do not see the neighbour links. */
  lemma RelinkKeepsMatch(nodes: seq<Node>, nodes': seq<Node>, heads: seq<int>, bins: seq<seq<int>>, active: set<int>)
    requires ListsOk(nodes, heads, bins, active) && |nodes'| == |nodes|
    requires forall k :: 0 <= k < |nodes| ==> SameListing(nodes[k], nodes'[k])
    ensures ListsOk(nodes', heads, bins, active)
  {
    RelinkKeepsBins(nodes, nodes', heads, bins);
    forall x | x in active && !nodes'[x].used
      ensures FloorToFloat(nodes'[x].size) < |bins| && x in bins[FloorToFloat(nodes'[x].size)]
    {
      assert SameListing(nodes[x], nodes'[x]);
    }
  }

  /** More spare nodes change nothing for the active ones. */
  lemma GrowKeepsMatch(nodes: seq<Node>, more: seq<Node>, heads: seq<int>, bins: seq<seq<int>>, active: set<int>)
    requires ListsOk(nodes, heads, bins, active)
    ensures ListsOk(nodes + more, heads, bins, active)
  {
    RelinkKeepsBins(nodes, nodes + more, heads, bins);
  }

  /** Some free block is in a bin that guarantees `size`. */
  ghost predicate Fits(segs: seq<Segment>, size: nat) {
    exists i :: 0 <= i < |segs| && Suits(segs[i], size)
  }

  ghost predicate Suits(s: Segment, size: nat) {
    !s.used && CeilToFloat(size) <= FloorToFloat(s.size)
  }

  /** Block `at` is in the lowest of the non-empty bins that guarantee `size`. */
  ghost predicate BestFit(segs: seq<Segment>, size: nat, at: nat) {
    && at < |segs| && Suits(segs[at], size)
    && forall i :: 0 <= i < |segs| && Suits(segs[i], size) ==> FloorToFloat(segs[at].size) <= FloorToFloat(segs[i].size)
  }

  /** `id` is the node at the front of the bin of block `s`. */
  ghost predicate TakesHead(bins: seq<seq<int>>, s: Segment, id: int) {
    FloorToFloat(s.size) < |bins| && Head(bins[FloorToFloat(s.size)]) == id
  }

  /** What the bins guarantee in terms of sizes: the block still holds `size` when rounded down to its bin. */
  lemma SuitsIsRounded(s: Segment, size: nat)
    ensures Suits(s, size) <==> !s.used && size <= Value(FloorToFloat(s.size))
    ensures Suits(s, size) ==> size <= s.size
  {
    CeilGalois(size, FloorToFloat(s.size));
    FloorBrackets(s.size);
  }

  lemma BestFitFits(segs: seq<Segment>, size: nat, at: nat)
    requires BestFit(segs, size, at)
    ensures Fits(segs, size)
  {
  }

  lemma LiveBlock(nodes: seq<Node>, chain: seq<int>, x: int)
    requires InTable(nodes, chain) && x in LiveOf(nodes, chain)
    ensures 0 <= x < |nodes| && LiveOf(nodes, chain)[x] == Block(nodes[x].offset, nodes[x].size)
  {
  }

  lemma TooLarge(nodes: seq<Node>, chain: seq<int>, capacity: nat, size: nat)
    requires ChainOk(nodes, chain, capacity) && size > FreeSum(nodes, chain)
    ensures !Fits(SegmentsOf(nodes, chain), size)
  {
    var segs := SegmentsOf(nodes, chain);
    forall i | 0 <= i < |segs| ensures !Suits(segs[i], size) {
      assert segs[i] == SegmentAt(nodes, chain, i);
      if !segs[i].used {
        FreeBlockCounted(nodes, chain, i, capacity);
        SuitsIsRounded(segs[i], size);
      }
    }
  }

  /** A free block's bin is not empty. */
  lemma FreeHasHead(nodes: seq<Node>, heads: seq<int>, bins: seq<seq<int>>, chain: seq<int>, i: nat)
    requires ListsOk(nodes, heads, bins, Elements(chain)) && InTable(nodes, chain) && i < |chain| &&
      !nodes[chain[i]].used
    ensures var b := FloorToFloat(nodes[chain[i]].size); b < |heads| && heads[b] != INVALID
  {
    assert chain[i] in Elements(chain);
    assert BinOk(nodes, heads, bins, FloorToFloat(nodes[chain[i]].size));
  }

  lemma NoneFits(nodes: seq<Node>, heads: seq<int>, bins: seq<seq<int>>, chain: seq<int>, capacity: nat, size: nat)
    requires ListsOk(nodes, heads, bins, Elements(chain)) && ChainOk(nodes, chain, capacity)
    requires forall b :: CeilToFloat(size) <= b < |heads| ==> heads[b] == INVALID
    ensures !Fits(SegmentsOf(nodes, chain), size)
  {
    var segs := SegmentsOf(nodes, chain);
    forall i | 0 <= i < |segs| ensures !Suits(segs[i], size) {
      assert segs[i] == SegmentAt(nodes, chain, i);
      if !segs[i].used {
        FreeHasHead(nodes, heads, bins, chain, i);
      }
    }
  }

  lemma BestBlock(nodes: seq<Node>, heads: seq<int>, bins: seq<seq<int>>, chain: seq<int>, capacity: nat, size: nat,
    b: nat)
    returns (at: nat)
    requires ListsOk(nodes, heads, bins, Elements(chain)) && ChainOk(nodes, chain, capacity)
    requires CeilToFloat(size) <= b < |heads| && heads[b] != INVALID
    requires forall c :: CeilToFloat(size) <= c < b ==> heads[c] == INVALID
    ensures at < |chain| && b < |bins| && bins[b] != [] && bins[b][0] == chain[at] == heads[b]
    ensures !nodes[chain[at]].used && size <= nodes[chain[at]].size
    ensures BestFit(SegmentsOf(nodes, chain), size, at) && TakesHead(bins, SegmentsOf(nodes, chain)[at], heads[b])
  {
    assert BinOk(nodes, heads, bins, b);
    assert Listed(nodes, bins[b], b, 0);
    assert bins[b][0] in Elements(chain);
    at :| 0 <= at < |chain| && chain[at] == bins[b][0];
    var segs := SegmentsOf(nodes, chain);
    assert segs[at] == SegmentAt(nodes, chain, at);
    SuitsIsRounded(segs[at], size);
    forall i | 0 <= i < |segs| && Suits(segs[i], size)
      ensures FloorToFloat(segs[at].size) <= FloorToFloat(segs[i].size)
    {
      assert segs[i] == SegmentAt(nodes, chain, i);
      FreeHasHead(nodes, heads, bins, chain, i);
    }
  }

  lemma GrowKeepsChain(nodes: seq<Node>, nodes': seq<Node>, chain: seq<int>, capacity: nat)
    requires ChainOk(nodes, chain, capacity) && UsedOnChain(nodes, chain) && nodes <= nodes'
    requires forall k :: |nodes| <= k < |nodes'| ==> nodes'[k] == UNUSED_NODE
    ensures ChainOk(nodes', chain, capacity) && UsedOnChain(nodes', chain)
    ensures FreeSum(nodes', chain) == FreeSum(nodes, chain)
    ensures SegmentsOf(nodes', chain) == SegmentsOf(nodes, chain)
    ensures LiveOf(nodes', chain) == LiveOf(nodes, chain)
  {
    forall i | 0 <= i < |chain| ensures Linked(nodes', chain, capacity, i) {
      assert Linked(nodes, chain, capacity, i);
    }
    FreeSumFrame(nodes, nodes', chain);
    forall i | 0 <= i < |chain| ensures SegmentsOf(nodes', chain)[i] == SegmentsOf(nodes, chain)[i] {
      assert SegmentAt(nodes', chain, i) == SegmentAt(nodes, chain, i);
    }
  }

  /** A free block that is not empty shows in the top mask. */
  lemma FreeShowsInTop(w: nat, top: nat, leaf: seq<nat>, heads: seq<int>, nodes: seq<Node>, bins: seq<seq<int>>,
    chain: seq<int>, i: nat)
    requires MasksOk(w, top, leaf, heads) && ListsOk(nodes, heads, bins, Elements(chain))
    requires InTable(nodes, chain) && i < |chain| && !nodes[chain[i]].used
    ensures top > 0
  {
    FreeHasHead(nodes, heads, bins, chain, i);
    HeadBit(w, top, leaf, heads, FloorToFloat(nodes[chain[i]].size));
    BitOfZero(FloorToFloat(nodes[chain[i]].size) / 8);
  }

  lemma {:induction false} FreeSumWitness(nodes: seq<Node>, ids: seq<int>) returns (i: nat)
    requires InTable(nodes, ids) && FreeSum(nodes, ids) > 0
    ensures i < |ids| && !nodes[ids[i]].used && nodes[ids[i]].size > 0
  {
    if !nodes[ids[0]].used && nodes[ids[0]].size > 0 {
      i := 0;
    } else {
      var k := FreeSumWitness(nodes, ids[1..]);
      i := k + 1;
    }
  }

  lemma EmptyMasks(w: nat, leaf: seq<nat>, heads: seq<int>)
    requires |leaf| == w && |heads| == 8 * w
    requires (forall t :: 0 <= t < w ==> leaf[t] == 0) && forall b :: 0 <= b < |heads| ==> heads[b] == INVALID
    ensures MasksOk(w, 0, leaf, heads)
  {
    forall t | 0 <= t < w ensures MaskOk(0, leaf, heads, t) {
      BitOfZero(t);
      forall l | 0 <= l < 8 ensures !Bit(leaf[t], l) {
        BitOfZero(l);
      }
    }
  }

  lemma EmptyLists(nodes: seq<Node>, heads: seq<int>, bins: seq<seq<int>>, active: set<int>)
    requires |heads| == |bins| && forall b :: 0 <= b < |bins| ==> heads[b] == INVALID && bins[b] == []
    requires forall x :: x in active ==> 0 <= x < |nodes| && nodes[x].used
    ensures ListsOk(nodes, heads, bins, active)
  {
    forall b | 0 <= b < |bins| ensures BinOk(nodes, heads, bins, b) {
    }
  }

  /** The first block of a rebuilt free space of `total` has the largest exact bin size that fits. */
  ghost predicate MainSize(nodes: seq<Node>, id: int, total: nat) {
    && 0 <= id < |nodes| && nodes[id].size <= total && Value(FloorToFloat(nodes[id].size)) == nodes[id].size
    && forall f: nat :: Value(f) <= total ==> Value(f) <= nodes[id].size
  }

  lemma MainIsExact(nodes: seq<Node>, nodes': seq<Node>, id: int, total: nat, offset: nat)
    requires |nodes'| == |nodes| && 0 <= id < |nodes| && (nodes' == nodes || SameExtent(nodes'[id], nodes[id]))
    requires SameExtent(nodes[id], Node(offset, Value(FloorToFloat(total)), INVALID, INVALID, INVALID, INVALID, false))
    ensures MainSize(nodes', id, total)
  {
    hide FloorToFloat, Value;
    FloorBrackets(total);
    FloorOfValue(FloorToFloat(total));
    forall f: nat | Value(f) <= total ensures Value(f) <= Value(FloorToFloat(total)) {
      FloorGalois(total, f);
      if f < FloorToFloat(total) {
        ValueIncreasing(f, FloorToFloat(total));
      }
    }
  }

  /** The memory of a fresh allocator. */
  lemma FirstBlock(nodes: seq<Node>, nodes': seq<Node>, id: int, capacity: nat)
    requires |nodes'| == |nodes| && 0 <= id < |nodes| && forall k :: 0 <= k < |nodes| ==> nodes[k] == UNUSED_NODE
    requires SameBlock(nodes'[id], Node(0, capacity, INVALID, INVALID, INVALID, INVALID, false))
    requires forall k :: 0 <= k < |nodes| && k != id ==> SameBlock(nodes'[k], nodes[k])
    ensures ChainOk(nodes', [id], capacity) && UsedOnChain(nodes', [id]) && FreeSum(nodes', [id]) == capacity
    ensures SegmentsOf(nodes', [id]) == [Segment(0, capacity, false, id)] && LiveOf(nodes', [id]) == map[]
  {
    assert Linked(nodes', [id], capacity, 0);
    FreeSumOne(nodes', id);
    forall k | 0 <= k < |nodes| && k != id ensures !nodes'[k].used {
      assert SameBlock(nodes'[k], UNUSED_NODE);
    }
    assert SegmentsOf(nodes', [id])[0] == SegmentAt(nodes', [id], 0);
  }

  /** The total size of the blocks in use among `ids`. */
  function UsedSum(nodes: seq<Node>, ids: seq<int>): nat
    requires InTable(nodes, ids)
  {
    if ids == [] then 0
    else (if nodes[ids[0]].used then nodes[ids[0]].size else 0) + UsedSum(nodes, ids[1..])
  }

  /** Free and used sizes from position `k` on add up to the memory from there on. */
  lemma {:induction false} SumsToCapacity(nodes: seq<Node>, chain: seq<int>, capacity: nat, k: nat)
    requires ChainOk(nodes, chain, capacity) && k <= |chain|
    ensures Bound(nodes, chain, capacity, k) + FreeSum(nodes, chain[k..]) + UsedSum(nodes, chain[k..]) == capacity
    decreases |chain| - k
  {
    if k < |chain| {
      SumsToCapacity(nodes, chain, capacity, k + 1);
      assert Linked(nodes, chain, capacity, k);
      assert chain[k..][1..] == chain[k + 1..];
    }
  }

  /** Active ids and the live part of the id stack share out the node table: every id is in exactly one of them. */
  lemma IdsPartition(n: nat, active: set<int>, freeNodes: seq<int>, ptr: nat)
    requires IdsOk(n, active, freeNodes, ptr)
    ensures Distinct(freeNodes[ptr..])
    ensures forall x :: 0 <= x < n <==> x in active || x in freeNodes[ptr..]
    ensures forall x :: !(x in active && x in freeNodes[ptr..])
  {
    var spare := freeNodes[ptr..];
    SpareIds(n, active, freeNodes, ptr);
    DistinctCount(spare);
    hide IdsOk, Distinct;
    SubsetSize(Elements(spare) + active, Below(n));
    assert forall x :: x in spare <==> x in Elements(spare);
  }

  lemma SpareIds(n: nat, active: set<int>, freeNodes: seq<int>, ptr: nat)
    requires IdsOk(n, active, freeNodes, ptr)
    ensures |freeNodes| == n && ptr <= n && |active| == ptr && Distinct(freeNodes[ptr..])
    ensures Elements(freeNodes[ptr..]) !! active && Elements(freeNodes[ptr..]) + active <= Below(n)
  {
  }

  datatype Region = Region(count: nat, size: nat)

  /** The free blocks whose size rounds down to bin `b`. */
  ghost function FreeOfBin(nodes: seq<Node>, chain: seq<int>, b: nat): set<int>
    requires InTable(nodes, chain)
  {
    set x | x in chain && !nodes[x].used && FloorToFloat(nodes[x].size) == b
  }

  lemma BinIsFreeOfBin(nodes: seq<Node>, heads: seq<int>, bins: seq<seq<int>>, chain: seq<int>, b: nat)
    requires ListsOk(nodes, heads, bins, Elements(chain)) && InTable(nodes, chain) && b < |bins|
    ensures Elements(bins[b]) == FreeOfBin(nodes, chain, b) && |FreeOfBin(nodes, chain, b)| == |bins[b]|
    ensures ListOk(nodes, bins[b], b) && heads[b] == Head(bins[b])
  {
    assert BinOk(nodes, heads, bins, b);
    DistinctCount(bins[b]);
    forall x ensures x in bins[b] <==> x in FreeOfBin(nodes, chain, b) {
      if x in bins[b] {
        var j :| 0 <= j < |bins[b]| && bins[b][j] == x;
        assert Listed(nodes, bins[b], b, j);
        assert bins[b][j] in Elements(chain);
      }
      if x in chain {
        assert x in Elements(chain);
      }
    }
  }

  lemma MaxFits(nodes: seq<Node>, chain: seq<int>, top: nat, size: nat)
    requires InTable(nodes, chain)
    requires forall i :: 0 <= i < |chain| && !nodes[chain[i]].used ==> FloorToFloat(nodes[chain[i]].size) <= top
    requires exists i :: 0 <= i < |chain| && !nodes[chain[i]].used && FloorToFloat(nodes[chain[i]].size) == top
    ensures size <= Value(top) <==> Fits(SegmentsOf(nodes, chain), size)
  {
    CeilGalois(size, top);
    var segs := SegmentsOf(nodes, chain);
    var i :| 0 <= i < |chain| && !nodes[chain[i]].used && FloorToFloat(nodes[chain[i]].size) == top;
    assert segs[i] == SegmentAt(nodes, chain, i);
    forall k | 0 <= k < |segs| && Suits(segs[k], size) ensures CeilToFloat(size) <= top {
      assert segs[k] == SegmentAt(nodes, chain, k);
    }
    if CeilToFloat(size) <= top {
      assert Suits(segs[i], size);
    }
  }

  lemma MaxIsClose(size: nat, top: nat)
    requires FloorToFloat(size) <= top && top >= 1
    ensures 8 * size < 9 * Value(top)
  {
    ValueIncreasing(0, top);
    if size > 0 {
      FloorLoss(size);
      if FloorToFloat(size) < top {
        ValueIncreasing(FloorToFloat(size), top);
      }
    }
  }

  /** What `compactUsedNodes` reports about the first `k` allocations. */
  function Updates(blocks: seq<Block>, ids: seq<int>, k: nat): seq<Alloc>
    requires |blocks| == |ids| && k <= |ids|
  {
    if k == 0 then [] else Updates(blocks, ids, k - 1) + [Alloc(Pos(blocks, k - 1), ids[k - 1])]
  }

  /** Update `i` names block `i` and puts it where the block before it ends, the first one at zero. */
  predicate Gapless(nodes: seq<Node>, order: seq<int>, updates: seq<Alloc>, i: nat)
    requires InTable(nodes, order) && i < |order| == |updates|
  {
    && updates[i].id == order[i]
    && updates[i].offset == if i == 0 then 0 else updates[i - 1].offset + nodes[order[i - 1]].size
  }

  /** The report names every block once, in order, with its gapless offset. */
  lemma UpdatesAreGapless(nodes: seq<Node>, order: seq<int>)
    requires InTable(nodes, order)
    ensures var blocks := BlocksOf(nodes, order);
      var updates := Updates(blocks, order, |order|);
      && |updates| == |order|
      && forall i :: 0 <= i < |order| ==> Gapless(nodes, order, updates, i) && updates[i].offset == Pos(blocks, i)
  {
    UpdateAt(BlocksOf(nodes, order), order, |order|);
  }

  lemma {:induction false} UpdateAt(blocks: seq<Block>, ids: seq<int>, k: nat)
    requires |blocks| == |ids| && k <= |ids|
    ensures |Updates(blocks, ids, k)| == k
    ensures forall i :: 0 <= i < k ==> Updates(blocks, ids, k)[i] == Alloc(Pos(blocks, i), ids[i])
  {
    if k > 0 {
      UpdateAt(blocks, ids, k - 1);
    }
  }

  /** A block whose node is where compaction put it is where the report says. */
  lemma RelocatedIsReported(nodes: seq<Node>, nodes': seq<Node>, order: seq<int>, i: nat)
    requires InTable(nodes, order) && |nodes'| == |nodes| && i < |order| && Relocated(nodes, nodes', order, i)
    ensures nodes'[order[i]].offset == Pos(BlocksOf(nodes, order), i) && nodes'[order[i]].size == nodes[order[i]].size
  {
  }

  /** The free elements that a defragmentation to `newSize` leaves; none if the used blocks do not even fit. */
  function Leftover(newSize: nat, nodes: seq<Node>, order: seq<int>): nat
    requires InTable(nodes, order)
  {
    var used := Pos(BlocksOf(nodes, order), |order|);
    if newSize > used then newSize - used else 0
  }

  /** The stack has enough entries above the number of unused ids for the pops of a defragmentation. */
  ghost predicate CanPop(nodes: seq<Node>, newSize: nat, order: seq<int>)
    requires InTable(nodes, order)
  {
    |UnusedIds(nodes, |nodes|)| + Pieces(Leftover(newSize, nodes, order)) <= |nodes|
  }

  /** The ids that a defragmentation pops for the free space. */
  ghost function PoppedIds(nodes: seq<Node>, freeNodes: seq<int>, newSize: nat, order: seq<int>): seq<int>
    requires InTable(nodes, order) && |freeNodes| == |nodes| && CanPop(nodes, newSize, order)
  {
    Popped(freeNodes, |UnusedIds(nodes, |nodes|)|, Pieces(Leftover(newSize, nodes, order)))
  }

  /** Those ids are spare. */
  ghost predicate PopsSpare(nodes: seq<Node>, freeNodes: seq<int>, newSize: nat, order: seq<int>)
    requires InTable(nodes, order)
  {
    FreshPops(nodes, freeNodes, |UnusedIds(nodes, |nodes|)|, Pieces(Leftover(newSize, nodes, order)))
  }

  /** Half of the nodes are in use, and all entries above the number of unused ids are spare. */
  ghost predicate StackRecovers(nodes: seq<Node>, freeNodes: seq<int>) {
    && |UsedIds(nodes, |nodes|)| == |UnusedIds(nodes, |nodes|)|
    && FreshPops(nodes, freeNodes, |UnusedIds(nodes, |nodes|)|, |UsedIds(nodes, |nodes|)|)
  }

  /** A stack is in order exactly if it extends the active ids, as many as were popped, without repetition. */
  lemma IdsOkIffDistinct(n: nat, active: seq<int>, freeNodes: seq<int>, ptr: nat)
    requires |freeNodes| == n && ptr <= n && Distinct(active)
    requires (forall i :: 0 <= i < n ==> 0 <= freeNodes[i] < n) && forall x :: x in active ==> 0 <= x < n
    ensures IdsOk(n, Elements(active), freeNodes, ptr) <==> (|active| == ptr && Distinct(active + freeNodes[ptr..]))
  {
    var live := freeNodes[ptr..];
    DistinctCount(active);
    DistinctAppend(active, live);
    assert forall i :: ptr <= i < n ==> freeNodes[i] == live[i - ptr];
    if |active| == ptr && Distinct(active + live) {
      forall i | ptr <= i < n ensures freeNodes[i] !in Elements(active) {
        assert live[i - ptr] in live;
      }
      forall i, j | ptr <= i < j < n ensures freeNodes[i] != freeNodes[j] {
        assert live[i - ptr] != live[j - ptr];
      }
    }
  }

  /** After a defragmentation that popped spare ids, the stack and the ids of the rebuilt chain share out the table
      again only in that case. */
  lemma StackAfter(nodes: seq<Node>, freeNodes: seq<int>, order: seq<int>, count: nat)
    requires |freeNodes| == |nodes| && InTable(nodes, freeNodes) && SortedUsed(nodes, order)
    requires |UnusedIds(nodes, |nodes|)| + count <= |nodes|
    requires FreshPops(nodes, freeNodes, |UnusedIds(nodes, |nodes|)|, count)
    ensures var ptr := |UnusedIds(nodes, |nodes|)|;
      IdsOk(|nodes|, Elements(order + Popped(freeNodes, ptr, count)), Restacked(nodes, freeNodes), ptr + count) <==>
        StackRecovers(nodes, freeNodes)
  {
    hide Distinct, FreshPops, IdsOk, SortedUsed, UnusedIds, UsedIds, Restacked, Popped, Elements;
    UsedInOrder(nodes, nodes, order);
    UsedAreDistinct(nodes, order);
    var ptr, n := |UnusedIds(nodes, |nodes|)|, |nodes|;
    var popped, stack := Popped(freeNodes, ptr, count), Restacked(nodes, freeNodes);
    RestackedPopped(nodes, freeNodes, count);
    RestackedPopped(nodes, freeNodes, n - ptr);
    OrderCount(nodes, order);
    FreshIffDistinct(nodes, freeNodes, order, ptr, count);
    FreshIffDistinct(nodes, freeNodes, order, ptr, n - ptr);
    IdsOkIffDistinct(n, order + popped, stack, ptr + count);
    SplitPops(order, stack, ptr, count);
  }

  lemma SplitPops(order: seq<int>, stack: seq<int>, ptr: nat, count: nat)
    requires ptr + count <= |stack|
    ensures |Popped(stack, ptr, count)| == count
    ensures order + Popped(stack, ptr, count) + stack[ptr + count..] == order + Popped(stack, ptr, |stack| - ptr)
  {
  }

  lemma OrderCount(nodes: seq<Node>, order: seq<int>)
    requires SortedUsed(nodes, order)
    ensures |order| == |UsedIds(nodes, |nodes|)|
  {
    DistinctCount(order);
    DistinctCount(UsedIds(nodes, |nodes|));
    assert Elements(order) == Elements(UsedIds(nodes, |nodes|));
  }

  /** What a rebuilt memory of `n` used blocks must be like to be a neighbour chain: the used blocks fit, and what is
      free behind them is one block. */
  lemma RebuiltChain(nodes: seq<Node>, chain: seq<int>, n: nat, newSize: nat, used: nat)
    requires TiledTo(nodes, chain, if |chain| == n then used else newSize) && 0 < n <= |chain|
    requires |chain| == n <==> newSize <= used
    requires forall i :: 0 <= i < |chain| ==> (nodes[chain[i]].used <==> i < n)
    requires nodes[chain[n - 1]].offset + nodes[chain[n - 1]].size == used
    ensures ChainOk(nodes, chain, newSize) <==> |chain| <= n + 1 && used <= newSize
    ensures ChainOk(nodes, chain, newSize) ==> FreeSum(nodes, chain) == newSize - used
  {
    hide ChainOk, FreeSum, TiledTo;
    TiledTable(nodes, chain, if |chain| == n then used else newSize);
    if |chain| <= n + 1 && used <= newSize {
      RebuiltFits(nodes, chain, n, newSize, used);
    } else if ChainOk(nodes, chain, newSize) {
      RebuiltFails(nodes, chain, n, newSize, used);
    }
  }

  /** The used blocks come first, and no other node is in use. */
  lemma RebuiltUsed(nodes0: seq<Node>, nodes: seq<Node>, order: seq<int>, spare: seq<int>, used: nat)
    requires SortedUsed(nodes0, order) && |nodes| == |nodes0| && order != []
    requires used == Pos(BlocksOf(nodes0, order), |order|)
    requires forall i :: 0 <= i < |order| ==> Relocated(nodes0, nodes, order, i)
    requires forall x :: x in spare ==> 0 <= x < |nodes| && !nodes[x].used
    requires forall x :: 0 <= x < |nodes| && x !in spare ==> nodes[x].used == nodes0[x].used
    ensures InTable(nodes, order + spare) && UsedOnChain(nodes, order + spare)
    ensures forall i :: 0 <= i < |order + spare| ==> (nodes[(order + spare)[i]].used <==> i < |order|)
    ensures (order + spare)[|order| - 1] == order[|order| - 1]
    ensures nodes[order[|order| - 1]].offset + nodes[order[|order| - 1]].size == used
  {
    hide BlocksOf, Relocated, Pos;
    var chain, n := order + spare, |order|;
    LastRelocated(nodes0, nodes, order, used);
    forall i | 0 <= i < |chain| ensures 0 <= chain[i] < |nodes| && (nodes[chain[i]].used <==> i < n) {
      if i < n {
        assert chain[i] == order[i] && order[i] in order && Relocated(nodes0, nodes, order, i);
        UsedStays(nodes0, nodes, order, i);
      } else {
        assert chain[i] == spare[i - n] && spare[i - n] in spare;
      }
    }
    forall x | 0 <= x < |nodes| && nodes[x].used ensures x in chain {
      assert x in order;
    }
  }

  lemma UsedStays(nodes0: seq<Node>, nodes: seq<Node>, order: seq<int>, i: nat)
    requires InTable(nodes0, order) && |nodes| == |nodes0| && i < |order|
    requires Relocated(nodes0, nodes, order, i) && nodes0[order[i]].used
    ensures nodes[order[i]].used
  {
  }

  lemma RebuiltFits(nodes: seq<Node>, chain: seq<int>, n: nat, newSize: nat, used: nat)
    requires TiledTo(nodes, chain, newSize) && 0 < n <= |chain| <= n + 1
    requires (forall i :: 0 <= i < n ==> nodes[chain[i]].used) && (n < |chain| ==> !nodes[chain[n]].used)
    requires nodes[chain[n - 1]].offset + nodes[chain[n - 1]].size == used
    ensures ChainOk(nodes, chain, newSize) && used <= newSize && FreeSum(nodes, chain) == newSize - used
  {
    forall i | 0 <= i < |chain| ensures Linked(nodes, chain, newSize, i) {
      assert Tile(nodes, chain, newSize, i);
    }
    assert Tile(nodes, chain, newSize, n - 1);
    UsedNotFree(nodes, chain[..n]);
    FreeSumConcat(nodes, chain[..n], chain[n..]);
    assert chain == chain[..n] + chain[n..];
    if n < |chain| {
      assert Tile(nodes, chain, newSize, n);
      assert chain[n..] == [chain[n]];
      FreeSumOne(nodes, chain[n]);
    }
  }

  lemma RebuiltFails(nodes: seq<Node>, chain: seq<int>, n: nat, newSize: nat, used: nat)
    requires ChainOk(nodes, chain, newSize) && 0 < n <= |chain|
    requires forall i :: n <= i < |chain| ==> !nodes[chain[i]].used
    requires nodes[chain[n - 1]].offset + nodes[chain[n - 1]].size == used
    ensures |chain| <= n + 1 && used <= newSize
  {
    assert Linked(nodes, chain, newSize, n - 1);
    ChainInside(nodes, chain, newSize, n - 1);
    assert n < |chain| ==> Linked(nodes, chain, newSize, n);
  }

  /** The last used block ends at the total of the used sizes. */
  lemma LastRelocated(nodes0: seq<Node>, nodes: seq<Node>, order: seq<int>, used: nat)
    requires InTable(nodes0, order) && |nodes| == |nodes0| && order != [] &&
      used == Pos(BlocksOf(nodes0, order), |order|)
    requires forall i :: 0 <= i < |order| ==> Relocated(nodes0, nodes, order, i)
    ensures nodes[order[|order| - 1]].offset + nodes[order[|order| - 1]].size == used
  {
    assert Relocated(nodes0, nodes, order, |order| - 1);
  }

  lemma {:induction false} UsedNotFree(nodes: seq<Node>, ids: seq<int>)
    requires InTable(nodes, ids) && forall i :: 0 <= i < |ids| ==> nodes[ids[i]].used
    ensures FreeSum(nodes, ids) == 0
  {
    if ids != [] {
      UsedNotFree(nodes, ids[1..]);
    }
  }

  /** All entries are spare only if the first ones are. */
  lemma RecoversPopsSpare(nodes: seq<Node>, freeNodes: seq<int>, count: nat)
    requires StackRecovers(nodes, freeNodes) && |UnusedIds(nodes, |nodes|)| + count <= |nodes|
    ensures FreshPops(nodes, freeNodes, |UnusedIds(nodes, |nodes|)|, count)
  {
  }

  lemma RecoversNonempty(nodes: seq<Node>, freeNodes: seq<int>, order: seq<int>)
    requires StackRecovers(nodes, freeNodes) && SortedUsed(nodes, order) && |nodes| >= 2
    ensures order != [] && InTable(nodes, order)
  {
    OrderCount(nodes, order);
  }

  lemma NotPopped(order: seq<int>, popped: seq<int>)
    requires Distinct(order + popped)
    ensures forall i :: 0 <= i < |order| ==> order[i] !in popped
  {
    hide Distinct;
    DistinctAppend(order, popped);
    assert forall x :: x in order ==> x !in popped;
  }

  lemma PoppedCount(stack: seq<int>, ptr: nat, count: nat)
    requires ptr + count <= |stack|
    ensures |Popped(stack, ptr, count)| == count
  {
  }

  lemma PieceCount(total: nat)
    ensures Pieces(total) == 0 <==> total == 0
    ensures Pieces(total) <= 2
  {
  }

  lemma LeftoverIs(newSize: nat, nodes: seq<Node>, order: seq<int>)
    requires InTable(nodes, order)
    ensures var used := Pos(BlocksOf(nodes, order), |order|);
      Leftover(newSize, nodes, order) == if newSize > used then newSize - used else 0
  {
  }

  lemma NoPieces()
    ensures Pieces(0) == 0
  {
  }

  lemma UsedInOrder(nodes: seq<Node>, nodes': seq<Node>, order: seq<int>)
    requires SortedUsed(nodes, order) && |nodes'| == |nodes|
    requires forall x :: 0 <= x < |nodes| ==> nodes'[x].used == nodes[x].used
    ensures InTable(nodes, order) && forall x :: x in order ==> 0 <= x < |nodes'| && nodes'[x].used
  {
  }

  lemma ChainTable(nodes: seq<Node>, chain: seq<int>, capacity: nat)
    requires ChainOk(nodes, chain, capacity)
    ensures InTable(nodes, chain) && Distinct(chain)
  {
  }

  lemma NoIdsYet()
    ensures IdsOk(0, {}, [], 0)
  {
  }

  lemma NothingCollected(nodes: seq<Node>, freeNodes: seq<int>)
    requires |freeNodes| == |nodes|
    ensures UsedIds(nodes, 0) == [] && UnusedIds(nodes, 0) == [] && RestackedTo(nodes, freeNodes, 0) == freeNodes
  {
  }

  lemma IdCount(n: nat, active: set<int>, freeNodes: seq<int>, ptr: nat)
    requires IdsOk(n, active, freeNodes, ptr)
    ensures |freeNodes| == n && forall i :: 0 <= i < n ==> 0 <= freeNodes[i] < n
  {
  }

  lemma MainFits(w: nat, total: nat)
    requires w >= 4 && 0 < total < Pow2(w)
    ensures 0 < ToUint(w, FloorToFloat(total)) == Value(FloorToFloat(total)) <= total
    ensures Pieces(total) == if Value(FloorToFloat(total)) < total then 2 else 1
  {
    CodesFit(w, total);
    FloorLoss(total);
    FloorBrackets(total);
  }

  lemma ExtentsThrough(nodes: seq<Node>, nodes1: seq<Node>, nodes2: seq<Node>, id: int, size: nat, offset: nat)
    requires |nodes| == |nodes1| == |nodes2| && 0 <= id < |nodes|
    requires SameBlock(nodes1[id], Node(offset, size, INVALID, INVALID, INVALID, INVALID, false))
    requires forall k :: 0 <= k < |nodes| && k != id ==> SameBlock(nodes1[k], nodes[k])
    requires forall k :: 0 <= k < |nodes| ==> SameListing(nodes1[k], nodes2[k])
    ensures SameExtent(nodes2[id], Node(offset, size, INVALID, INVALID, INVALID, INVALID, false))
    ensures forall k :: 0 <= k < |nodes| && k != id ==> SameExtent(nodes2[k], nodes[k])
  {
    assert SameListing(nodes1[id], nodes2[id]);
    forall k | 0 <= k < |nodes| && k != id ensures SameExtent(nodes2[k], nodes[k]) {
      assert SameBlock(nodes1[k], nodes[k]) && SameListing(nodes1[k], nodes2[k]);
    }
  }
}
