/** Left compaction: where used blocks go, which moves are reported, and what the moves do to the data. */
module Compaction {
  import opened Collections
  import opened Nodes
  import opened Edits
  import opened Memmoves

  /** The gapless new offset of block `i`: the sizes before it. */
  function Pos(blocks: seq<Block>, i: nat): nat
    requires i <= |blocks|
  {
    if i == 0 then 0 else Pos(blocks, i - 1) + blocks[i - 1].size
  }

  predicate Contiguous(blocks: seq<Block>, i: nat)
    requires i < |blocks|
  {
    i > 0 && blocks[i].offset == blocks[i - 1].offset + blocks[i - 1].size
  }

  /** The report after the first `k` blocks: a block that must move either extends the last move or starts one. */
  function CompactMoves(blocks: seq<Block>, k: nat): seq<Move>
    requires k <= |blocks|
  {
    if k == 0 then []
    else
      var prior, b := CompactMoves(blocks, k - 1), blocks[k - 1];
      if b.offset == Pos(blocks, k - 1) then prior
      else if Contiguous(blocks, k - 1) && prior != [] then
        var last := prior[|prior| - 1];
        prior[|prior| - 1 := last.(size := last.size + b.size)]
      else prior + [Move(b.offset, Pos(blocks, k - 1), b.size)]
  }

  /** Blocks with data do not overlap and come in the order of their offsets; blocks of size zero may be anywhere,
      as sorting by offset leaves ties in any order. */
  predicate Ordered(blocks: seq<Block>) {
    forall i, j :: 0 <= i < j < |blocks| && blocks[i].size > 0 && blocks[j].size > 0 ==>
      blocks[i].offset + blocks[i].size <= blocks[j].offset
  }

  predicate Inside(blocks: seq<Block>, n: nat) {
    forall i :: 0 <= i < |blocks| ==> blocks[i].offset + blocks[i].size <= n
  }

  lemma {:induction false} PosAtMost(blocks: seq<Block>, i: nat, j: nat)
    requires Ordered(blocks) && i <= j < |blocks| && blocks[j].size > 0
    ensures Pos(blocks, i) <= blocks[j].offset
    decreases i
  {
    if i > 0 {
      if blocks[i - 1].size == 0 {
        PosAtMost(blocks, i - 1, j);
      } else {
        PosAtMost(blocks, i - 1, i - 1);
      }
    }
  }

  lemma {:induction false} PosInside(blocks: seq<Block>, i: nat, n: nat)
    requires Ordered(blocks) && Inside(blocks, n) && i <= |blocks|
    ensures Pos(blocks, i) <= n
    decreases i
  {
    if i > 0 {
      PosInside(blocks, i - 1, n);
      if blocks[i - 1].size > 0 {
        PosAtMost(blocks, i - 1, i - 1);
      }
    }
  }

  lemma {:induction false} PosMonotone(blocks: seq<Block>, i: nat, j: nat)
    requires i <= j <= |blocks|
    ensures Pos(blocks, i) <= Pos(blocks, j)
    decreases j
  {
    if i < j {
      PosMonotone(blocks, i, j - 1);
    }
  }

  /** When the block before `k` moved, the last reported move ends with it. */
  lemma {:induction false} LastMoveEnds(blocks: seq<Block>, k: nat)
    requires 0 < k <= |blocks| && blocks[k - 1].offset != Pos(blocks, k - 1)
    ensures CompactMoves(blocks, k) != []
    ensures var last := CompactMoves(blocks, k)[|CompactMoves(blocks, k)| - 1];
      && last.src + last.size == blocks[k - 1].offset + blocks[k - 1].size
      && last.dst + last.size == Pos(blocks, k)
    decreases k
  {
    if Contiguous(blocks, k - 1) && CompactMoves(blocks, k - 1) != [] {
      LastMoveEnds(blocks, k - 1);
    }
  }

  lemma {:induction false} CompactMovesInMemory<T>(mem: seq<T>, blocks: seq<Block>, k: nat)
    requires Ordered(blocks) && Inside(blocks, |mem|) && k <= |blocks|
    ensures AllInMemory(mem, CompactMoves(blocks, k))
    decreases k
  {
    if k > 0 {
      CompactMovesInMemory(mem, blocks, k - 1);
      PosInside(blocks, k, |mem|);
      if blocks[k - 1].offset != Pos(blocks, k - 1) {
        LastMoveEnds(blocks, k);
      }
    }
  }

  /** Every block moved on its own, in order. */
  function MovedEach<T>(mem: seq<T>, blocks: seq<Block>, k: nat): (mem': seq<T>)
    requires Ordered(blocks) && Inside(blocks, |mem|) && k <= |blocks|
    ensures |mem'| == |mem|
  {
    if k == 0 then mem
    else
      PosInside(blocks, k, |mem|);
      Moved(MovedEach(mem, blocks, k - 1), Move(blocks[k - 1].offset, Pos(blocks, k - 1), blocks[k - 1].size))
  }

  /** Coalescing contiguous blocks into one move changes nothing. */
  lemma {:induction false} CoalescedMoves<T>(mem: seq<T>, blocks: seq<Block>, k: nat)
    requires Ordered(blocks) && Inside(blocks, |mem|) && k <= |blocks|
    ensures AllInMemory(mem, CompactMoves(blocks, k))
    ensures RunMoves(mem, CompactMoves(blocks, k)) == MovedEach(mem, blocks, k)
    decreases k
  {
    hide Moved, RunMoves, Ordered, Inside, AllInMemory;
    if k == 0 {
      RunNone(mem);
    } else {
      CoalescedMoves(mem, blocks, k - 1);
      CompactMovesInMemory(mem, blocks, k);
      StepInMemory(mem, blocks, k);
      var prior, b := CompactMoves(blocks, k - 1), blocks[k - 1];
      var step := Move(b.offset, Pos(blocks, k - 1), b.size);
      if b.offset == Pos(blocks, k - 1) {
        MoveInPlace(RunMoves(mem, prior), step);
      } else if Contiguous(blocks, k - 1) && prior != [] {
        CoalesceStep(mem, blocks, k);
      } else {
        RunAppend(mem, prior, step);
      }
    }
  }

  lemma RunNone<T>(mem: seq<T>)
    ensures AllInMemory(mem, []) && RunMoves(mem, []) == mem
  {
  }

  lemma MoveInPlace<T>(mem: seq<T>, m: Move)
    requires InMemory(mem, m) && m.src == m.dst
    ensures Moved(mem, m) == mem
  {
  }

  lemma RunAppend<T>(mem: seq<T>, moves: seq<Move>, m: Move)
    requires AllInMemory(mem, moves) && InMemory(mem, m)
    ensures AllInMemory(mem, moves + [m]) && RunMoves(mem, moves + [m]) == Moved(RunMoves(mem, moves), m)
  {
    assert (moves + [m])[..|moves|] == moves;
  }

  lemma StepInMemory<T>(mem: seq<T>, blocks: seq<Block>, k: nat)
    requires Ordered(blocks) && Inside(blocks, |mem|) && 0 < k <= |blocks|
    ensures InMemory(mem, Move(blocks[k - 1].offset, Pos(blocks, k - 1), blocks[k - 1].size))
  {
    PosInside(blocks, k, |mem|);
  }

  lemma CoalesceStep<T>(mem: seq<T>, blocks: seq<Block>, k: nat)
    requires Ordered(blocks) && Inside(blocks, |mem|) && 0 < k <= |blocks|
    requires blocks[k - 1].offset != Pos(blocks, k - 1)
    requires Contiguous(blocks, k - 1) && CompactMoves(blocks, k - 1) != []
    requires AllInMemory(mem, CompactMoves(blocks, k - 1)) && AllInMemory(mem, CompactMoves(blocks, k))
    requires InMemory(mem, Move(blocks[k - 1].offset, Pos(blocks, k - 1), blocks[k - 1].size))
    ensures RunMoves(mem, CompactMoves(blocks, k))
         == Moved(RunMoves(mem, CompactMoves(blocks, k - 1)),
           Move(blocks[k - 1].offset, Pos(blocks, k - 1), blocks[k - 1].size))
  {
    hide Moved, Ordered, Inside;
    var prior, now, b := CompactMoves(blocks, k - 1), CompactMoves(blocks, k), blocks[k - 1];
    LastMoveEnds(blocks, k - 1);
    var last, n := prior[|prior| - 1], |prior| - 1;
    var longer := last.(size := last.size + b.size);
    assert now == prior[n := longer] && now[..n] == prior[..n];
    assert last.src + last.size == b.offset && last.dst + last.size == Pos(blocks, k - 1);
    assert InMemory(mem, now[n]);
    if b.size > 0 {
      PosAtMost(blocks, k - 1, k - 1);
    }
    SplitMove(RunMoves(mem, prior[..n]), longer, last.size);
  }

  /** After `k` blocks nothing beyond them is touched. */
  lemma {:induction false} EachKeepsRest<T>(mem: seq<T>, blocks: seq<Block>, k: nat)
    requires Ordered(blocks) && Inside(blocks, |mem|) && k <= |blocks|
    ensures Pos(blocks, k) <= |mem| && MovedEach(mem, blocks, k)[Pos(blocks, k)..] == mem[Pos(blocks, k)..]
    decreases k
  {
    hide Moved;
    PosInside(blocks, k, |mem|);
    if k > 0 {
      EachKeepsRest(mem, blocks, k - 1);
      EachStep(mem, blocks, k);
    }
  }

  lemma EachStep<T>(mem: seq<T>, blocks: seq<Block>, k: nat)
    requires Ordered(blocks) && Inside(blocks, |mem|) && 0 < k <= |blocks|
    requires Pos(blocks, k - 1) <= |mem| &&
      MovedEach(mem, blocks, k - 1)[Pos(blocks, k - 1)..] == mem[Pos(blocks, k - 1)..]
    ensures Pos(blocks, k) <= |mem|
    ensures var before, after, p, b := MovedEach(mem, blocks, k - 1), MovedEach(mem, blocks, k), Pos(blocks, k - 1),
      blocks[k - 1];
      && after[..p] == before[..p] && after[Pos(blocks, k)..] == mem[Pos(blocks, k)..]
      && after[p..Pos(blocks, k)] == mem[b.offset..b.offset + b.size]
  {
    hide Moved;
    PosInside(blocks, k, |mem|);
    if blocks[k - 1].size > 0 {
      PosAtMost(blocks, k - 1, k - 1);
    }
    StepKeepsData(mem, MovedEach(mem, blocks, k - 1), MovedEach(mem, blocks, k), blocks[k - 1], Pos(blocks, k - 1));
  }

  /** After `k` blocks each of them has its old contents at its new offset. */
  lemma {:induction false} EachKeepsData<T>(mem: seq<T>, blocks: seq<Block>, k: nat, i: nat)
    requires Ordered(blocks) && Inside(blocks, |mem|) && i < k <= |blocks|
    ensures Pos(blocks, i) <= Pos(blocks, i + 1) <= |mem|
    ensures MovedEach(mem, blocks, k)[Pos(blocks, i)..Pos(blocks, i + 1)]
      == mem[blocks[i].offset..blocks[i].offset + blocks[i].size]
    decreases k
  {
    hide MovedEach, Ordered, Inside;
    EachKeepsRest(mem, blocks, k - 1);
    EachStep(mem, blocks, k);
    if i < k - 1 {
      EachKeepsData(mem, blocks, k - 1, i);
      PosMonotone(blocks, i + 1, k - 1);
      SliceOfPrefix(MovedEach(mem, blocks, k - 1), MovedEach(mem, blocks, k), Pos(blocks, k - 1), Pos(blocks, i),
        Pos(blocks, i + 1));
    }
  }

  lemma SliceOfPrefix<T>(a: seq<T>, b: seq<T>, p: nat, x: nat, y: nat)
    requires x <= y <= p <= |a| == |b| && a[..p] == b[..p]
    ensures a[x..y] == b[x..y]
  {
    assert a[x..y] == a[..p][x..y];
    assert b[x..y] == b[..p][x..y];
  }

  lemma SliceOfSuffix<T>(a: seq<T>, p: nat, x: nat, y: nat)
    requires p <= x <= y <= |a|
    ensures a[x..y] == a[p..][x - p..y - p]
  {
  }

  lemma StepKeepsData<T>(mem: seq<T>, before: seq<T>, after: seq<T>, b: Block, p: nat)
    requires |before| == |mem| && p + b.size <= |mem| && b.offset + b.size <= |mem|
    requires before[p..] == mem[p..] && (b.size > 0 ==> p <= b.offset)
    requires after == Moved(before, Move(b.offset, p, b.size))
    ensures after[..p] == before[..p] && after[p + b.size..] == mem[p + b.size..]
    ensures after[p..p + b.size] == mem[b.offset..b.offset + b.size]
  {
    assert after[p..p + b.size] == before[b.offset..b.offset + b.size];
    if b.size > 0 {
      SliceOfSuffix(before, p, b.offset, b.offset + b.size);
      SliceOfSuffix(mem, p, b.offset, b.offset + b.size);
    }
    assert after[p + b.size..] == before[p + b.size..];
    SliceOfSuffix(before, p, p + b.size, |mem|);
    SliceOfSuffix(mem, p, p + b.size, |mem|);
  }

  /** Compaction preserves data: the reported moves, run in order, bring every block's old contents
      to its new offset. */
  lemma CompactionPreservesData<T>(mem: seq<T>, blocks: seq<Block>, i: nat)
    requires Ordered(blocks) && Inside(blocks, |mem|) && i < |blocks|
    ensures AllInMemory(mem, CompactMoves(blocks, |blocks|)) && Pos(blocks, i) <= Pos(blocks, i + 1) <= |mem|
    ensures RunMoves(mem, CompactMoves(blocks, |blocks|))[Pos(blocks, i)..Pos(blocks, i + 1)]
         == mem[blocks[i].offset..blocks[i].offset + blocks[i].size]
  {
    CoalescedMoves(mem, blocks, |blocks|);
    EachKeepsData(mem, blocks, |blocks|, i);
  }

  predicate GoLeft(moves: seq<Move>) {
    forall i :: 0 <= i < |moves| ==> moves[i].dst < moves[i].src
  }

  lemma GoLeftAppend(prior: seq<Move>, m: Move)
    ensures GoLeft(prior + [m]) <==> GoLeft(prior) && m.dst < m.src
  {
    assert forall i :: 0 <= i < |prior| ==> (prior + [m])[i] == prior[i];
    assert (prior + [m])[|prior|] == m;
  }

  /** Every reported move goes left exactly when no block's new offset lies right of its old one. */
  lemma {:induction false} MovesGoLeft(blocks: seq<Block>, k: nat)
    requires k <= |blocks|
    ensures GoLeft(CompactMoves(blocks, k)) <==> NoneToTheRight(blocks, k)
    decreases k
  {
    hide *;
    if k > 0 {
      MovesGoLeft(blocks, k - 1);
      GoLeftStep(blocks, k);
      NoneStep(blocks, k);
    } else {
      NoneAtStart(blocks);
    }
  }

  lemma NoneAtStart(blocks: seq<Block>)
    ensures GoLeft(CompactMoves(blocks, 0)) && NoneToTheRight(blocks, 0)
  {
  }

  lemma NoneStep(blocks: seq<Block>, k: nat)
    requires 0 < k <= |blocks|
    ensures NoneToTheRight(blocks, k) <==> NoneToTheRight(blocks, k - 1) && Pos(blocks, k - 1) <= blocks[k - 1].offset
  {
    hide Pos;
  }

  /** No block's gapless offset lies right of where the block is. */
  predicate NoneToTheRight(blocks: seq<Block>, k: nat)
    requires k <= |blocks|
  {
    forall i :: 0 <= i < k ==> Pos(blocks, i) <= blocks[i].offset
  }

  lemma GoLeftStep(blocks: seq<Block>, k: nat)
    requires 0 < k <= |blocks|
    ensures GoLeft(CompactMoves(blocks, k)) <==>
      GoLeft(CompactMoves(blocks, k - 1)) && Pos(blocks, k - 1) <= blocks[k - 1].offset
  {
    hide GoLeft;
    var prior, now, b := CompactMoves(blocks, k - 1), CompactMoves(blocks, k), blocks[k - 1];
    if b.offset != Pos(blocks, k - 1) {
      LastMoveEnds(blocks, k);
      if Contiguous(blocks, k - 1) && prior != [] {
        LastMoveEnds(blocks, k - 1);
        var n := |prior| - 1;
        assert prior == prior[..n] + [prior[n]] && now == prior[..n] + [now[n]];
        GoLeftAppend(prior[..n], prior[n]);
        GoLeftAppend(prior[..n], now[n]);
      } else {
        GoLeftAppend(prior, now[|prior|]);
      }
    }
  }

  /** Blocks of positive size, or listed as the neighbour chain lists them, only ever move left. */
  lemma DataMovesLeft(blocks: seq<Block>)
    requires Ordered(blocks) && forall i :: 0 <= i < |blocks| ==> blocks[i].size > 0
    ensures GoLeft(CompactMoves(blocks, |blocks|))
  {
    forall i | 0 <= i < |blocks| ensures Pos(blocks, i) <= blocks[i].offset {
      PosAtMost(blocks, i, i);
    }
    MovesGoLeft(blocks, |blocks|);
  }

  /** End to end: compaction's report, rewritten into copies, can be carried out with plain copies. */
  lemma CompactionByCopies<T>(mem: seq<T>, blocks: seq<Block>, moves: seq<Move>, i: nat)
    requires Ordered(blocks) && Inside(blocks, |mem|) && i < |blocks|
    requires moves == CompactMoves(blocks, |blocks|) && GoLeft(moves)
    ensures forall j :: 0 <= j < |DisjunctCopies(moves)| ==> Disjunct(DisjunctCopies(moves)[j])
    ensures AllInMemory(mem, DisjunctCopies(moves)) && Pos(blocks, i) <= Pos(blocks, i + 1) <= |mem|
    ensures RunMoves(mem, DisjunctCopies(moves))[Pos(blocks, i)..Pos(blocks, i + 1)]
         == mem[blocks[i].offset..blocks[i].offset + blocks[i].size]
  {
    hide RunMoves, DisjunctCopies, CompactMoves, Ordered, Inside;
    CompactionPreservesData(mem, blocks, i);
    DisjunctCopiesShape(moves);
    DisjunctCopiesRun(mem, moves);
  }

  /** Each block lies behind the ones before it, as blocks in the order of the neighbour chain do. */
  predicate InLine(blocks: seq<Block>) {
    forall i, j :: 0 <= i < j < |blocks| ==> blocks[i].offset + blocks[i].size <= blocks[j].offset
  }

  /** Move `i` changes something, and the next one does not merely continue it. */
  predicate Separate(moves: seq<Move>, i: nat)
    requires i < |moves|
  {
    && moves[i].src != moves[i].dst
    && (i + 1 < |moves| ==>
      moves[i].src + moves[i].size != moves[i + 1].src || moves[i].dst + moves[i].size != moves[i + 1].dst)
  }

  /** Blocks move at least as far as the ones before them. */
  lemma {:induction false} ShiftGrows(blocks: seq<Block>, i: nat, j: nat)
    requires InLine(blocks) && i <= j < |blocks|
    ensures blocks[i].offset + Pos(blocks, j) <= blocks[j].offset + Pos(blocks, i)
    decreases j
  {
    if i < j {
      ShiftGrows(blocks, i, j - 1);
    }
  }

  lemma {:induction false} StillMeansNone(blocks: seq<Block>, k: nat)
    requires InLine(blocks) && 0 < k <= |blocks| && blocks[k - 1].offset == Pos(blocks, k - 1)
    ensures CompactMoves(blocks, k) == []
    decreases k
  {
    if k > 1 {
      ShiftGrows(blocks, 0, k - 2);
      ShiftGrows(blocks, k - 2, k - 1);
      StillMeansNone(blocks, k - 1);
    }
  }

  /** Contiguous blocks are reported as one move. */
  lemma {:induction false} MovesAreSeparate(blocks: seq<Block>, k: nat)
    requires InLine(blocks) && k <= |blocks|
    ensures forall i :: 0 <= i < |CompactMoves(blocks, k)| ==> Separate(CompactMoves(blocks, k), i)
    decreases k
  {
    hide CompactMoves;
    if k == 0 {
      NoMovesYet(blocks);
      return;
    }
    var prior, moves := CompactMoves(blocks, k - 1), CompactMoves(blocks, k);
    MovesAreSeparate(blocks, k - 1);
    ReportStep(blocks, k - 1);
    NoMovesYet(blocks);
    if blocks[k - 1].offset != Pos(blocks, k - 1) && prior != [] {
      if blocks[k - 2].offset == Pos(blocks, k - 2) {
        StillMeansNone(blocks, k - 1);
      }
      LastMoveEnds(blocks, k - 1);
    }
    forall i | 0 <= i < |moves| ensures Separate(moves, i) {
      assert i < |prior| ==> Separate(prior, i);
    }
  }

  // ----- the node table's side -----

  /** The blocks of the nodes that compaction walks, in its order. */
  function BlocksOf(nodes: seq<Node>, ids: seq<int>): (blocks: seq<Block>)
    requires InTable(nodes, ids)
    ensures |blocks| == |ids|
    ensures forall i :: 0 <= i < |ids| ==> blocks[i] == Block(nodes[ids[i]].offset, nodes[ids[i]].size)
  {
    seq(|ids|, i requires 0 <= i < |ids| => Block(nodes[ids[i]].offset, nodes[ids[i]].size))
  }

  /** Used nodes taken in the order of the neighbour chain are ordered and have no one to their right. */
  lemma ChainOrderIsOrdered(nodes: seq<Node>, chain: seq<int>, capacity: nat, ids: seq<int>, at: seq<nat>)
    requires ChainOk(nodes, chain, capacity) && |at| == |ids| && InTable(nodes, ids)
    requires forall i :: 0 <= i < |ids| ==> at[i] < |chain| && chain[at[i]] == ids[i]
    requires forall i, j :: 0 <= i < j < |at| ==> at[i] < at[j]
    ensures Ordered(BlocksOf(nodes, ids)) && Inside(BlocksOf(nodes, ids), capacity)
    ensures NoneToTheRight(BlocksOf(nodes, ids), |ids|)
  {
    var blocks := BlocksOf(nodes, ids);
    forall i, j | 0 <= i < j < |blocks| ensures blocks[i].offset + blocks[i].size <= blocks[j].offset {
      ChainOrdered(nodes, chain, capacity, at[i], at[j]);
    }
    forall i | 0 <= i < |blocks| ensures blocks[i].offset + blocks[i].size <= capacity {
      ChainInside(nodes, chain, capacity, at[i]);
    }
    forall i | 0 <= i < |blocks| ensures Pos(blocks, i) <= blocks[i].offset {
      PosBelowOffset(blocks, i);
    }
  }

  lemma {:induction false} PosBelowOffset(blocks: seq<Block>, i: nat)
    requires forall k, j :: 0 <= k < j < |blocks| ==> blocks[k].offset + blocks[k].size <= blocks[j].offset
    requires i < |blocks|
    ensures Pos(blocks, i) <= blocks[i].offset
    decreases i
  {
    if i > 0 {
      PosBelowOffset(blocks, i - 1);
    }
  }

  /** A node after compaction: at its gapless offset, linked to the used nodes around it. */
  function CompactedNode(nodes: seq<Node>, ids: seq<int>, i: nat): Node
    requires InTable(nodes, ids) && i < |ids|
  {
    nodes[ids[i]].(
      offset := Pos(BlocksOf(nodes, ids), i),
      neighborPrev := if i == 0 then INVALID else ids[i - 1],
      neighborNext := if i + 1 == |ids| then INVALID else ids[i + 1])
  }

  lemma NoMovesYet(blocks: seq<Block>)
    ensures CompactMoves(blocks, 0) == []
  {
  }

  lemma ReportStep(blocks: seq<Block>, k: nat)
    requires k < |blocks|
    ensures var prior, b := CompactMoves(blocks, k), blocks[k];
      CompactMoves(blocks, k + 1) ==
        if b.offset == Pos(blocks, k) then prior
        else if Contiguous(blocks, k) && prior != [] then
          prior[|prior| - 1 := prior[|prior| - 1].(size := prior[|prior| - 1].size + b.size)]
        else prior + [Move(b.offset, Pos(blocks, k), b.size)]
    ensures Pos(blocks, k + 1) == Pos(blocks, k) + blocks[k].size
  {
  }

  predicate InPlace(nodes: seq<Node>, nodes': seq<Node>, ids: seq<int>, j: nat)
    requires InTable(nodes, ids) && |nodes'| == |nodes| && j < |ids|
  {
    nodes'[ids[j]] == CompactedNode(nodes, ids, j)
  }

  predicate Waiting(nodes: seq<Node>, nodes': seq<Node>, ids: seq<int>, j: nat)
    requires InTable(nodes, ids) && |nodes'| == |nodes| && j < |ids|
  {
    nodes'[ids[j]] == nodes[ids[j]]
  }

  /** The first `k` nodes are in place; the `k`-th does not know its successor yet. */
  ghost predicate PartlyCompacted(nodes: seq<Node>, nodes': seq<Node>, ids: seq<int>, k: nat)
    requires InTable(nodes, ids) && |nodes'| == |nodes| && k <= |ids|
  {
    && (forall j {:trigger InPlace(nodes, nodes', ids, j)} :: 0 <= j < k - 1 ==> InPlace(nodes, nodes', ids, j))
    && (k > 0 ==>
      nodes'[ids[k - 1]] == CompactedNode(nodes, ids, k - 1).(neighborNext := nodes'[ids[k - 1]].neighborNext))
    && (forall j {:trigger Waiting(nodes, nodes', ids, j)} :: k <= j < |ids| ==> Waiting(nodes, nodes', ids, j))
    && forall x :: 0 <= x < |nodes| && x !in ids ==> nodes'[x] == nodes[x]
  }

  lemma CompactionStart(nodes: seq<Node>, ids: seq<int>)
    requires InTable(nodes, ids)
    ensures PartlyCompacted(nodes, nodes, ids, 0) && Pos(BlocksOf(nodes, ids), 0) == 0
  {
  }

  lemma PlacementStep(nodes: seq<Node>, nodes': seq<Node>, ids: seq<int>, k: nat)
    requires InTable(nodes, ids) && Distinct(ids) && |nodes'| == |nodes| && k < |ids|
    requires PartlyCompacted(nodes, nodes', ids, k)
    ensures var b := BlocksOf(nodes, ids)[k];
      nodes'[ids[k]].offset == b.offset && nodes'[ids[k]].size == b.size
    ensures k > 0 ==> ids[k - 1] != ids[k] && nodes'[ids[k - 1]].size == BlocksOf(nodes, ids)[k - 1].size
  {
    assert Waiting(nodes, nodes', ids, k);
  }

  lemma PlacedStep(nodes: seq<Node>, nodes1: seq<Node>, nodes2: seq<Node>, ids: seq<int>, k: nat)
    requires InTable(nodes, ids) && Distinct(ids) && |nodes2| == |nodes1| == |nodes| && k < |ids|
    requires PartlyCompacted(nodes, nodes1, ids, k)
    requires nodes2[ids[k]]
      == nodes1[ids[k]].(offset := Pos(BlocksOf(nodes, ids), k), neighborPrev := if k == 0 then INVALID else ids[k - 1])
    requires k > 0 ==> nodes2[ids[k - 1]] == nodes1[ids[k - 1]].(neighborNext := ids[k])
    requires forall x :: 0 <= x < |nodes| && x != ids[k] && (k > 0 ==> x != ids[k - 1]) ==> nodes2[x] == nodes1[x]
    ensures PartlyCompacted(nodes, nodes2, ids, k + 1)
  {
    hide Pos, BlocksOf;
    assert Waiting(nodes, nodes1, ids, k);
    forall j | 0 <= j < k ensures InPlace(nodes, nodes2, ids, j) {
      assert j < k - 1 ==> InPlace(nodes, nodes1, ids, j);
    }
    forall j | k + 1 <= j < |ids| ensures Waiting(nodes, nodes2, ids, j) {
      assert Waiting(nodes, nodes1, ids, j);
    }
  }

  lemma LastPlaced(nodes: seq<Node>, nodes1: seq<Node>, nodes2: seq<Node>, ids: seq<int>)
    requires InTable(nodes, ids) && Distinct(ids) && |nodes1| == |nodes| && |ids| > 0
    requires PartlyCompacted(nodes, nodes1, ids, |ids|)
    requires nodes2 == nodes1[ids[|ids| - 1] := nodes1[ids[|ids| - 1]].(neighborNext := INVALID)]
    ensures forall i :: 0 <= i < |ids| ==> InPlace(nodes, nodes2, ids, i)
    ensures forall x :: 0 <= x < |nodes| && x !in ids ==> nodes2[x] == nodes[x]
  {
    hide Pos, BlocksOf;
    forall i | 0 <= i < |ids| ensures InPlace(nodes, nodes2, ids, i) {
      assert i < |ids| - 1 ==> InPlace(nodes, nodes1, ids, i);
    }
  }
}
