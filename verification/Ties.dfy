/** When sorting by offset makes compaction report a move to the right: only ever for blocks of size zero. */
module Ties {
  import opened Collections
  import opened Nodes
  import opened Edits
  import opened Compaction
  import opened Rebuild

  /** The total size of the nodes in `ids` below `n`. */
  function Total(nodes: seq<Node>, ids: set<int>, n: nat): nat
    requires n <= |nodes|
  {
    if n == 0 then 0 else Total(nodes, ids, n - 1) + if n - 1 in ids then nodes[n - 1].size else 0
  }

  lemma {:induction false} TotalSame(nodes: seq<Node>, s: set<int>, t: set<int>, n: nat)
    requires n <= |nodes|
    requires forall x :: 0 <= x < n && nodes[x].size > 0 ==> (x in s <==> x in t)
    ensures Total(nodes, s, n) == Total(nodes, t, n)
  {
    if n > 0 {
      TotalSame(nodes, s, t, n - 1);
    }
  }

  lemma {:induction false} TotalUnion(nodes: seq<Node>, s: set<int>, t: set<int>, n: nat)
    requires n <= |nodes| && s !! t
    ensures Total(nodes, s + t, n) == Total(nodes, s, n) + Total(nodes, t, n)
  {
    if n > 0 {
      TotalUnion(nodes, s, t, n - 1);
    }
  }

  lemma {:induction false} TotalOne(nodes: seq<Node>, x: int, n: nat)
    requires n <= |nodes|
    ensures Total(nodes, {x}, n) == if 0 <= x < n then nodes[x].size else 0
  {
    if n > 0 {
      TotalOne(nodes, x, n - 1);
    }
  }

  /** A gapless offset is the total size of the blocks listed before. */
  lemma {:induction false} PosIsTotal(nodes: seq<Node>, order: seq<int>, i: nat)
    requires InTable(nodes, order) && Distinct(order) && i <= |order|
    ensures Pos(BlocksOf(nodes, order), i) == Total(nodes, Elements(order[..i]), |nodes|)
  {
    if i == 0 {
      NoneTotal(nodes, |nodes|);
      assert Elements(order[..0]) == {};
    } else {
      PosIsTotal(nodes, order, i - 1);
      assert Elements(order[..i]) == Elements(order[..i - 1]) + {order[i - 1]};
      TotalUnion(nodes, Elements(order[..i - 1]), {order[i - 1]}, |nodes|);
      TotalOne(nodes, order[i - 1], |nodes|);
    }
  }

  lemma {:induction false} NoneTotal(nodes: seq<Node>, n: nat)
    requires n <= |nodes|
    ensures Total(nodes, {}, n) == 0
  {
    if n > 0 {
      NoneTotal(nodes, n - 1);
    }
  }

  /** An offset is the total size of the nodes before it on the chain. */
  lemma {:induction false} OffsetIsTotal(nodes: seq<Node>, chain: seq<int>, capacity: nat, p: nat)
    requires ChainOk(nodes, chain, capacity) && p < |chain|
    ensures nodes[chain[p]].offset == Total(nodes, Elements(chain[..p]), |nodes|)
  {
    if p == 0 {
      NoneTotal(nodes, |nodes|);
      assert Elements(chain[..0]) == {};
    } else {
      OffsetIsTotal(nodes, chain, capacity, p - 1);
      assert Linked(nodes, chain, capacity, p - 1);
      assert Elements(chain[..p]) == Elements(chain[..p - 1]) + {chain[p - 1]};
      TotalUnion(nodes, Elements(chain[..p - 1]), {chain[p - 1]}, |nodes|);
      TotalOne(nodes, chain[p - 1], |nodes|);
    }
  }

  /** The nodes on the chain before `offset` that are in use, or those that are not. */
  function Before(nodes: seq<Node>, chain: seq<int>, offset: nat, used: bool): set<int>
    requires InTable(nodes, chain)
  {
    set x | x in chain && nodes[x].used == used && nodes[x].offset < offset
  }

  /** The free space before `offset`. */
  function FreeBefore(nodes: seq<Node>, chain: seq<int>, offset: nat): nat
    requires InTable(nodes, chain)
  {
    Total(nodes, Before(nodes, chain, offset, false), |nodes|)
  }

  /** Used and free space before a node add up to its offset. */
  lemma OffsetSplits(nodes: seq<Node>, chain: seq<int>, capacity: nat, p: nat)
    requires ChainOk(nodes, chain, capacity) && p < |chain|
    ensures var o := nodes[chain[p]].offset;
      o == Total(nodes, Before(nodes, chain, o, true), |nodes|) + FreeBefore(nodes, chain, o)
  {
    var o := nodes[chain[p]].offset;
    var s, t := Before(nodes, chain, o, true), Before(nodes, chain, o, false);
    OffsetIsTotal(nodes, chain, capacity, p);
    TotalUnion(nodes, s, t, |nodes|);
    forall x | 0 <= x < |nodes| && nodes[x].size > 0 ensures x in s + t <==> x in Elements(chain[..p]) {
      if x in chain {
        var q :| 0 <= q < |chain| && chain[q] == x;
        assert x in Elements(chain[..p]) <==> q < p;
        if q < p {
          ChainOrdered(nodes, chain, capacity, q, p);
        } else if p < q {
          ChainOrdered(nodes, chain, capacity, p, q);
        }
      }
    }
    TotalSame(nodes, s + t, Elements(chain[..p]), |nodes|);
  }

  /** Block `i` is empty and listed behind block `j`, which starts where `i` does and is larger than the free space
      before both. */
  predicate Overtaken(nodes: seq<Node>, chain: seq<int>, order: seq<int>, i: nat, j: nat)
    requires InTable(nodes, chain) && InTable(nodes, order) && j < i < |order|
  {
    var b, c := nodes[order[i]], nodes[order[j]];
    b.offset == c.offset && b.size == 0 && c.size > FreeBefore(nodes, chain, b.offset)
  }

  /** The used nodes with data listed before block `i`: those before its offset, and at most one more at its offset. */
  lemma ListedBefore(nodes: seq<Node>, chain: seq<int>, order: seq<int>, i: nat, x: int)
    requires InTable(nodes, chain) && UsedOnChain(nodes, chain) && SortedUsed(nodes, order) && i < |order|
    requires 0 <= x < |nodes|
    ensures x in Before(nodes, chain, nodes[order[i]].offset, true) <==>
      (x in Elements(order[..i]) && nodes[x].offset != nodes[order[i]].offset)
  {
    if x in order {
      var k :| 0 <= k < |order| && order[k] == x;
      assert x in Elements(order[..i]) <==> k < i;
    }
  }

  /** At most one block with data starts at any offset. */
  lemma OneAtOffset(nodes: seq<Node>, order: seq<int>, i: nat, j: nat)
    requires InTable(nodes, order) && Ordered(BlocksOf(nodes, order)) && i < |order| && j < |order|
    requires nodes[order[i]].offset == nodes[order[j]].offset && nodes[order[i]].size > 0 && nodes[order[j]].size > 0
    ensures i == j
  {
    var blocks := BlocksOf(nodes, order);
    assert blocks[i] == Block(nodes[order[i]].offset, nodes[order[i]].size);
    assert blocks[j] == Block(nodes[order[j]].offset, nodes[order[j]].size);
  }

  /** Behind a block with data at the same offset. */
  lemma {:induction false} BehindData(nodes: seq<Node>, chain: seq<int>, capacity: nat, order: seq<int>, i: nat, j: nat)
    requires ChainOk(nodes, chain, capacity) && UsedOnChain(nodes, chain) && SortedUsed(nodes, order) && j < i < |order|
    requires nodes[order[j]].offset == nodes[order[i]].offset && nodes[order[j]].size > 0
    ensures Pos(BlocksOf(nodes, order), i) > nodes[order[i]].offset <==> Overtaken(nodes, chain, order, i, j)
    ensures nodes[order[i]].size == 0
  {
    hide ChainOk, Total, Pos, BlocksOf, Ordered, Inside;
    SortedIsOrdered(nodes, chain, capacity, order);
    ChainMembers(nodes, chain, capacity);
    var o, listed := nodes[order[i]].offset, Elements(order[..i]);
    var s := Before(nodes, chain, o, true);
    if nodes[order[i]].size > 0 {
      OneAtOffset(nodes, order, i, j);
    }
    forall x | 0 <= x < |nodes| && nodes[x].size > 0 ensures x in listed <==> x in s + {order[j]} {
      ListedBefore(nodes, chain, order, i, x);
      if x in listed && nodes[x].offset == o {
        var k :| 0 <= k < i && order[k] == x;
        OneAtOffset(nodes, order, k, j);
      }
    }
    TotalSame(nodes, listed, s + {order[j]}, |nodes|);
    TotalUnion(nodes, s, {order[j]}, |nodes|);
    TotalOne(nodes, order[j], |nodes|);
    PosIsTotal(nodes, order, i);
    var p :| 0 <= p < |chain| && chain[p] == order[i];
    OffsetSplits(nodes, chain, capacity, p);
  }

  lemma ChainMembers(nodes: seq<Node>, chain: seq<int>, capacity: nat)
    requires ChainOk(nodes, chain, capacity)
    ensures InTable(nodes, chain)
  {
  }

  /** Behind no block with data at the same offset. */
  lemma {:induction false} BehindNone(nodes: seq<Node>, chain: seq<int>, capacity: nat, order: seq<int>, i: nat)
    requires ChainOk(nodes, chain, capacity) && UsedOnChain(nodes, chain) && SortedUsed(nodes, order) && i < |order|
    requires forall j :: 0 <= j < i && nodes[order[j]].offset == nodes[order[i]].offset ==> nodes[order[j]].size == 0
    ensures Pos(BlocksOf(nodes, order), i) <= nodes[order[i]].offset
  {
    hide ChainOk, Total, Pos, BlocksOf;
    ChainMembers(nodes, chain, capacity);
    var o, listed := nodes[order[i]].offset, Elements(order[..i]);
    var s := Before(nodes, chain, o, true);
    forall x | x in listed && nodes[x].size > 0 ensures nodes[x].offset != o {
      var k :| 0 <= k < i && order[k] == x;
    }
    forall x | 0 <= x < |nodes| && nodes[x].size > 0 ensures x in listed <==> x in s {
      ListedBefore(nodes, chain, order, i, x);
    }
    TotalSame(nodes, listed, s, |nodes|);
    PosIsTotal(nodes, order, i);
    var p :| 0 <= p < |chain| && chain[p] == order[i];
    OffsetSplits(nodes, chain, capacity, p);
  }

  /** Of a memory's used nodes in any order that sorting by offset may leave, compaction reports only moves to the left
      exactly if no empty block is listed behind a block that starts with it and exceeds the free space before both. */
  lemma SortedMovesLeft(nodes: seq<Node>, chain: seq<int>, capacity: nat, order: seq<int>)
    requires ChainOk(nodes, chain, capacity) && UsedOnChain(nodes, chain) && SortedUsed(nodes, order)
    ensures NoneToTheRight(BlocksOf(nodes, order), |order|) <==>
      forall i, j :: 0 <= j < i < |order| ==> !Overtaken(nodes, chain, order, i, j)
    ensures GoLeft(CompactMoves(BlocksOf(nodes, order), |order|)) <==> NoneToTheRight(BlocksOf(nodes, order), |order|)
  {
    hide Overtaken, ChainOk, UsedOnChain, Pos, CompactMoves, GoLeft;
    ChainMembers(nodes, chain, capacity);
    var blocks := BlocksOf(nodes, order);
    MovesGoLeft(blocks, |order|);
    forall i | 0 <= i < |order| && Pos(blocks, i) > blocks[i].offset
      ensures exists j :: 0 <= j < i && Overtaken(nodes, chain, order, i, j)
    {
      OvertakenMovesRight(nodes, chain, capacity, order, i);
    }
    forall i, j | 0 <= j < i < |order| && Overtaken(nodes, chain, order, i, j)
      ensures Pos(blocks, i) > blocks[i].offset
    {
      OvertakenMovesRight(nodes, chain, capacity, order, i);
    }
  }

  lemma {:induction false} OvertakenMovesRight(nodes: seq<Node>, chain: seq<int>, capacity: nat, order: seq<int>,
    i: nat)
    requires ChainOk(nodes, chain, capacity) && UsedOnChain(nodes, chain) && SortedUsed(nodes, order) && i < |order|
    ensures Pos(BlocksOf(nodes, order), i) > nodes[order[i]].offset <==>
      exists j :: 0 <= j < i && Overtaken(nodes, chain, order, i, j)
  {
    hide ChainOk, UsedOnChain, Pos, BlocksOf;
    ChainMembers(nodes, chain, capacity);
    if j :| 0 <= j < i && nodes[order[j]].offset == nodes[order[i]].offset && nodes[order[j]].size > 0 {
      BehindData(nodes, chain, capacity, order, i, j);
      if k :| 0 <= k < i && Overtaken(nodes, chain, order, i, k) {
        BehindData(nodes, chain, capacity, order, i, k);
      }
    } else {
      BehindNone(nodes, chain, capacity, order, i);
    }
  }

  // ----- whatever the order -----

  /** `a` may stand before `b` in an order sorted by offset that lists `last` behind all that share its offset. */
  predicate MayPrecede(nodes: seq<Node>, last: int, a: int, b: int) {
    && 0 <= a < |nodes| && 0 <= b < |nodes|
    && (nodes[a].offset < nodes[b].offset || (nodes[a].offset == nodes[b].offset && (a == last ==> b == last)))
  }

  predicate SortedLast(nodes: seq<Node>, last: int, order: seq<int>) {
    && InTable(nodes, order)
    && forall i, j :: 0 <= i < j < |order| ==> MayPrecede(nodes, last, order[i], order[j])
  }

  lemma AppendSorted(nodes: seq<Node>, last: int, order: seq<int>, x: int)
    requires SortedLast(nodes, last, order) && 0 <= x < |nodes| && Distinct(order) && x !in order
    requires forall y :: y in order ==> MayPrecede(nodes, last, y, x)
    ensures SortedLast(nodes, last, order + [x]) && Distinct(order + [x])
    ensures forall y :: y in order + [x] <==> y in order || y == x
  {
    hide MayPrecede;
    DistinctAppend(order, [x]);
    assert forall i :: 0 <= i < |order| ==> order[i] in order;
  }

  lemma LastIsBehind(nodes: seq<Node>, last: int, order: seq<int>)
    requires SortedLast(nodes, last, order) && Distinct(order) && order != []
    ensures var init, end := order[..|order| - 1], order[|order| - 1];
      && order == init + [end] && SortedLast(nodes, last, init) && Distinct(init) && end !in init && 0 <= end < |nodes|
      && forall y :: y in init ==> MayPrecede(nodes, last, y, end)
  {
    hide MayPrecede;
  }

  lemma {:induction false} InsertSorted(nodes: seq<Node>, last: int, order: seq<int>, x: int) returns (order': seq<int>)
    requires SortedLast(nodes, last, order) && 0 <= x < |nodes| && Distinct(order) && x !in order
    ensures SortedLast(nodes, last, order') && Distinct(order')
    ensures forall y :: y in order' <==> y in order || y == x
    decreases |order|
  {
    hide SortedLast, Distinct;
    if order == [] {
      AppendSorted(nodes, last, order, x);
      return order + [x];
    }
    LastIsBehind(nodes, last, order);
    var init, end := order[..|order| - 1], order[|order| - 1];
    if MayPrecede(nodes, last, end, x) {
      AppendSorted(nodes, last, order, x);
      order' := order + [x];
    } else {
      var init' := InsertSorted(nodes, last, init, x);
      AppendSorted(nodes, last, init', end);
      order' := init' + [end];
    }
  }

  /** The used ids below `n`, sorted by offset, `last` as late as possible. */
  lemma {:induction false} SortLast(nodes: seq<Node>, last: int, n: nat) returns (order: seq<int>)
    requires n <= |nodes|
    ensures SortedLast(nodes, last, order) && Distinct(order)
    ensures forall x :: x in order <==> 0 <= x < n && nodes[x].used
  {
    if n == 0 {
      order := [];
    } else {
      order := SortLast(nodes, last, n - 1);
      if nodes[n - 1].used {
        order := InsertSorted(nodes, last, order, n - 1);
      }
    }
  }

  /** An empty used block shares its offset with a used block larger than the free space before both. */
  predicate Clash(nodes: seq<Node>, chain: seq<int>, x: int, y: int)
    requires InTable(nodes, chain) && 0 <= x < |nodes| && 0 <= y < |nodes|
  {
    && nodes[x].used && nodes[y].used && nodes[x].offset == nodes[y].offset
    && nodes[x].size == 0 && nodes[y].size > FreeBefore(nodes, chain, nodes[x].offset)
  }

  /** A clash leaves an order that lists the empty block last. */
  lemma ClashOvertakes(nodes: seq<Node>, chain: seq<int>, x: int, y: int)
    returns (order: seq<int>, i: nat, j: nat)
    requires InTable(nodes, chain) && 0 <= x < |nodes| && 0 <= y < |nodes| && Clash(nodes, chain, x, y)
    ensures SortedUsed(nodes, order) && j < i < |order| && Overtaken(nodes, chain, order, i, j)
  {
    hide FreeBefore;
    order := SortLast(nodes, x, |nodes|);
    i :| 0 <= i < |order| && order[i] == x;
    j :| 0 <= j < |order| && order[j] == y;
    assert !MayPrecede(nodes, x, order[i], order[j]);
    forall k, l | 0 <= k < l < |order| ensures nodes[order[k]].offset <= nodes[order[l]].offset {
      assert MayPrecede(nodes, x, order[k], order[l]);
    }
  }

  /** Every order that sorting by offset may leave is reported with moves to the left only, exactly if no empty block in
      use shares its offset with a block in use that is larger than the free space before both. */
  lemma EveryOrderMovesLeft(nodes: seq<Node>, chain: seq<int>, capacity: nat)
    requires ChainOk(nodes, chain, capacity) && UsedOnChain(nodes, chain)
    ensures (forall order :: SortedUsed(nodes, order) ==> GoLeft(CompactMoves(BlocksOf(nodes, order), |order|))) <==>
      forall x, y :: 0 <= x < |nodes| && 0 <= y < |nodes| ==> !Clash(nodes, chain, x, y)
  {
    hide ChainOk, UsedOnChain, Overtaken, Clash, GoLeft, CompactMoves;
    ChainMembers(nodes, chain, capacity);
    if x, y :| 0 <= x < |nodes| && 0 <= y < |nodes| && Clash(nodes, chain, x, y) {
      var order, i, j := ClashOvertakes(nodes, chain, x, y);
      SortedMovesLeft(nodes, chain, capacity, order);
    } else {
      forall order | SortedUsed(nodes, order) ensures GoLeft(CompactMoves(BlocksOf(nodes, order), |order|)) {
        SortedMovesLeft(nodes, chain, capacity, order);
        forall i, j | 0 <= j < i < |order| ensures !Overtaken(nodes, chain, order, i, j) {
          OvertakenClashes(nodes, chain, order, i, j);
        }
      }
    }
  }

  lemma OvertakenClashes(nodes: seq<Node>, chain: seq<int>, order: seq<int>, i: nat, j: nat)
    requires InTable(nodes, chain) && SortedUsed(nodes, order) && j < i < |order|
    ensures Overtaken(nodes, chain, order, i, j) <==> Clash(nodes, chain, order[i], order[j])
  {
    assert order[i] in order && order[j] in order;
  }
}
