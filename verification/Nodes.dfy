/** The allocator's node table and the physical neighbour chain threaded through it. */
module Nodes {
  import opened Collections

  /** `INVALID_INDEX`; indices are otherwise natural numbers. */
  const INVALID := -1

  datatype Node = Node(
    offset: nat,
    size: nat,
    binPrev: int,
    binNext: int,
    neighborPrev: int,
    neighborNext: int,
    used: bool)

  const UNUSED_NODE := Node(0, 0, INVALID, INVALID, INVALID, INVALID, false)

  /** What a caller can tell about one stretch of memory. */
  datatype Segment = Segment(offset: nat, size: nat, used: bool, id: int)

  predicate InTable(nodes: seq<Node>, ids: seq<int>) {
    forall i :: 0 <= i < |ids| ==> 0 <= ids[i] < |nodes|
  }

  /** The fields that the bin lists do not touch. */
  predicate SameBlock(n: Node, m: Node) {
    && n.offset == m.offset && n.size == m.size && n.used == m.used
    && n.neighborPrev == m.neighborPrev && n.neighborNext == m.neighborNext
  }

  /** Position `i` of a chain that tiles `[0, end)`: it ends where the next one begins, and its links name its
      neighbours. */
  ghost predicate Tile(nodes: seq<Node>, ids: seq<int>, end: nat, i: nat)
    requires InTable(nodes, ids) && i < |ids|
  {
    var n := nodes[ids[i]];
    var last := i + 1 == |ids|;
    && n.offset + n.size == (if last then end else nodes[ids[i + 1]].offset)
    && n.neighborPrev == (if i == 0 then INVALID else ids[i - 1])
    && n.neighborNext == (if last then INVALID else ids[i + 1])
  }

  /** The nodes in `ids` tile `[0, end)` exactly, in order. */
  ghost predicate TiledTo(nodes: seq<Node>, ids: seq<int>, end: nat) {
    && InTable(nodes, ids) && Distinct(ids)
    && (ids == [] ==> end == 0) && (ids != [] ==> nodes[ids[0]].offset == 0)
    && forall i :: 0 <= i < |ids| ==> Tile(nodes, ids, end, i)
  }

  /** A tile of the neighbour chain, in which no two free nodes are neighbours. */
  ghost predicate Linked(nodes: seq<Node>, chain: seq<int>, capacity: nat, i: nat)
    requires InTable(nodes, chain) && i < |chain|
  {
    && Tile(nodes, chain, capacity, i)
    && (i + 1 < |chain| ==> nodes[chain[i]].used || nodes[chain[i + 1]].used)
  }

  /** The neighbour chain tiles `[0, capacity)`, with no two free nodes side by side. */
  ghost predicate ChainOk(nodes: seq<Node>, chain: seq<int>, capacity: nat) {
    && |chain| > 0
    && InTable(nodes, chain)
    && Distinct(chain)
    && nodes[chain[0]].offset == 0
    && forall i :: 0 <= i < |chain| ==> Linked(nodes, chain, capacity, i)
  }

  function SegmentAt(nodes: seq<Node>, chain: seq<int>, i: nat): Segment
    requires InTable(nodes, chain) && i < |chain|
  {
    var n := nodes[chain[i]];
    Segment(n.offset, n.size, n.used, chain[i])
  }

  function SegmentsOf(nodes: seq<Node>, chain: seq<int>): (s: seq<Segment>)
    requires InTable(nodes, chain)
    ensures |s| == |chain|
    ensures forall i :: 0 <= i < |chain| ==> s[i] == SegmentAt(nodes, chain, i)
  {
    seq(|chain|, i requires 0 <= i < |chain| => SegmentAt(nodes, chain, i))
  }

  /** Later positions lie further right. */
  lemma {:induction false} ChainOrdered(nodes: seq<Node>, chain: seq<int>, capacity: nat, i: nat, j: nat)
    requires ChainOk(nodes, chain, capacity) && i < j < |chain|
    ensures nodes[chain[i]].offset + nodes[chain[i]].size <= nodes[chain[j]].offset
    decreases j
  {
    assert Linked(nodes, chain, capacity, j - 1);
    if i < j - 1 {
      ChainOrdered(nodes, chain, capacity, i, j - 1);
    }
  }

  lemma {:induction false} ChainInside(nodes: seq<Node>, chain: seq<int>, capacity: nat, i: nat)
    requires ChainOk(nodes, chain, capacity) && i < |chain|
    ensures nodes[chain[i]].offset + nodes[chain[i]].size <= capacity
  {
    var last := |chain| - 1;
    assert Linked(nodes, chain, capacity, last);
    if i < last {
      ChainOrdered(nodes, chain, capacity, i, last);
    }
  }

  /** Total size of the free nodes among `ids`. */
  function FreeSum(nodes: seq<Node>, ids: seq<int>): nat
    requires InTable(nodes, ids)
  {
    if ids == [] then 0
    else (if nodes[ids[0]].used then 0 else nodes[ids[0]].size) + FreeSum(nodes, ids[1..])
  }

  lemma {:induction false} FreeSumConcat(nodes: seq<Node>, a: seq<int>, b: seq<int>)
    requires InTable(nodes, a) && InTable(nodes, b)
    ensures InTable(nodes, a + b)
    ensures FreeSum(nodes, a + b) == FreeSum(nodes, a) + FreeSum(nodes, b)
  {
    if a == [] {
      assert a + b == b;
    } else {
      FreeSumConcat(nodes, a[1..], b);
      assert (a + b)[1..] == a[1..] + b;
    }
  }

  lemma {:induction false} FreeSumFrame(nodes: seq<Node>, nodes': seq<Node>, ids: seq<int>)
    requires InTable(nodes, ids) && InTable(nodes', ids)
    requires forall i :: 0 <= i < |ids| ==>
      nodes[ids[i]].size == nodes'[ids[i]].size && nodes[ids[i]].used == nodes'[ids[i]].used
    ensures FreeSum(nodes, ids) == FreeSum(nodes', ids)
  {
    if ids != [] {
      FreeSumFrame(nodes, nodes', ids[1..]);
    }
  }

  /** A stretch `[a, b)` of the chain replaced by `mid`. */
  function Spliced<T>(chain: seq<T>, a: nat, b: nat, mid: seq<T>): seq<T>
    requires a <= b <= |chain|
  {
    chain[..a] + mid + chain[b..]
  }

  /** Outside the replaced stretch only the two links across its ends change. */
  predicate Kept(nodes: seq<Node>, nodes': seq<Node>, chain: seq<int>, a: nat, b: nat, mid: seq<int>, i: nat)
    requires InTable(nodes, chain) && InTable(nodes', chain) && i < |chain| && |mid| > 0
  {
    var n, n' := nodes[chain[i]], nodes'[chain[i]];
    && n'.offset == n.offset && n'.size == n.size && n'.used == n.used
    && n'.neighborPrev == (if i == b then mid[|mid| - 1] else n.neighborPrev)
    && n'.neighborNext == (if i + 1 == a then mid[0] else n.neighborNext)
  }

  ghost predicate SpliceOk(nodes: seq<Node>, nodes': seq<Node>, chain: seq<int>, a: nat, b: nat, mid: seq<int>,
    capacity: nat)
  {
    && ChainOk(nodes, chain, capacity)
    && a < b <= |chain| && |mid| > 0
    && InTable(nodes', chain) && InTable(nodes', mid)
    && Distinct(mid)
    && (forall i, j :: 0 <= i < |mid| && 0 <= j < |chain| && !(a <= j < b) ==> mid[i] != chain[j])
    && (forall i {:trigger Kept(nodes, nodes', chain, a, b, mid, i)} ::
          0 <= i < |chain| && !(a <= i < b) ==> Kept(nodes, nodes', chain, a, b, mid, i))
    && nodes'[mid[0]].offset == nodes[chain[a]].offset
    && (a > 0 ==> nodes[chain[a - 1]].used || nodes'[mid[0]].used)
  }

  lemma SplicedIds(nodes': seq<Node>, chain: seq<int>, a: nat, b: nat, mid: seq<int>)
    requires a <= b <= |chain|
    requires InTable(nodes', chain) && InTable(nodes', mid)
    requires Distinct(chain) && Distinct(mid)
    requires forall i, j :: 0 <= i < |mid| && 0 <= j < |chain| && !(a <= j < b) ==> mid[i] != chain[j]
    ensures InTable(nodes', Spliced(chain, a, b, mid))
    ensures Distinct(Spliced(chain, a, b, mid))
  {
    var c := Spliced(chain, a, b, mid);
    var d := a + |mid|;
    forall i | 0 <= i < |c| ensures 0 <= c[i] < |nodes'| {
      assert c[i] == if i < a then chain[i] else if i < d then mid[i - a] else chain[b + (i - d)];
    }
    forall i, j | 0 <= i < j < |c| ensures c[i] != c[j] {
      assert c[i] == if i < a then chain[i] else if i < d then mid[i - a] else chain[b + (i - d)];
      assert c[j] == if j < a then chain[j] else if j < d then mid[j - a] else chain[b + (j - d)];
    }
  }

  /** Replacing a stretch by links that tile the same interval keeps the chain. */
  lemma SpliceKeepsChain(nodes: seq<Node>, nodes': seq<Node>, chain: seq<int>, a: nat, b: nat, mid: seq<int>,
    capacity: nat)
    requires SpliceOk(nodes, nodes', chain, a, b, mid, capacity)
    requires InTable(nodes', Spliced(chain, a, b, mid))
    requires forall k :: a <= k < a + |mid| ==> Linked(nodes', Spliced(chain, a, b, mid), capacity, k)
    ensures ChainOk(nodes', Spliced(chain, a, b, mid), capacity)
  {
    var c := Spliced(chain, a, b, mid);
    SplicedIds(nodes', chain, a, b, mid);
    forall k | 0 <= k < |c| ensures Linked(nodes', c, capacity, k) {
      if k < a {
        SpliceBefore(nodes, nodes', chain, a, b, mid, capacity, k);
      } else if a + |mid| <= k {
        SpliceAfter(nodes, nodes', chain, a, b, mid, capacity, k);
      }
    }
    assert nodes'[c[0]].offset == 0 by {
      if a > 0 {
        assert c[0] == chain[0];
        assert Kept(nodes, nodes', chain, a, b, mid, 0);
      } else {
        assert c[0] == mid[0];
      }
    }
  }

  lemma SpliceBefore(nodes: seq<Node>, nodes': seq<Node>, chain: seq<int>, a: nat, b: nat, mid: seq<int>, capacity: nat,
    k: nat)
    requires SpliceOk(nodes, nodes', chain, a, b, mid, capacity) && k < a
    requires InTable(nodes', Spliced(chain, a, b, mid))
    ensures Linked(nodes', Spliced(chain, a, b, mid), capacity, k)
  {
    var c := Spliced(chain, a, b, mid);
    assert Linked(nodes, chain, capacity, k);
    assert Kept(nodes, nodes', chain, a, b, mid, k);
    assert c[k] == chain[k];
    assert k > 0 ==> c[k - 1] == chain[k - 1];
    if k + 1 == a {
      assert c[k + 1] == mid[0];
    } else {
      assert c[k + 1] == chain[k + 1];
      assert Kept(nodes, nodes', chain, a, b, mid, k + 1);
    }
  }

  lemma SpliceAfter(nodes: seq<Node>, nodes': seq<Node>, chain: seq<int>, a: nat, b: nat, mid: seq<int>, capacity: nat,
    k: nat)
    requires SpliceOk(nodes, nodes', chain, a, b, mid, capacity)
    requires a + |mid| <= k < |Spliced(chain, a, b, mid)|
    requires InTable(nodes', Spliced(chain, a, b, mid))
    ensures Linked(nodes', Spliced(chain, a, b, mid), capacity, k)
  {
    var c := Spliced(chain, a, b, mid);
    var i := k - a - |mid| + b;
    assert Linked(nodes, chain, capacity, i);
    assert Kept(nodes, nodes', chain, a, b, mid, i);
    assert c[k] == chain[i];
    if i == b {
      assert c[k - 1] == mid[|mid| - 1];
    } else {
      assert c[k - 1] == chain[i - 1];
    }
    if i + 1 < |chain| {
      assert c[k + 1] == chain[i + 1];
      assert Kept(nodes, nodes', chain, a, b, mid, i + 1);
    }
  }

  lemma SplicedElements(nodes': seq<Node>, chain: seq<int>, a: nat, b: nat, mid: seq<int>)
    requires a <= b <= |chain| && Distinct(chain)
    ensures Elements(Spliced(chain, a, b, mid)) == Elements(chain) - Elements(chain[a..b]) + Elements(mid)
  {
    var c := Spliced(chain, a, b, mid);
    forall x ensures x in c <==> x in Elements(chain) - Elements(chain[a..b]) + Elements(mid) {
      assert x in c <==> x in chain[..a] || x in mid || x in chain[b..];
      assert x in chain <==> x in chain[..a] || x in chain[a..b] || x in chain[b..] by {
        assert chain == chain[..a] + chain[a..b] + chain[b..];
      }
    }
  }

  lemma SpliceFreeSum(nodes: seq<Node>, nodes': seq<Node>, chain: seq<int>, a: nat, b: nat, mid: seq<int>,
    capacity: nat)
    requires SpliceOk(nodes, nodes', chain, a, b, mid, capacity)
    ensures InTable(nodes', Spliced(chain, a, b, mid))
    ensures FreeSum(nodes', Spliced(chain, a, b, mid)) + FreeSum(nodes, chain[a..b])
      == FreeSum(nodes, chain) + FreeSum(nodes', mid)
  {
    SplitFreeSum(nodes, chain, a, b);
    forall i | 0 <= i < |chain| && !(a <= i < b)
      ensures nodes[chain[i]].size == nodes'[chain[i]].size && nodes[chain[i]].used == nodes'[chain[i]].used
    {
      assert Kept(nodes, nodes', chain, a, b, mid, i);
    }
    FreeSumFrame(nodes, nodes', chain[..a]);
    FreeSumFrame(nodes, nodes', chain[b..]);
    FreeSumConcat(nodes', chain[..a], mid);
    FreeSumConcat(nodes', chain[..a] + mid, chain[b..]);
  }

  lemma SplitFreeSum(nodes: seq<Node>, chain: seq<int>, a: nat, b: nat)
    requires InTable(nodes, chain) && a <= b <= |chain|
    ensures FreeSum(nodes, chain)
      == FreeSum(nodes, chain[..a]) + FreeSum(nodes, chain[a..b]) + FreeSum(nodes, chain[b..])
  {
    FreeSumConcat(nodes, chain[..a], chain[a..b]);
    FreeSumConcat(nodes, chain[..a] + chain[a..b], chain[b..]);
    assert chain == chain[..a] + chain[a..b] + chain[b..];
  }

  lemma SpliceSegments(nodes: seq<Node>, nodes': seq<Node>, chain: seq<int>, a: nat, b: nat, mid: seq<int>,
    capacity: nat)
    requires SpliceOk(nodes, nodes', chain, a, b, mid, capacity)
    ensures InTable(nodes', Spliced(chain, a, b, mid))
    ensures SegmentsOf(nodes', Spliced(chain, a, b, mid))
         == Spliced(SegmentsOf(nodes, chain), a, b, SegmentsOf(nodes', mid))
  {
    var c := Spliced(chain, a, b, mid);
    SplicedIds(nodes', chain, a, b, mid);
    var s, s' := SegmentsOf(nodes, chain), SegmentsOf(nodes', c);
    var t := s[..a] + SegmentsOf(nodes', mid) + s[b..];
    forall k | 0 <= k < |c| ensures s'[k] == t[k] {
      assert s'[k] == SegmentAt(nodes', c, k);
      if k < a {
        assert c[k] == chain[k] && Kept(nodes, nodes', chain, a, b, mid, k);
      } else if k < a + |mid| {
        assert c[k] == mid[k - a];
      } else {
        var i := k - a - |mid| + b;
        assert c[k] == chain[i] && Kept(nodes, nodes', chain, a, b, mid, i);
      }
    }
  }

  /** Everything a replaced stretch means for the chain, in one step. */
  lemma SpliceAll(nodes: seq<Node>, nodes': seq<Node>, chain: seq<int>, a: nat, b: nat, mid: seq<int>, capacity: nat)
    requires SpliceOk(nodes, nodes', chain, a, b, mid, capacity)
    requires InTable(nodes', Spliced(chain, a, b, mid))
    requires forall k :: a <= k < a + |mid| ==> Linked(nodes', Spliced(chain, a, b, mid), capacity, k)
    ensures ChainOk(nodes', Spliced(chain, a, b, mid), capacity)
    ensures FreeSum(nodes', Spliced(chain, a, b, mid)) + FreeSum(nodes, chain[a..b])
      == FreeSum(nodes, chain) + FreeSum(nodes', mid)
    ensures SegmentsOf(nodes', Spliced(chain, a, b, mid))
      == Spliced(SegmentsOf(nodes, chain), a, b, SegmentsOf(nodes', mid))
  {
    SpliceKeepsChain(nodes, nodes', chain, a, b, mid, capacity);
    SpliceFreeSum(nodes, nodes', chain, a, b, mid, capacity);
    SpliceSegments(nodes, nodes', chain, a, b, mid, capacity);
  }

  lemma FreeSumOne(nodes: seq<Node>, id: int)
    requires 0 <= id < |nodes|
    ensures FreeSum(nodes, [id]) == if nodes[id].used then 0 else nodes[id].size
  {
    assert [id][1..] == [];
  }

  /** When nothing is in use, a single free node spans the whole memory. */
  lemma AllFreeIsOneBlock(nodes: seq<Node>, chain: seq<int>, capacity: nat)
    requires ChainOk(nodes, chain, capacity)
    requires forall i :: 0 <= i < |chain| ==> !nodes[chain[i]].used
    ensures |chain| == 1
    ensures SegmentsOf(nodes, chain) == [Segment(0, capacity, false, chain[0])]
  {
    assert Linked(nodes, chain, capacity, 0);
  }
}
