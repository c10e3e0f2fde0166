/** The free lists, one per float code, and the two-level bitmap over them. */
module Bins {
  import opened Collections
  import opened Words
  import opened TinyFloat
  import opened Nodes

  function Head(list: seq<int>): int {
    if list == [] then INVALID else list[0]
  }

  /** Position `j` of bin `b`'s list: a free node of that size class with matching links. */
  ghost predicate Listed(nodes: seq<Node>, list: seq<int>, b: nat, j: nat)
    requires InTable(nodes, list) && j < |list|
  {
    var n := nodes[list[j]];
    && !n.used
    && FloorToFloat(n.size) == b
    && n.binPrev == (if j == 0 then INVALID else list[j - 1])
    && n.binNext == (if j + 1 == |list| then INVALID else list[j + 1])
  }

  ghost predicate ListOk(nodes: seq<Node>, list: seq<int>, b: nat) {
    && InTable(nodes, list)
    && Distinct(list)
    && forall j :: 0 <= j < |list| ==> Listed(nodes, list, b, j)
  }

  ghost predicate BinOk(nodes: seq<Node>, heads: seq<int>, bins: seq<seq<int>>, b: nat)
    requires |heads| == |bins| && b < |bins|
  {
    ListOk(nodes, bins[b], b) && heads[b] == Head(bins[b])
  }

  ghost predicate BinsOk(nodes: seq<Node>, heads: seq<int>, bins: seq<seq<int>>) {
    && |heads| == |bins|
    && forall b :: 0 <= b < |bins| ==> BinOk(nodes, heads, bins, b)
  }

  /** Every bin head names a node of a table of `n`. */
  predicate HeadsInTable(n: nat, heads: seq<int>) {
    forall b :: 0 <= b < |heads| && heads[b] != INVALID ==> 0 <= heads[b] < n
  }

  lemma NewHeadInTable(n: nat, heads: seq<int>, b: nat, id: int)
    requires HeadsInTable(n, heads) && b < |heads| && 0 <= id < n
    ensures heads[b] != INVALID ==> 0 <= heads[b] < n
    ensures HeadsInTable(n, heads[b := id])
  {
  }

  lemma BinHeadsInTable(nodes: seq<Node>, heads: seq<int>, bins: seq<seq<int>>)
    requires BinsOk(nodes, heads, bins)
    ensures HeadsInTable(|nodes|, heads)
  {
    forall b | 0 <= b < |heads| && heads[b] != INVALID ensures 0 <= heads[b] < |nodes| {
      assert BinOk(nodes, heads, bins, b);
    }
  }

  /** The list writes of `insertNode`: a fresh node in front of bin `b`. */
  function PushFront(nodes: seq<Node>, head: int, id: int, size: nat, offset: nat): seq<Node>
    requires 0 <= id < |nodes| && (head != INVALID ==> 0 <= head < |nodes|)
  {
    var nodes1 := nodes[id := Node(offset, size, INVALID, head, INVALID, INVALID, false)];
    if head == INVALID then nodes1 else nodes1[head := nodes1[head].(binPrev := id)]
  }

  /** Whatever the id was used for before, its node is now the free block; other nodes keep theirs. */
  lemma PushFrontBlocks(nodes: seq<Node>, head: int, id: int, size: nat, offset: nat)
    requires 0 <= id < |nodes| && (head != INVALID ==> 0 <= head < |nodes|)
    ensures var nodes' := PushFront(nodes, head, id, size, offset);
      && |nodes'| == |nodes|
      && SameBlock(nodes'[id], Node(offset, size, INVALID, INVALID, INVALID, INVALID, false))
      && forall k :: 0 <= k < |nodes| && k != id ==> SameBlock(nodes'[k], nodes[k])
  {
  }

  predicate LinksInTable(nodes: seq<Node>, id: int) {
    && 0 <= id < |nodes|
    && (nodes[id].binPrev != INVALID ==> 0 <= nodes[id].binPrev < |nodes|)
    && (nodes[id].binNext != INVALID ==> 0 <= nodes[id].binNext < |nodes|)
  }

  /** The list writes of `removeNode` and `sliceTopBinNode`: `id`'s list neighbours skip it. */
  function Unlinked(nodes: seq<Node>, id: int): seq<Node>
    requires LinksInTable(nodes, id)
  {
    var p, n := nodes[id].binPrev, nodes[id].binNext;
    var nodes1 := if p == INVALID then nodes else nodes[p := nodes[p].(binNext := n)];
    if n == INVALID then nodes1 else nodes1[n := nodes1[n].(binPrev := p)]
  }

  lemma ListFrame(nodes: seq<Node>, nodes': seq<Node>, list: seq<int>, b: nat)
    requires ListOk(nodes, list, b) && |nodes'| == |nodes|
    requires forall j :: 0 <= j < |list| ==> nodes'[list[j]] == nodes[list[j]]
    ensures ListOk(nodes', list, b)
  {
    forall j | 0 <= j < |list| ensures Listed(nodes', list, b, j) {
      assert Listed(nodes, list, b, j);
    }
  }

  lemma ListPushFront(nodes: seq<Node>, list: seq<int>, b: nat, id: int, size: nat, offset: nat)
    requires ListOk(nodes, list, b)
    requires 0 <= id < |nodes| && id !in list && FloorToFloat(size) == b
    ensures ListOk(PushFront(nodes, Head(list), id, size, offset), [id] + list, b)
  {
    var nodes' := PushFront(nodes, Head(list), id, size, offset);
    var list' := [id] + list;
    forall j | 0 <= j < |list'| ensures Listed(nodes', list', b, j) {
      if j > 0 {
        assert list'[j] == list[j - 1];
        assert Listed(nodes, list, b, j - 1);
        assert j > 1 ==> list'[j - 1] == list[j - 2] && list[j - 1] != list[0];
        assert j + 1 < |list'| ==> list'[j + 1] == list[j];
      }
    }
  }

  lemma ListMemberLinks(nodes: seq<Node>, list: seq<int>, b: nat, j: nat)
    requires ListOk(nodes, list, b) && j < |list|
    ensures LinksInTable(nodes, list[j])
    ensures nodes[list[j]].binPrev == if j == 0 then INVALID else list[j - 1]
    ensures nodes[list[j]].binNext == if j + 1 == |list| then INVALID else list[j + 1]
    ensures !nodes[list[j]].used && FloorToFloat(nodes[list[j]].size) == b
  {
    assert Listed(nodes, list, b, j);
  }

  function Without(list: seq<int>, j: nat): seq<int>
    requires j < |list|
  {
    list[..j] + list[j + 1..]
  }

  lemma ListRemove(nodes: seq<Node>, list: seq<int>, b: nat, j: nat)
    requires ListOk(nodes, list, b) && j < |list|
    requires LinksInTable(nodes, list[j])
    ensures ListOk(Unlinked(nodes, list[j]), Without(list, j), b)
    ensures Head(Without(list, j)) == if j == 0 then nodes[list[j]].binNext else Head(list)
  {
    var nodes', list' := Unlinked(nodes, list[j]), Without(list, j);
    ListMemberLinks(nodes, list, b, j);
    forall k | 0 <= k < |list'| ensures Listed(nodes', list', b, k) {
      var i := if k < j then k else k + 1;
      assert list'[k] == list[i];
      assert Listed(nodes, list, b, i);
      if k > 0 {
        assert list'[k - 1] == list[if k - 1 < j then k - 1 else k];
      }
      if k + 1 < |list'| {
        assert list'[k + 1] == list[if k + 1 < j then k + 1 else k + 2];
      }
    }
  }

  /** Two bins share no node: a node's size fixes its bin. */
  lemma BinsDisjoint(nodes: seq<Node>, heads: seq<int>, bins: seq<seq<int>>, b: nat, c: nat, i: nat, j: nat)
    requires BinsOk(nodes, heads, bins)
    requires b < |bins| && c < |bins| && b != c && i < |bins[b]| && j < |bins[c]|
    ensures bins[b][i] != bins[c][j]
  {
    assert BinOk(nodes, heads, bins, b) && BinOk(nodes, heads, bins, c);
    assert Listed(nodes, bins[b], b, i) && Listed(nodes, bins[c], c, j);
  }

  lemma PushKeepsBins(nodes: seq<Node>, heads: seq<int>, bins: seq<seq<int>>, id: int, size: nat, offset: nat)
    requires BinsOk(nodes, heads, bins)
    requires 0 <= id < |nodes| && FloorToFloat(size) < |bins|
    requires forall b, j :: 0 <= b < |bins| && 0 <= j < |bins[b]| ==> bins[b][j] != id
    ensures var b := FloorToFloat(size);
      && BinOk(nodes, heads, bins, b)
      && BinsOk(PushFront(nodes, heads[b], id, size, offset), heads[b := id], bins[b := [id] + bins[b]])
  {
    var b := FloorToFloat(size);
    assert BinOk(nodes, heads, bins, b);
    ListPushFront(nodes, bins[b], b, id, size, offset);
    var nodes' := PushFront(nodes, heads[b], id, size, offset);
    var heads', bins' := heads[b := id], bins[b := [id] + bins[b]];
    forall c | 0 <= c < |bins'| ensures BinOk(nodes', heads', bins', c) {
      assert BinOk(nodes, heads, bins, c);
      if c != b {
        forall j | 0 <= j < |bins[c]| ensures nodes'[bins[c][j]] == nodes[bins[c][j]] {
          if bins[b] != [] {
            BinsDisjoint(nodes, heads, bins, b, c, 0, j);
          }
        }
        ListFrame(nodes, nodes', bins[c], c);
      }
    }
  }

  lemma RemoveKeepsBins(nodes: seq<Node>, heads: seq<int>, bins: seq<seq<int>>, b: nat, j: nat)
    requires BinsOk(nodes, heads, bins)
    requires b < |bins| && j < |bins[b]|
    requires LinksInTable(nodes, bins[b][j])
    ensures var head := if j == 0 then nodes[bins[b][j]].binNext else heads[b];
      BinsOk(Unlinked(nodes, bins[b][j]), heads[b := head], bins[b := Without(bins[b], j)])
  {
    assert BinOk(nodes, heads, bins, b);
    ListRemove(nodes, bins[b], b, j);
    ListMemberLinks(nodes, bins[b], b, j);
    var head := if j == 0 then nodes[bins[b][j]].binNext else heads[b];
    var nodes' := Unlinked(nodes, bins[b][j]);
    var heads', bins' := heads[b := head], bins[b := Without(bins[b], j)];
    forall c | 0 <= c < |bins'| ensures BinOk(nodes', heads', bins', c) {
      assert BinOk(nodes, heads, bins, c);
      if c != b {
        forall k | 0 <= k < |bins[c]| ensures nodes'[bins[c][k]] == nodes[bins[c][k]] {
          if j > 0 {
            BinsDisjoint(nodes, heads, bins, b, c, j - 1, k);
          }
          if j + 1 < |bins[b]| {
            BinsDisjoint(nodes, heads, bins, b, c, j + 1, k);
          }
        }
        ListFrame(nodes, nodes', bins[c], c);
      }
    }
  }

  /** A bin's nodes keep their lists when a node outside every bin is rewritten. */
  lemma WriteKeepsBins(nodes: seq<Node>, heads: seq<int>, bins: seq<seq<int>>, id: int, n: Node)
    requires BinsOk(nodes, heads, bins) && 0 <= id < |nodes|
    requires forall b, j :: 0 <= b < |bins| && 0 <= j < |bins[b]| ==> bins[b][j] != id
    ensures BinsOk(nodes[id := n], heads, bins)
  {
    var nodes' := nodes[id := n];
    forall c | 0 <= c < |bins| ensures BinOk(nodes', heads, bins, c) {
      assert BinOk(nodes, heads, bins, c);
      ListFrame(nodes, nodes', bins[c], c);
    }
  }

  /** Relinking neighbours leaves the bins alone. */
  lemma RelinkKeepsBins(nodes: seq<Node>, nodes': seq<Node>, heads: seq<int>, bins: seq<seq<int>>)
    requires BinsOk(nodes, heads, bins) && |nodes'| >= |nodes|
    requires forall k :: 0 <= k < |nodes| ==> SameListing(nodes[k], nodes'[k])
    ensures BinsOk(nodes', heads, bins)
  {
    forall c | 0 <= c < |bins| ensures BinOk(nodes', heads, bins, c) {
      assert BinOk(nodes, heads, bins, c);
      forall j | 0 <= j < |bins[c]| ensures Listed(nodes', bins[c], c, j) {
        assert Listed(nodes, bins[c], c, j);
        assert SameListing(nodes[bins[c][j]], nodes'[bins[c][j]]);
      }
    }
  }

  /** The fields that the neighbour chain's links do not touch. */
  predicate SameListing(n: Node, m: Node) {
    n.size == m.size && n.used == m.used && n.binPrev == m.binPrev && n.binNext == m.binNext && n.offset == m.offset
  }

  // ----- the two-level bitmap -----

  /** Byte `t` has exactly the bits of its non-empty bins, and its own bit above iff it is not zero. */
  ghost predicate MaskOk(top: nat, leaf: seq<nat>, heads: seq<int>, t: nat)
    requires |heads| == 8 * |leaf| && t < |leaf|
  {
    && leaf[t] < 256
    && (Bit(top, t) <==> leaf[t] != 0)
    && forall l :: 0 <= l < 8 ==> (Bit(leaf[t], l) <==> heads[8 * t + l] != INVALID)
  }

  ghost predicate MasksOk(w: nat, top: nat, leaf: seq<nat>, heads: seq<int>) {
    && |leaf| == w && |heads| == 8 * w
    && top < Pow2(w)
    && forall t :: 0 <= t < w ==> MaskOk(top, leaf, heads, t)
  }

  /** `mask | (1 << k)` */
  function WithBit(mask: nat, k: nat): nat {
    Or(mask, Shl(1, k))
  }

  /** `mask & ~(1 << k)` in a word of `w` bits */
  function WithoutBit(w: nat, mask: nat, k: nat): nat
    requires k < w
  {
    ShlOfOctet(k);
    Pow2Monotone(k + 1, w);
    And(mask, Not(w, Shl(1, k)))
  }

  lemma BitOfWithBit(w: nat, mask: nat, k: nat, i: nat)
    requires k < w && mask < Pow2(w)
    ensures Bit(WithBit(mask, k), i) <==> Bit(mask, i) || i == k
    ensures WithBit(mask, k) < Pow2(w)
    ensures WithBit(mask, k) != 0
  {
    ShlOfOctet(k);
    Pow2Monotone(k + 1, w);
    BitOfPow2(k, i);
    BitOfPow2(k, k);
    BitOfOr(mask, Pow2(k), i);
    BitOfOr(mask, Pow2(k), k);
    BitOfZero(k);
    OrFits(w, mask, Pow2(k));
  }

  lemma BitOfWithoutBit(w: nat, mask: nat, k: nat, i: nat)
    requires k < w && mask < Pow2(w)
    ensures Bit(WithoutBit(w, mask, k), i) <==> Bit(mask, i) && i != k
    ensures WithoutBit(w, mask, k) < Pow2(w)
  {
    ShlOfOctet(k);
    Pow2Monotone(k + 1, w);
    BitOfAnd(mask, Not(w, Pow2(k)), i);
    AndAtMost(mask, Not(w, Pow2(k)));
    if i < w {
      BitOfPow2(k, i);
      BitOfNot(w, Pow2(k), i);
    } else {
      BitBeyondWidth(w, mask, i);
    }
  }

  /** Marking bin `8 * t + l` non-empty. */
  lemma SetKeepsMasks(w: nat, top: nat, leaf: seq<nat>, heads: seq<int>, t: nat, l: nat, id: int)
    requires MasksOk(w, top, leaf, heads) && t < w && l < 8 && id != INVALID
    ensures MasksOk(w, WithBit(top, t), leaf[t := WithBit(leaf[t], l)], heads[8 * t + l := id])
  {
    var top', leaf', heads' := WithBit(top, t), leaf[t := WithBit(leaf[t], l)], heads[8 * t + l := id];
    assert Pow2(8) == 256 by { Pow2OfEight(); }
    BitOfWithBit(w, top, t, t);
    forall s | 0 <= s < w ensures MaskOk(top', leaf', heads', s) {
      assert MaskOk(top, leaf, heads, s);
      BitOfWithBit(w, top, t, s);
      if s == t {
        forall i | 0 <= i < 8 ensures Bit(leaf'[s], i) <==> heads'[8 * s + i] != INVALID {
          BitOfWithBit(8, leaf[t], l, i);
        }
        BitOfWithBit(8, leaf[t], l, l);
      }
    }
  }

  lemma Pow2OfEight()
    ensures Pow2(8) == 256
  {
    assert Pow2(4) == 16;
    assert Pow2(6) == 64;
  }

  /** Marking bin `8 * t + l` empty; the byte's own bit goes with its last bin. */
  lemma ClearKeepsMasks(w: nat, top: nat, leaf: seq<nat>, heads: seq<int>, t: nat, l: nat, tw: nat)
    requires MasksOk(w, top, leaf, heads) && t < w <= tw && l < 8
    ensures var byte := WithoutBit(8, leaf[t], l);
      MasksOk(w, if byte == 0 then WithoutBit(tw, top, t) else top, leaf[t := byte], heads[8 * t + l := INVALID])
  {
    var byte := WithoutBit(8, leaf[t], l);
    var top' := if byte == 0 then WithoutBit(tw, top, t) else top;
    var leaf', heads' := leaf[t := byte], heads[8 * t + l := INVALID];
    Pow2OfEight();
    Pow2Monotone(w, tw);
    assert MaskOk(top, leaf, heads, t);
    BitOfWithoutBit(8, leaf[t], l, l);
    assert top' < Pow2(w) by {
      ShlOfOctet(t);
      Pow2Monotone(t + 1, tw);
      AndAtMost(top, Not(tw, Shl(1, t)));
    }
    forall s | 0 <= s < w ensures MaskOk(top', leaf', heads', s) {
      assert MaskOk(top, leaf, heads, s);
      BitOfWithoutBit(tw, top, t, s);
      if s == t {
        forall i | 0 <= i < 8 ensures Bit(leaf'[s], i) <==> heads'[8 * s + i] != INVALID {
          BitOfWithoutBit(8, leaf[t], l, i);
        }
        assert byte != 0 ==> leaf[t] != 0 by {
          if leaf[t] == 0 { AndAtMost(0, Not(8, Shl(1, l))); }
        }
      }
    }
  }

  /** The masks depend only on which bins are empty. */
  lemma HeadChangeKeepsMasks(w: nat, top: nat, leaf: seq<nat>, heads: seq<int>, b: nat, id: int)
    requires MasksOk(w, top, leaf, heads) && b < 8 * w && id != INVALID && heads[b] != INVALID
    ensures MasksOk(w, top, leaf, heads[b := id])
  {
    var heads' := heads[b := id];
    forall s | 0 <= s < w ensures MaskOk(top, leaf, heads', s) {
      assert MaskOk(top, leaf, heads, s);
    }
  }

  // ----- searching -----

  /** The bits of a `top_bin_mask_t` for sizes of `w` bits. */
  function TopBits(w: nat): nat {
    if w <= 32 then 32 else 64
  }

  /** `findLowestBitAfter`: the lowest set bit at or after `start`, or -1. */
  function FindLowestBitAfter(tw: nat, mask: nat, start: nat): (r: int)
    requires mask < Pow2(tw) && start < tw
    ensures r == -1 ==> forall k: nat :: start <= k ==> !Bit(mask, k)
    ensures r != -1 ==> r >= start && Bit(mask, r) && forall k: nat :: start <= k && Bit(mask, k) ==> r <= k
  {
    ShlOfOctet(start);
    Pow2Monotone(start, tw);
    var maskBefore := Shl(1, start) - 1;
    var bitsAfter := And(mask, Not(tw, maskBefore));
    assert forall k: nat :: Bit(bitsAfter, k) <==> Bit(mask, k) && start <= k by {
      forall k: nat ensures Bit(bitsAfter, k) <==> Bit(mask, k) && start <= k {
        BitOfAnd(mask, Not(tw, maskBefore), k);
        if k < tw {
          BitOfNot(tw, maskBefore, k);
          BitOfLowMask(start, k);
        } else {
          BitBeyondWidth(tw, mask, k);
        }
      }
    }
    if bitsAfter == 0 then
      assert forall k: nat :: !Bit(bitsAfter, k) by {
        forall k: nat ensures !Bit(0, k) { BitOfZero(k); }
      }
      -1
    else
      CountrZeroIsLowest(bitsAfter);
      CountrZero(bitsAfter)
  }

  lemma BitTest(m: nat, k: nat)
    ensures And(m, Shl(1, k)) != 0 <==> Bit(m, k)
  {
    ShlOfOctet(k);
    var x := And(m, Pow2(k));
    BitOfAnd(m, Pow2(k), k);
    BitOfPow2(k, k);
    if x == 0 {
      BitOfZero(k);
    } else {
      CountrZeroIsLowest(x);
      BitOfAnd(m, Pow2(k), CountrZero(x));
      BitOfPow2(k, CountrZero(x));
    }
  }

  /** A bit of a byte is a non-empty bin, and a bit above is a byte with one. */
  lemma MaskBit(w: nat, top: nat, leaf: seq<nat>, heads: seq<int>, t: nat, l: nat)
    requires MasksOk(w, top, leaf, heads)
    ensures Bit(top, t) ==> t < w && leaf[t] > 0
    ensures t < w && Bit(leaf[t], l) ==> l < 8 && heads[8 * t + l] != INVALID
  {
    if w <= t {
      BitBeyondWidth(w, top, t);
    } else {
      assert MaskOk(top, leaf, heads, t);
      Pow2OfEight();
      if 8 <= l {
        BitBeyondWidth(8, leaf[t], l);
      }
    }
  }

  /** A non-empty bin shows in both levels. */
  lemma HeadBit(w: nat, top: nat, leaf: seq<nat>, heads: seq<int>, b: nat)
    requires MasksOk(w, top, leaf, heads) && b < 8 * w && heads[b] != INVALID
    ensures Bit(leaf[b / 8], b % 8) && Bit(top, b / 8) && leaf[b / 8] > 0
  {
    assert MaskOk(top, leaf, heads, b / 8);
    assert b == 8 * (b / 8) + b % 8;
    BitOfZero(b % 8);
  }

  lemma NoBitNoBin(w: nat, top: nat, leaf: seq<nat>, heads: seq<int>, t: nat, l: nat)
    requires MasksOk(w, top, leaf, heads) && t < w && l < 8
    requires !Bit(leaf[t], l) || !Bit(top, t)
    ensures heads[8 * t + l] == INVALID
  {
    assert MaskOk(top, leaf, heads, t);
    BitOfZero(l);
  }

  /** An empty stretch of a byte is an empty stretch of bins. */
  lemma EmptyStretch(w: nat, top: nat, leaf: seq<nat>, heads: seq<int>, t: nat, l: nat, h: nat)
    requires MasksOk(w, top, leaf, heads) && t < w && h <= 8
    requires !Bit(top, t) || forall k: nat :: l <= k < h ==> !Bit(leaf[t], k)
    ensures forall b :: 8 * t + l <= b < 8 * t + h ==> heads[b] == INVALID
  {
    forall b | 8 * t + l <= b < 8 * t + h ensures heads[b] == INVALID {
      NoBitNoBin(w, top, leaf, heads, t, b - 8 * t);
    }
  }

  /** The search of `allocate`: first inside the byte of the smallest fitting bin, then in the
      lowest non-empty byte above it; -1 when there is none. */
  function FindBin(w: nat, top: nat, leaf: seq<nat>, ghost heads: seq<int>, minBin: nat): int
    requires 8 <= w <= 64 && MasksOk(w, top, leaf, heads) && minBin <= 8 * (w - 2)
  {
    SearchWidths(w, top, leaf, heads, minBin);
    var l := LeafOf(w, top, leaf, heads, minBin);
    if l != -1 then Or(8 * (minBin / 8), l)
    else
      var t := FindLowestBitAfter(TopBits(w), top, minBin / 8 + 1);
      if t == -1 then -1
      else
        MaskBit(w, top, leaf, heads, t, 0);
        Or(8 * t, CountrZero(leaf[t]))
  }

  /** The search inside the byte that holds `minBin`. */
  function LeafOf(w: nat, top: nat, leaf: seq<nat>, ghost heads: seq<int>, minBin: nat): int
    requires 8 <= w <= 64 && MasksOk(w, top, leaf, heads) && minBin <= 8 * (w - 2)
  {
    SearchWidths(w, top, leaf, heads, minBin);
    if And(top, Shl(1, minBin / 8)) != 0 then FindLowestBitAfter(TopBits(w), leaf[minBin / 8], And(minBin, 7)) else -1
  }

  lemma SearchWidths(w: nat, top: nat, leaf: seq<nat>, heads: seq<int>, minBin: nat)
    requires 8 <= w <= 64 && MasksOk(w, top, leaf, heads) && minBin <= 8 * (w - 2)
    ensures minBin / 8 + 1 < w <= TopBits(w) && |heads| == 8 * w
    ensures top < Pow2(TopBits(w)) && leaf[minBin / 8] < Pow2(TopBits(w))
    ensures And(minBin, 7) == minBin % 8
  {
    Pow2Monotone(w, TopBits(w));
    Pow2OfEight();
    Pow2Monotone(8, TopBits(w));
    AndSeven(minBin);
    assert MaskOk(top, leaf, heads, minBin / 8);
  }

  lemma LeafIsLowest(w: nat, top: nat, leaf: seq<nat>, heads: seq<int>, minBin: nat)
    requires 8 <= w <= 64 && MasksOk(w, top, leaf, heads) && minBin <= 8 * (w - 2)
    ensures var l := LeafOf(w, top, leaf, heads, minBin);
      var t := minBin / 8;
      && (l == -1 ==> forall b :: minBin <= b < 8 * t + 8 ==> heads[b] == INVALID)
      && (l != -1 ==> 0 <= l < 8 && minBin <= 8 * t + l && heads[8 * t + l] != INVALID
                      && forall b :: minBin <= b < 8 * t + l ==> heads[b] == INVALID)
  {
    hide FindLowestBitAfter, And, Shl, TopBits;
    var t, l := minBin / 8, LeafOf(w, top, leaf, heads, minBin);
    SearchWidths(w, top, leaf, heads, minBin);
    BitTest(top, t);
    if l != -1 {
      MaskBit(w, top, leaf, heads, t, l);
      EmptyStretch(w, top, leaf, heads, t, minBin % 8, l);
    } else {
      EmptyStretch(w, top, leaf, heads, t, minBin % 8, 8);
    }
  }

  lemma LowestInByte(w: nat, top: nat, leaf: seq<nat>, heads: seq<int>, t: nat)
    requires MasksOk(w, top, leaf, heads) && t < w && leaf[t] > 0
    ensures var r := 8 * t + CountrZero(leaf[t]);
      r < |heads| && heads[r] != INVALID && forall b :: 8 * t <= b < r ==> heads[b] == INVALID
  {
    CountrZeroIsLowest(leaf[t]);
    MaskBit(w, top, leaf, heads, t, CountrZero(leaf[t]));
    EmptyStretch(w, top, leaf, heads, t, 0, CountrZero(leaf[t]));
  }

  lemma EmptyBytes(w: nat, top: nat, leaf: seq<nat>, heads: seq<int>, s: nat, t: nat)
    requires MasksOk(w, top, leaf, heads) && t <= w
    requires forall k: nat :: s <= k < t ==> !Bit(top, k)
    ensures forall b :: 8 * s <= b < 8 * t ==> heads[b] == INVALID
  {
    forall b | 8 * s <= b < 8 * t ensures heads[b] == INVALID {
      NoBitNoBin(w, top, leaf, heads, b / 8, b % 8);
    }
  }

  /** The search above byte `s`. */
  lemma ByteAboveIsLowest(w: nat, top: nat, leaf: seq<nat>, heads: seq<int>, s: nat)
    requires 8 <= w <= 64 && MasksOk(w, top, leaf, heads) && s + 1 < w
    ensures top < Pow2(TopBits(w)) && s + 1 < TopBits(w)
    ensures var t := FindLowestBitAfter(TopBits(w), top, s + 1);
      && (t == -1 ==> forall b :: 8 * s + 8 <= b < |heads| ==> heads[b] == INVALID)
      && (t != -1 ==> s < t < w && leaf[t] > 0
                      && var r := Or(8 * t, CountrZero(leaf[t]));
                      && 8 * s + 8 <= r < |heads| && heads[r] != INVALID
                      && forall b :: 8 * s + 8 <= b < r ==> heads[b] == INVALID)
  {
    Pow2Monotone(w, TopBits(w));
    var t := FindLowestBitAfter(TopBits(w), top, s + 1);
    if t != -1 {
      MaskBit(w, top, leaf, heads, t, 0);
      CountrZeroIsLowest(leaf[t]);
      MaskBit(w, top, leaf, heads, t, CountrZero(leaf[t]));
      OrOctet(t, CountrZero(leaf[t]));
      LowestInByte(w, top, leaf, heads, t);
    }
    EmptyBytes(w, top, leaf, heads, s + 1, if t == -1 then w else t);
  }

  /** The two-level search finds what a scan over all bins from `minBin` upwards would find. */
  lemma FindBinIsLowest(w: nat, top: nat, leaf: seq<nat>, heads: seq<int>, minBin: nat)
    requires 8 <= w <= 64 && MasksOk(w, top, leaf, heads) && minBin <= 8 * (w - 2)
    ensures var r := FindBin(w, top, leaf, heads, minBin);
      && (r == -1 ==> forall b :: minBin <= b < |heads| ==> heads[b] == INVALID)
      && (r != -1 ==> minBin <= r < |heads| && heads[r] != INVALID && forall b :: minBin <= b < r ==>
        heads[b] == INVALID)
  {
    hide LeafOf, FindLowestBitAfter, MasksOk, Or, CountrZero, TopBits;
    SearchWidths(w, top, leaf, heads, minBin);
    LeafIsLowest(w, top, leaf, heads, minBin);
    var l := LeafOf(w, top, leaf, heads, minBin);
    if l != -1 {
      OrOctet(minBin / 8, l);
    } else {
      ByteAboveIsLowest(w, top, leaf, heads, minBin / 8);
    }
  }

  /** `max_alloc` looks at the highest bit of the highest non-empty byte: the highest non-empty bin. */
  lemma HighestBinIsHighest(w: nat, top: nat, leaf: seq<nat>, heads: seq<int>)
    requires MasksOk(w, top, leaf, heads) && top > 0
    ensures var t := HighestBit(top);
      && t < w && leaf[t] > 0
      && var b := Or(8 * t, HighestBit(leaf[t]));
      && b < |heads| && heads[b] != INVALID && forall c :: b < c < |heads| ==> heads[c] == INVALID
  {
    HighestBitIsHighest(top);
    var t := HighestBit(top);
    MaskBit(w, top, leaf, heads, t, 0);
    HighestBitIsHighest(leaf[t]);
    var l := HighestBit(leaf[t]);
    MaskBit(w, top, leaf, heads, t, l);
    OrOctet(t, l);
    forall c | 8 * t + l < c < |heads| ensures heads[c] == INVALID {
      if heads[c] != INVALID {
        HeadBit(w, top, leaf, heads, c);
      }
    }
  }
}
