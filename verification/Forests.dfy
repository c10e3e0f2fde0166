/** Parent arrays whose links go upwards: roots, chain lengths, path halving and linking. */
module Forests {

  /** Every link leads to an equal or larger index. */
  predicate Upward(p: seq<nat>) {
    forall x :: 0 <= x < |p| ==> x <= p[x] < |p|
  }

  function Root(p: seq<nat>, x: nat): (r: nat)
    requires Upward(p) && x < |p|
    ensures x <= r < |p| && p[r] == r
    decreases |p| - x
  {
    if p[x] == x then x else Root(p, p[x])
  }

  /** `chain_length`: the links between `x` and its root. */
  function Depth(p: seq<nat>, x: nat): (d: nat)
    requires Upward(p) && x < |p|
    ensures d == 0 <==> p[x] == x
    decreases |p| - x
  {
    if p[x] == x then 0 else 1 + Depth(p, p[x])
  }

  /** The node `k` links up from `x`. */
  function Climb(p: seq<nat>, x: nat, k: nat): (y: nat)
    requires Upward(p) && x < |p|
    ensures x <= y < |p|
    decreases k
  {
    if k == 0 then x else Climb(p, p[x], k - 1)
  }

  /** `Depth` counts links: the climb first stands on a root after exactly that many, and that root is `Root`. */
  lemma {:induction false} DepthIsSteps(p: seq<nat>, x: nat, k: nat)
    requires Upward(p) && x < |p|
    ensures k < Depth(p, x) ==> p[Climb(p, x, k)] != Climb(p, x, k)
    ensures k >= Depth(p, x) ==> Climb(p, x, k) == Root(p, x)
    decreases k + |p| - x
  {
    if k > 0 {
      DepthIsSteps(p, p[x], k - 1);
    }
  }

  /** One step of path halving at `x`. */
  function Halved(p: seq<nat>, x: nat): seq<nat>
    requires Upward(p) && x < |p|
  {
    p[x := p[p[x]]]
  }

  /** The whole pass: every other node on the way up skips its parent. */
  function Compressed(p: seq<nat>, x: nat): (p': seq<nat>)
    requires Upward(p) && x < |p|
    ensures |p'| == |p| && Upward(p')
    decreases |p| - x
  {
    var p1, r := Halved(p, x), p[p[x]];
    if p1[r] == r then p1 else Compressed(p1, r)
  }

  lemma TwoUp(p: seq<nat>, x: nat)
    requires Upward(p) && x < |p|
    ensures p[p[x]] < |p| && Upward(Halved(p, x)) && Root(Halved(p, x), p[p[x]]) == Root(p, x)
  {
    HalvingKeepsRoots(p, x, p[p[x]]);
  }

  /** Skipping a parent changes no root. */
  lemma {:induction false} HalvingKeepsRoots(p: seq<nat>, x: nat, y: nat)
    requires Upward(p) && x < |p| && y < |p|
    ensures Upward(Halved(p, x)) && Root(Halved(p, x), y) == Root(p, y)
    decreases |p| - y
  {
    if p[y] != y {
      HalvingKeepsRoots(p, x, p[y]);
      if y == x {
        HalvingKeepsRoots(p, x, p[p[y]]);
      }
    }
  }

  lemma {:induction false} HalvingShortens(p: seq<nat>, x: nat, y: nat)
    requires Upward(p) && x < |p| && y < |p|
    ensures Upward(Halved(p, x)) && Depth(Halved(p, x), y) <= Depth(p, y)
    ensures y > x ==> Depth(Halved(p, x), y) == Depth(p, y)
    decreases |p| - y
  {
    if p[y] != y {
      HalvingShortens(p, x, p[y]);
      if y == x {
        HalvingShortens(p, x, p[p[y]]);
      }
    }
  }

  /** A pass started above `x` leaves the links at and below `x` alone. */
  lemma {:induction false} CompressionIsAbove(p: seq<nat>, x: nat, y: nat)
    requires Upward(p) && x < |p| && y < x
    ensures Compressed(p, x)[y] == p[y]
    decreases |p| - x
  {
    var p1, r := Halved(p, x), p[p[x]];
    if p1[r] != r {
      CompressionIsAbove(p1, r, y);
    }
  }

  lemma {:induction false} CompressionKeepsRoots(p: seq<nat>, x: nat, y: nat)
    requires Upward(p) && x < |p| && y < |p|
    ensures Root(Compressed(p, x), y) == Root(p, y)
    ensures Depth(Compressed(p, x), y) <= Depth(p, y)
    decreases |p| - x
  {
    HalvingKeepsRoots(p, x, y);
    HalvingShortens(p, x, y);
    var p1, r := Halved(p, x), p[p[x]];
    if p1[r] != r {
      CompressionKeepsRoots(p1, r, y);
    }
  }

  /** A pass turns a chain of `d` links into one of exactly half as many, rounded up. */
  lemma {:induction false} CompressionHalves(p: seq<nat>, x: nat)
    requires Upward(p) && x < |p|
    ensures Depth(Compressed(p, x), x) == (Depth(p, x) + 1) / 2
    decreases |p| - x
  {
    var p1, r := Halved(p, x), p[p[x]];
    if p[x] == x {
      assert p1 == p;
    } else {
      HalvingShortens(p, x, r);
      assert Depth(p, x) == 1 + Depth(p, p[x]);
      assert Depth(p, p[x]) == if p[p[x]] == p[x] then 0 else 1 + Depth(p, r);
      if p1[r] != r {
        CompressionHalves(p1, r);
        CompressionIsAbove(p1, r, x);
        assert Compressed(p, x)[x] == r;
      }
    }
  }

  lemma {:induction false} ClimbAbove(p: seq<nat>, x: nat, y: nat, k: nat)
    requires Upward(p) && x < y < |p|
    ensures Upward(Halved(p, x)) && Climb(Halved(p, x), y, k) == Climb(p, y, k)
    decreases k
  {
    if k > 0 {
      ClimbAbove(p, x, p[y], k - 1);
    }
  }

  /** Where a pass goes on, the two nodes it leaves behind are strictly below. */
  lemma PassGoesOn(p: seq<nat>, x: nat)
    requires Upward(p) && x < |p| && Halved(p, x)[p[p[x]]] != p[p[x]]
    ensures x < p[x] < p[p[x]] && Compressed(p, x) == Compressed(Halved(p, x), p[p[x]])
  {
  }

  /** The nodes at even steps skip their parents ... */
  lemma {:induction false} EvenStepsSkip(p: seq<nat>, x: nat, k: nat)
    requires Upward(p) && x < |p|
    ensures Compressed(p, x)[Climb(p, x, 2 * k)] == Climb(p, x, 2 * k + 2)
    decreases k
  {
    var p1, r := Halved(p, x), p[p[x]];
    assert Climb(p, x, 2 * k + 2) == Climb(p, p[x], 2 * k + 1) == Climb(p, r, 2 * k);
    if p1[r] == r {
      RootStays(p, r, 2 * k);
      if k > 0 {
        assert Climb(p, x, 2 * k) == Climb(p, p[x], 2 * k - 1) == Climb(p, r, 2 * k - 2);
        RootStays(p, r, 2 * k - 2);
      }
    } else {
      PassGoesOn(p, x);
      if k == 0 {
        CompressionIsAbove(p1, r, x);
      } else {
        assert Climb(p, x, 2 * k) == Climb(p, p[x], 2 * k - 1) == Climb(p, r, 2 * k - 2);
        ClimbAbove(p, x, r, 2 * k - 2);
        ClimbAbove(p, x, r, 2 * k);
        EvenStepsSkip(p1, r, k - 1);
      }
    }
  }

  /** ... those at odd steps keep them ... */
  lemma {:induction false} OddStepsStay(p: seq<nat>, x: nat, k: nat)
    requires Upward(p) && x < |p|
    ensures Compressed(p, x)[Climb(p, x, 2 * k + 1)] == Climb(p, x, 2 * k + 2)
    decreases k
  {
    var p1, r := Halved(p, x), p[p[x]];
    assert Climb(p, x, 2 * k + 2) == Climb(p, p[x], 2 * k + 1) == Climb(p, r, 2 * k);
    assert Climb(p, x, 2 * k + 1) == Climb(p, p[x], 2 * k);
    if k > 0 {
      assert Climb(p, p[x], 2 * k) == Climb(p, r, 2 * k - 1);
    }
    if p1[r] == r {
      RootStays(p, r, 2 * k);
      if k > 0 {
        RootStays(p, r, 2 * k - 1);
      }
    } else {
      PassGoesOn(p, x);
      if k == 0 {
        CompressionIsAbove(p1, r, p[x]);
      } else {
        ClimbAbove(p, x, r, 2 * k - 1);
        ClimbAbove(p, x, r, 2 * k);
        OddStepsStay(p1, r, k - 1);
      }
    }
  }

  /** ... and so does every node that the climb does not pass. */
  lemma {:induction false} OthersStay(p: seq<nat>, x: nat, y: nat)
    requires Upward(p) && x < |p| && y < |p| && forall k: nat :: Climb(p, x, k) != y
    ensures Compressed(p, x)[y] == p[y]
    decreases |p| - x
  {
    var p1, r := Halved(p, x), p[p[x]];
    assert Climb(p, x, 0) == x;
    if p1[r] != r {
      PassGoesOn(p, x);
      forall k: nat ensures Climb(p1, r, k) != y {
        ClimbAbove(p, x, r, k);
        assert Climb(p, x, k + 2) == Climb(p, p[x], k + 1) == Climb(p, r, k);
      }
      OthersStay(p1, r, y);
    }
  }

  lemma {:induction false} RootStays(p: seq<nat>, r: nat, k: nat)
    requires Upward(p) && r < |p| && p[r] == r
    ensures Climb(p, r, k) == r
  {
    if k > 0 {
      RootStays(p, r, k - 1);
    }
  }

  /** The passes from the indices below `k`, one after the other. */
  function CompressedUpTo(p: seq<nat>, k: nat): (p': seq<nat>)
    requires Upward(p) && k <= |p|
    ensures |p'| == |p| && Upward(p')
  {
    if k == 0 then p else Compressed(CompressedUpTo(p, k - 1), k - 1)
  }

  /** Looking up every index below `k` at least halves each of their chains, rounded up, and changes no root. */
  lemma {:induction false} AllHalve(p: seq<nat>, k: nat, y: nat)
    requires Upward(p) && k <= |p| && y < |p|
    ensures Root(CompressedUpTo(p, k), y) == Root(p, y) && Depth(CompressedUpTo(p, k), y) <= Depth(p, y)
    ensures y < k ==> Depth(CompressedUpTo(p, k), y) <= (Depth(p, y) + 1) / 2
    decreases k
  {
    hide Compressed, CompressedUpTo;
    NoneCompressed(p);
    if k > 0 {
      OneMoreCompressed(p, k - 1);
      AllHalve(p, k - 1, y);
      CompressionKeepsRoots(CompressedUpTo(p, k - 1), k - 1, y);
      if y == k - 1 {
        CompressionHalves(CompressedUpTo(p, k - 1), y);
      }
    }
  }

  lemma NoneCompressed(p: seq<nat>)
    requires Upward(p)
    ensures CompressedUpTo(p, 0) == p
  {
  }

  lemma OneMoreCompressed(p: seq<nat>, k: nat)
    requires Upward(p) && k < |p|
    ensures CompressedUpTo(p, k + 1) == Compressed(CompressedUpTo(p, k), k)
  {
  }

  // ----- linking -----

  /** Root `child` is hung below root `parent`. */
  lemma {:induction false} LinkedRoots(p: seq<nat>, child: nat, parent: nat, y: nat)
    requires Upward(p) && child < parent < |p| && p[child] == child && p[parent] == parent && y < |p|
    ensures Upward(p[child := parent])
    ensures Root(p[child := parent], y) == if Root(p, y) == child then parent else Root(p, y)
    decreases |p| - y
  {
    if p[y] != y {
      LinkedRoots(p, child, parent, p[y]);
    }
  }

  // ----- classes -----

  /** The members of `r`'s class below index `k`. */
  ghost function Members(p: seq<nat>, r: nat, k: nat): set<nat>
    requires Upward(p) && k <= |p|
  {
    set x: nat | x < k && Root(p, x) == r
  }

  ghost function Class(p: seq<nat>, r: nat): set<nat>
    requires Upward(p)
  {
    Members(p, r, |p|)
  }

  /** The class of the linked root is the union of the two classes; other classes stay. */
  lemma LinkedClasses(p: seq<nat>, child: nat, parent: nat, r: nat)
    requires Upward(p) && child < parent < |p| && p[child] == child && p[parent] == parent
    ensures Upward(p[child := parent])
    ensures r == parent ==> Class(p[child := parent], r) == Class(p, child) + Class(p, parent)
    ensures r == child ==> Class(p[child := parent], r) == {}
    ensures r != child && r != parent ==> Class(p[child := parent], r) == Class(p, r)
    ensures Class(p, child) !! Class(p, parent)
  {
    forall y: nat | y < |p|
      ensures Upward(p[child := parent])
      ensures Root(p[child := parent], y) == if Root(p, y) == child then parent else Root(p, y)
    {
      LinkedRoots(p, child, parent, y);
    }
  }

  // ----- the closure of the merged pairs -----

  datatype Pair = Pair(a: nat, b: nat)

  predicate Joined(pairs: seq<Pair>, x: nat, y: nat) {
    exists i :: 0 <= i < |pairs| && (pairs[i] == Pair(x, y) || pairs[i] == Pair(y, x))
  }

  /** A walk from `x` to `y` along merged pairs, in either direction. */
  ghost predicate IsWalk(pairs: seq<Pair>, walk: seq<nat>, x: nat, y: nat) {
    && walk != [] && walk[0] == x && walk[|walk| - 1] == y
    && forall i :: 0 <= i < |walk| - 1 ==> Joined(pairs, walk[i], walk[i + 1])
  }

  /** The equivalence closure of the pairs. */
  ghost predicate Equivalent(pairs: seq<Pair>, x: nat, y: nat) {
    exists walk :: IsWalk(pairs, walk, x, y)
  }

  lemma EquivalentReflexive(pairs: seq<Pair>, x: nat)
    ensures Equivalent(pairs, x, x)
  {
    assert IsWalk(pairs, [x], x, x);
  }

  lemma EquivalentTransitive(pairs: seq<Pair>, x: nat, y: nat, z: nat)
    requires Equivalent(pairs, x, y) && Equivalent(pairs, y, z)
    ensures Equivalent(pairs, x, z)
  {
    var v :| IsWalk(pairs, v, x, y);
    var w :| IsWalk(pairs, w, y, z);
    var u := v + w[1..];
    forall i | 0 <= i < |u| - 1 ensures Joined(pairs, u[i], u[i + 1]) {
      if i < |v| - 1 {
        assert Joined(pairs, v[i], v[i + 1]);
      } else {
        assert u[i] == w[i - |v| + 1] && u[i + 1] == w[i - |v| + 2];
      }
    }
    assert IsWalk(pairs, u, x, z);
  }

  lemma EquivalentSymmetric(pairs: seq<Pair>, x: nat, y: nat)
    requires Equivalent(pairs, x, y)
    ensures Equivalent(pairs, y, x)
  {
    var v :| IsWalk(pairs, v, x, y);
    var w := seq(|v|, i requires 0 <= i < |v| => v[|v| - 1 - i]);
    forall i | 0 <= i < |w| - 1 ensures Joined(pairs, w[i], w[i + 1]) {
      assert Joined(pairs, v[|v| - 2 - i], v[|v| - 2 - i + 1]);
    }
    assert IsWalk(pairs, w, y, x);
  }

  lemma EquivalentMore(pairs: seq<Pair>, pair: Pair, x: nat, y: nat)
    requires Equivalent(pairs, x, y)
    ensures Equivalent(pairs + [pair], x, y)
  {
    var v :| IsWalk(pairs, v, x, y);
    forall i | 0 <= i < |v| - 1 ensures Joined(pairs + [pair], v[i], v[i + 1]) {
      assert Joined(pairs, v[i], v[i + 1]);
      var k :| 0 <= k < |pairs| && (pairs[k] == Pair(v[i], v[i + 1]) || pairs[k] == Pair(v[i + 1], v[i]));
      assert (pairs + [pair])[k] == pairs[k];
    }
    assert IsWalk(pairs + [pair], v, x, y);
  }

  /** Every element can walk to its root, and no pair joins two classes. */
  ghost predicate Explains(p: seq<nat>, pairs: seq<Pair>)
    requires Upward(p)
  {
    && (forall x: nat :: x < |p| ==> Equivalent(pairs, x, Root(p, x)))
    && forall i :: 0 <= i < |pairs| ==>
      pairs[i].a < |p| && pairs[i].b < |p| && Root(p, pairs[i].a) == Root(p, pairs[i].b)
  }

  lemma {:induction false} WalkStaysInClass(p: seq<nat>, pairs: seq<Pair>, walk: seq<nat>, x: nat, y: nat)
    requires Upward(p) && Explains(p, pairs) && IsWalk(pairs, walk, x, y) && x < |p|
    ensures y < |p| && Root(p, x) == Root(p, y)
    decreases |walk|
  {
    if |walk| > 1 {
      assert Joined(pairs, walk[0], walk[1]);
      forall i | 0 <= i < |walk[1..]| - 1 ensures Joined(pairs, walk[1..][i], walk[1..][i + 1]) {
        assert Joined(pairs, walk[i + 1], walk[i + 2]);
      }
      WalkStaysInClass(p, pairs, walk[1..], walk[1], y);
    }
  }

  /** The classes are exactly the equivalence closure of the merged pairs. */
  lemma ClassesAreClosure(p: seq<nat>, pairs: seq<Pair>, x: nat, y: nat)
    requires Upward(p) && Explains(p, pairs) && x < |p| && y < |p|
    ensures Root(p, x) == Root(p, y) <==> Equivalent(pairs, x, y)
  {
    if Root(p, x) == Root(p, y) {
      EquivalentSymmetric(pairs, y, Root(p, y));
      EquivalentTransitive(pairs, x, Root(p, x), y);
    }
    if Equivalent(pairs, x, y) {
      var walk :| IsWalk(pairs, walk, x, y);
      WalkStaysInClass(p, pairs, walk, x, y);
    }
  }

  /** A root is the largest member of its class. */
  lemma RootIsMaximum(p: seq<nat>, x: nat)
    requires Upward(p) && x < |p|
    ensures Root(p, x) in Class(p, Root(p, x)) && forall y :: y in Class(p, Root(p, x)) ==> y <= Root(p, x)
  {
  }

  ghost predicate SamePartition(p: seq<nat>, q: seq<nat>)
    requires Upward(p) && Upward(q)
  {
    |p| == |q| && forall x: nat, y: nat :: x < |p| && y < |p| ==>
      (Root(p, x) == Root(p, y) <==> Root(q, x) == Root(q, y))
  }

  ghost predicate SameRoots(p: seq<nat>, q: seq<nat>)
    requires Upward(p) && Upward(q)
  {
    |p| == |q| && forall x: nat :: x < |p| ==> Root(p, x) == Root(q, x)
  }

  /** Because roots are class maxima, equal roots everywhere is the same as equal partitions. */
  lemma RootsDecidePartition(p: seq<nat>, q: seq<nat>)
    requires Upward(p) && Upward(q)
    ensures SamePartition(p, q) <==> SameRoots(p, q)
  {
    if SamePartition(p, q) {
      forall x: nat | x < |p| ensures Root(p, x) == Root(q, x) {
        var r, s := Root(p, x), Root(q, x);
        assert Root(p, r) == r && Root(q, s) == s;
        assert Root(q, r) == Root(q, x) && Root(p, s) == Root(p, x);
      }
    }
    if SameRoots(p, q) {
      forall x: nat, y: nat | x < |p| && y < |p| ensures Root(p, x) == Root(p, y) <==> Root(q, x) == Root(q, y) {
        assert Root(p, x) == Root(q, x) && Root(p, y) == Root(q, y);
      }
    }
  }

  // ----- whole forests -----

  /** Sizes are 32-bit counters. */
  const SIZE_MODULUS: nat := 0x1_0000_0000

  /** Every root's counter holds the size of its class, in 32 bits. */
  ghost predicate SizesOk(p: seq<nat>, sizes: seq<nat>)
    requires Upward(p)
  {
    |sizes| == |p| && forall r :: 0 <= r < |p| && p[r] == r ==> sizes[r] == |Class(p, r)| % SIZE_MODULUS
  }

  lemma RootIffSelf(p: seq<nat>, x: nat)
    requires Upward(p) && x < |p|
    ensures p[x] == x <==> Root(p, x) == x
  {
  }

  lemma RootsAreRoots(p: seq<nat>, x: nat)
    requires Upward(p) && x < |p|
    ensures Root(p, x) < |p| && p[Root(p, x)] == Root(p, x)
  {
  }

  function Smaller(a: nat, b: nat): nat {
    if a < b then a else b
  }

  function Larger(a: nat, b: nat): nat {
    if a < b then b else a
  }

  /** The root, after a merge of the classes of `a` and `b`, of what had root `r`. */
  function JoinedRoot(a: nat, b: nat, r: nat): nat {
    if r == a || r == b then Larger(a, b) else r
  }

  lemma Singletons(p: seq<nat>, sizes: seq<nat>)
    requires |sizes| == |p| && forall x :: 0 <= x < |p| ==> p[x] == x && sizes[x] == 1
    ensures Upward(p) && Explains(p, []) && SizesOk(p, sizes)
    ensures forall x :: 0 <= x < |p| ==> Root(p, x) == x
  {
    forall x: nat | x < |p| ensures Equivalent([], x, Root(p, x)) && Class(p, x) == {x} {
      EquivalentReflexive([], x);
    }
  }

  /** What only moves links within their classes keeps everything callers can see. */
  lemma SameRootsKeepForest(p: seq<nat>, p': seq<nat>, sizes: seq<nat>, pairs: seq<Pair>)
    requires Upward(p) && Upward(p') && SameRoots(p, p') && Explains(p, pairs) && SizesOk(p, sizes)
    ensures Explains(p', pairs) && SizesOk(p', sizes)
  {
    forall x: nat | x < |p| ensures Root(p', x) == Root(p, x) {
    }
    forall r | 0 <= r < |p'| && p'[r] == r ensures sizes[r] == |Class(p', r)| % SIZE_MODULUS {
      RootIffSelf(p, r);
      RootIffSelf(p', r);
      assert Class(p', r) == Class(p, r);
    }
  }

  lemma CompressionKeepsForest(p: seq<nat>, x: nat, sizes: seq<nat>, pairs: seq<Pair>)
    requires Upward(p) && x < |p| && Explains(p, pairs) && SizesOk(p, sizes)
    ensures SameRoots(p, Compressed(p, x))
    ensures Explains(Compressed(p, x), pairs) && SizesOk(Compressed(p, x), sizes)
  {
    forall y: nat | y < |p| ensures Root(Compressed(p, x), y) == Root(p, y) {
      CompressionKeepsRoots(p, x, y);
    }
    SameRootsKeepForest(p, Compressed(p, x), sizes, pairs);
  }

  lemma MoreExplained(p: seq<nat>, pairs: seq<Pair>, pair: Pair)
    requires Upward(p) && Explains(p, pairs) && pair.a < |p| && pair.b < |p| && Root(p, pair.a) == Root(p, pair.b)
    ensures Explains(p, pairs + [pair])
  {
    forall x: nat | x < |p| ensures Equivalent(pairs + [pair], x, Root(p, x)) {
      EquivalentMore(pairs, pair, x, Root(p, x));
    }
  }

  /** Hanging one root below the other adds exactly the merged pair to the closure. */
  lemma LinkKeepsExplained(p: seq<nat>, pairs: seq<Pair>, pair: Pair, child: nat, parent: nat)
    requires Upward(p) && Explains(p, pairs) && pair.a < |p| && pair.b < |p|
    requires child < parent < |p|
    requires {Root(p, pair.a), Root(p, pair.b)} == {child, parent}
    ensures Upward(p[child := parent]) && Explains(p[child := parent], pairs + [pair])
  {
    var p', pairs' := p[child := parent], pairs + [pair];
    LinkIsStep(p, pairs, pair, child, parent);
    forall x: nat | x < |p| ensures Upward(p') && Equivalent(pairs', x, Root(p', x)) {
      LinkedRoots(p, child, parent, x);
      EquivalentMore(pairs, pair, x, Root(p, x));
      if Root(p, x) == child {
        EquivalentTransitive(pairs', x, child, parent);
      }
    }
    forall i | 0 <= i < |pairs'|
      ensures pairs'[i].a < |p| && pairs'[i].b < |p| && Root(p', pairs'[i].a) == Root(p', pairs'[i].b)
    {
      LinkedRoots(p, child, parent, pairs'[i].a);
      LinkedRoots(p, child, parent, pairs'[i].b);
    }
  }

  /** The new link can be walked: down from one root to its merged element, across the pair, and up to the other. */
  lemma LinkIsStep(p: seq<nat>, pairs: seq<Pair>, pair: Pair, child: nat, parent: nat)
    requires Upward(p) && Explains(p, pairs) && pair.a < |p| && pair.b < |p|
    requires {Root(p, pair.a), Root(p, pair.b)} == {child, parent}
    ensures Equivalent(pairs + [pair], child, parent)
  {
    var pairs' := pairs + [pair];
    var ra, rb := Root(p, pair.a), Root(p, pair.b);
    EquivalentMore(pairs, pair, pair.a, ra);
    EquivalentMore(pairs, pair, pair.b, rb);
    EquivalentSymmetric(pairs', pair.a, ra);
    assert pairs'[|pairs|] == Pair(pair.a, pair.b);
    assert IsWalk(pairs', [pair.a, pair.b], pair.a, pair.b);
    EquivalentTransitive(pairs', ra, pair.a, pair.b);
    EquivalentTransitive(pairs', ra, pair.b, rb);
    EquivalentSymmetric(pairs', ra, rb);
    if ra == rb {
      EquivalentReflexive(pairs', ra);
    } else {
      assert child in {ra, rb} && parent in {ra, rb} && ra in {child, parent} && rb in {child, parent};
    }
  }

  lemma LinkKeepsSizes(p: seq<nat>, sizes: seq<nat>, child: nat, parent: nat)
    requires Upward(p) && SizesOk(p, sizes)
    requires child < parent < |p| && p[child] == child && p[parent] == parent
    ensures Upward(p[child := parent])
    ensures SizesOk(p[child := parent], sizes[parent := (sizes[parent] + sizes[child]) % SIZE_MODULUS])
  {
    var p' := p[child := parent];
    var sizes' := sizes[parent := (sizes[parent] + sizes[child]) % SIZE_MODULUS];
    forall r | 0 <= r < |p'| && p'[r] == r ensures sizes'[r] == |Class(p', r)| % SIZE_MODULUS {
      LinkedClasses(p, child, parent, r);
      hide Class, Root;
      if r == parent {
        assert |Class(p', r)| == |Class(p, child)| + |Class(p, parent)|;
        AddModulo(|Class(p, parent)|, |Class(p, child)|);
      }
    }
  }

  lemma AddModulo(a: nat, b: nat)
    ensures (a % SIZE_MODULUS + b % SIZE_MODULUS) % SIZE_MODULUS == (a + b) % SIZE_MODULUS
  {
  }

  // ----- listing the classes -----

  predicate Increasing(s: seq<nat>) {
    forall i, j :: 0 <= i < j < |s| ==> s[i] < s[j]
  }

  /** A group holds, in order, exactly the indices below `k` that share the root of its first. */
  ghost predicate GroupAt(p: seq<nat>, group: seq<nat>, k: nat)
    requires Upward(p) && k <= |p|
  {
    && group != [] && group[0] < k && Increasing(group)
    && forall y: nat :: y in group <==> y < k && Root(p, y) == Root(p, group[0])
  }

  /** Group `g` is the one that the lookup table names for its root. */
  predicate KeyOf(p: seq<nat>, group: seq<nat>, groups: map<nat, nat>, g: nat)
    requires Upward(p)
  {
    group != [] && group[0] < |p| && Root(p, group[0]) in groups && groups[Root(p, group[0])] == g
  }

  /** The lookup table sends root `r` to a group of that root. */
  predicate Named(p: seq<nat>, result: seq<seq<nat>>, groups: map<nat, nat>, r: nat)
    requires Upward(p)
  {
    r in groups ==> groups[r] < |result| && result[groups[r]] != [] && result[groups[r]][0] < |p|
                    && Root(p, result[groups[r]][0]) == r
  }

  predicate Seen(p: seq<nat>, groups: map<nat, nat>, y: nat)
    requires Upward(p) && y < |p|
  {
    Root(p, y) in groups
  }

  /** The groups come in the order of their first members. */
  predicate FirstsIncrease(result: seq<seq<nat>>) {
    && (forall g :: 0 <= g < |result| ==> result[g] != [])
    && forall g, h :: 0 <= g < h < |result| ==> result[g][0] < result[h][0]
  }

  /** The groups found among the indices below `k`, with the root of each in the lookup table. */
  ghost predicate GroupsOk(p: seq<nat>, result: seq<seq<nat>>, groups: map<nat, nat>, k: nat)
    requires Upward(p) && k <= |p|
  {
    && (forall g :: 0 <= g < |result| ==> GroupAt(p, result[g], k))
    && (forall g :: 0 <= g < |result| ==> KeyOf(p, result[g], groups, g))
    && (forall r :: Named(p, result, groups, r))
    && (forall y :: 0 <= y < k ==> Seen(p, groups, y))
    && FirstsIncrease(result)
  }

  /** One more index joins the group of its root. */
  lemma GroupGrows(p: seq<nat>, group: seq<nat>, k: nat)
    requires Upward(p) && k < |p| && GroupAt(p, group, k)
    ensures group != [] && group[0] < k && (group + [k])[0] == group[0]
    ensures Root(p, k) == Root(p, group[0]) ==> GroupAt(p, group + [k], k + 1)
    ensures Root(p, k) != Root(p, group[0]) ==> GroupAt(p, group, k + 1)
  {
    assert forall i :: 0 <= i < |group| ==> group[i] in group;
  }

  lemma {:induction false} GroupsStep(p: seq<nat>, result: seq<seq<nat>>, groups: map<nat, nat>, k: nat)
    requires Upward(p) && k < |p| && GroupsOk(p, result, groups, k)
    ensures var r := Root(p, k);
      && (r in groups ==>
        groups[r] < |result| && GroupsOk(p, result[groups[r] := result[groups[r]] + [k]], groups, k + 1))
      && (r !in groups ==> GroupsOk(p, result + [[k]], groups[r := |result|], k + 1))
  {
    var r := Root(p, k);
    assert Named(p, result, groups, r);
    if r in groups {
      GroupsJoin(p, result, groups, k);
    } else {
      GroupsNew(p, result, groups, k);
    }
  }

  lemma {:induction false} GroupJoins(p: seq<nat>, result: seq<seq<nat>>, groups: map<nat, nat>, k: nat, g: nat)
    requires Upward(p) && k < |p| && GroupsOk(p, result, groups, k) && Root(p, k) in groups && g < |result|
    ensures var group := if g == groups[Root(p, k)] then result[g] + [k] else result[g];
      result[g] != [] && GroupAt(p, group, k + 1) && group[0] == result[g][0] && KeyOf(p, group, groups, g)
  {
    hide Root, Increasing, GroupAt, FirstsIncrease, Seen;
    GroupGrows(p, result[g], k);
    assert KeyOf(p, result[g], groups, g);
    assert Named(p, result, groups, Root(p, k));
  }

  lemma {:induction false} GroupsJoin(p: seq<nat>, result: seq<seq<nat>>, groups: map<nat, nat>, k: nat)
    requires Upward(p) && k < |p| && GroupsOk(p, result, groups, k) && Root(p, k) in groups
    ensures groups[Root(p, k)] < |result|
    ensures GroupsOk(p, result[groups[Root(p, k)] := result[groups[Root(p, k)]] + [k]], groups, k + 1)
  {
    hide Root, GroupAt, KeyOf;
    assert Named(p, result, groups, Root(p, k));
    var j := groups[Root(p, k)];
    var result' := result[j := result[j] + [k]];
    forall g | 0 <= g < |result'| ensures GroupAt(p, result'[g], k + 1) && KeyOf(p, result'[g], groups, g) {
      GroupJoins(p, result, groups, k, g);
    }
    forall r ensures Named(p, result', groups, r) {
      assert Named(p, result, groups, r);
    }
    forall y | 0 <= y < k + 1 ensures Seen(p, groups, y) {
      assert y < k ==> Seen(p, groups, y);
    }
  }

  lemma NewGroup(p: seq<nat>, groups: map<nat, nat>, k: nat)
    requires Upward(p) && k < |p| && Root(p, k) !in groups && forall y :: 0 <= y < k ==> Seen(p, groups, y)
    ensures GroupAt(p, [k], k + 1)
  {
    forall y: nat | y < k ensures Root(p, y) != Root(p, k) {
      assert Seen(p, groups, y);
    }
  }

  lemma OldGroup(p: seq<nat>, result: seq<seq<nat>>, groups: map<nat, nat>, k: nat, g: nat)
    requires Upward(p) && k < |p| && GroupsOk(p, result, groups, k) && Root(p, k) !in groups && g < |result|
    ensures GroupAt(p, result[g], k + 1) && result[g] != [] && result[g][0] < k
    ensures KeyOf(p, result[g], groups[Root(p, k) := |result|], g)
  {
    hide Root, Increasing, GroupAt, FirstsIncrease, Seen;
    GroupGrows(p, result[g], k);
    assert KeyOf(p, result[g], groups, g);
  }

  lemma FirstKey(p: seq<nat>, groups: map<nat, nat>, k: nat, g: nat)
    requires Upward(p) && k < |p|
    ensures KeyOf(p, [k], groups[Root(p, k) := g], g)
  {
  }

  lemma {:induction false} GroupsNew(p: seq<nat>, result: seq<seq<nat>>, groups: map<nat, nat>, k: nat)
    requires Upward(p) && k < |p| && GroupsOk(p, result, groups, k) && Root(p, k) !in groups
    ensures GroupsOk(p, result + [[k]], groups[Root(p, k) := |result|], k + 1)
  {
    hide Root, GroupAt, KeyOf;
    var result', groups' := result + [[k]], groups[Root(p, k) := |result|];
    NewGroup(p, groups, k);
    FirstKey(p, groups, k, |result|);
    forall g | 0 <= g < |result|
      ensures GroupAt(p, result'[g], k + 1) && KeyOf(p, result'[g], groups', g) && result'[g][0] < k
    {
      OldGroup(p, result, groups, k, g);
    }
    forall r ensures Named(p, result', groups', r) {
      assert Named(p, result, groups, r);
    }
    forall y | 0 <= y < k + 1 ensures Seen(p, groups', y) {
      assert y < k ==> Seen(p, groups, y);
    }
  }

  lemma NoGroupsYet(p: seq<nat>)
    requires Upward(p)
    ensures GroupsOk(p, [], map[], 0)
  {
  }

  predicate InSome(result: seq<seq<nat>>, y: nat) {
    exists g :: 0 <= g < |result| && y in result[g]
  }

  /** The groups are the classes, each listed once, in the order of their smallest members. */
  ghost predicate ListsClasses(p: seq<nat>, result: seq<seq<nat>>)
    requires Upward(p)
  {
    && (forall g :: 0 <= g < |result| ==> GroupAt(p, result[g], |p|))
    && FirstsIncrease(result)
    && (forall g, h :: 0 <= g < h < |result| ==> Root(p, result[g][0]) != Root(p, result[h][0]))
    && forall y: nat :: y < |p| ==> InSome(result, y)
  }

  lemma AllSeen(p: seq<nat>, result: seq<seq<nat>>, groups: map<nat, nat>)
    requires Upward(p) && GroupsOk(p, result, groups, |p|)
    ensures ListsClasses(p, result)
  {
    hide Root, Increasing;
    forall y: nat | y < |p| ensures InSome(result, y) {
      assert Seen(p, groups, y) && Named(p, result, groups, Root(p, y));
      assert GroupAt(p, result[groups[Root(p, y)]], |p|);
    }
    forall g, h | 0 <= g < h < |result| ensures Root(p, result[g][0]) != Root(p, result[h][0]) {
      assert KeyOf(p, result[g], groups, g) && KeyOf(p, result[h], groups, h);
    }
  }
}
