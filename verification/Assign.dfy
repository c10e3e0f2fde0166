/** Assigning a's to b's under rising water levels, by augmenting paths. */
module Assign {
  import opened Collections
  import opened Assignments

  // ----- the two views of a partial assignment -----

  /** Row `b` lists a's that are assigned to `b`, each once. */
  predicate RowOk(aToB: seq<int>, row: seq<nat>, b: nat) {
    Distinct(row) && forall k :: 0 <= k < |row| ==> row[k] < |aToB| && aToB[row[k]] == b
  }

  /** An assigned a is assigned to one of its options and listed there. */
  predicate EntryOk(options: seq<seq<nat>>, aToB: seq<int>, bToA: seq<seq<nat>>, a: nat)
    requires a < |aToB| == |options|
  {
    aToB[a] == UNASSIGNED || (0 <= aToB[a] < |bToA| && aToB[a] in options[a] && a in bToA[aToB[a]])
  }

  ghost predicate StateOk(options: seq<seq<nat>>, caps: seq<nat>, aToB: seq<int>, bToA: seq<seq<nat>>) {
    && |aToB| == |options| && |bToA| == |caps|
    && (forall b :: 0 <= b < |bToA| ==> RowOk(aToB, bToA[b], b) && |bToA[b]| <= caps[b])
    && forall a :: 0 <= a < |aToB| ==> EntryOk(options, aToB, bToA, a)
  }

  lemma RowIsLoad(options: seq<seq<nat>>, caps: seq<nat>, aToB: seq<int>, bToA: seq<seq<nat>>, b: nat)
    requires StateOk(options, caps, aToB, bToA) && b < |bToA|
    ensures |bToA[b]| == Load(aToB, b)
    ensures forall a :: 0 <= a < |aToB| && aToB[a] == b ==> a in bToA[b]
  {
    assert RowOk(aToB, bToA[b], b);
    forall a ensures a in Residents(aToB, b) <==> a in bToA[b] {
      if a in Residents(aToB, b) {
        assert EntryOk(options, aToB, bToA, a);
      }
    }
    DistinctCount<int>(bToA[b]);
    assert Residents(aToB, b) == Elements<int>(bToA[b]);
  }

  lemma StateIsFeasible(options: seq<seq<nat>>, caps: seq<nat>, aToB: seq<int>, bToA: seq<seq<nat>>)
    requires StateOk(options, caps, aToB, bToA)
    ensures Feasible(options, caps, aToB)
  {
    forall b | 0 <= b < |caps| ensures Load(aToB, b) <= caps[b] {
      RowIsLoad(options, caps, aToB, bToA, b);
    }
    forall a | 0 <= a < |aToB| ensures aToB[a] == UNASSIGNED || (0 <= aToB[a] < |caps| && aToB[a] in options[a]) {
      assert EntryOk(options, aToB, bToA, a);
    }
  }

  // ----- the search -----

  /** The vectors that every search reuses, and its queue. */
  datatype Search = Search(visitedA: seq<bool>, visitedB: seq<bool>, parentA: seq<nat>, parentB: seq<nat>,
    queue: seq<nat>)

  predicate Sized(s: Search, aCount: nat, bCount: nat) {
    |s.visitedA| == |s.parentA| == aCount && |s.visitedB| == |s.parentB| == bCount
  }

  /** `a` was reached through the b discovered as `orderB[j]`, where it resides. */
  predicate ReachedFrom(bToA: seq<seq<nat>>, s: Search, orderB: seq<nat>, a: nat, j: nat)
    requires a < |s.parentA| && j < |orderB|
  {
    orderB[j] < |bToA| && s.parentA[a] == orderB[j] && a in bToA[orderB[j]]
  }

  /** `a` is the start of the search or was reached through one of the first `n` b's discovered. */
  ghost predicate Reached(bToA: seq<seq<nat>>, s: Search, start: nat, orderB: seq<nat>, a: nat, n: nat)
    requires n <= |orderB|
  {
    a < |s.parentA| && (a == start || exists j :: 0 <= j < n && ReachedFrom(bToA, s, orderB, a, j))
  }

  /** The `k`-th b was discovered from an a that was reached before. */
  ghost predicate Traced(options: seq<seq<nat>>, bToA: seq<seq<nat>>, s: Search, start: nat, orderB: seq<nat>, k: nat)
    requires k < |orderB|
  {
    var b := orderB[k];
    b < |s.parentB| && s.parentB[b] < |options| && b in options[s.parentB[b]] &&
      Reached(bToA, s, start, orderB, s.parentB[b], k)
  }

  predicate HasParent(s: Search, orderB: seq<nat>, orderA: seq<nat>, k: nat)
    requires k < |orderB|
  {
    orderB[k] < |s.parentB| && s.parentB[orderB[k]] in orderA
  }

  /** What a search knows: the b's and a's it has visited, in the order of their discovery. */
  ghost predicate SearchOk(options: seq<seq<nat>>, bToA: seq<seq<nat>>, s: Search, start: nat, orderB: seq<nat>,
    orderA: seq<nat>)
  {
    && Sized(s, |options|, |bToA|) && start < |options|
    && Distinct(orderB) && Distinct(orderA)
    && (forall b :: 0 <= b < |s.visitedB| ==> (s.visitedB[b] <==> b in orderB))
    && (forall a :: 0 <= a < |s.visitedA| ==> (s.visitedA[a] <==> a in orderA))
    && (forall k :: 0 <= k < |orderB| ==> Traced(options, bToA, s, start, orderB, k) && HasParent(s, orderB, orderA, k))
    && orderA != [] && orderA[0] == start
    && forall i :: 0 <= i < |orderA| ==> Reached(bToA, s, start, orderB, orderA[i], |orderB|)
  }

  /** A discovered b that is full and whose residents have all been reached. */
  ghost predicate Passed(bToA: seq<seq<nat>>, caps: seq<nat>, orderA: seq<nat>, b: nat) {
    b < |bToA| == |caps| && |bToA[b]| >= caps[b] && forall a :: a in bToA[b] ==> a in orderA
  }

  ghost predicate AllPassed(bToA: seq<seq<nat>>, caps: seq<nat>, orderB: seq<nat>, orderA: seq<nat>) {
    forall k :: 0 <= k < |orderB| ==> Passed(bToA, caps, orderA, orderB[k])
  }

  lemma ReachedLater(bToA: seq<seq<nat>>, s: Search, s': Search, start: nat, orderB: seq<nat>, orderB': seq<nat>,
    a: nat, n: nat, n': nat)
    requires n <= |orderB| && orderB <= orderB' && n <= n' <= |orderB'|
    requires Reached(bToA, s, start, orderB, a, n) && |s'.parentA| == |s.parentA| && s'.parentA[a] == s.parentA[a]
    ensures Reached(bToA, s', start, orderB', a, n')
  {
    if a != start {
      var j :| 0 <= j < n && ReachedFrom(bToA, s, orderB, a, j);
      assert ReachedFrom(bToA, s', orderB', a, j);
    }
  }

  /** A newly discovered b is recorded with the a it was discovered from. */
  lemma DiscoverB(options: seq<seq<nat>>, bToA: seq<seq<nat>>, s: Search, start: nat, orderB: seq<nat>,
    orderA: seq<nat>, b: nat, a: nat)
    requires SearchOk(options, bToA, s, start, orderB, orderA)
    requires b < |bToA| && !s.visitedB[b] && a in orderA && a < |options| && b in options[a]
    ensures SearchOk(options, bToA, s.(visitedB := s.visitedB[b := true], parentB := s.parentB[b := a]), start,
      orderB + [b], orderA)
  {
    hide Reached;
    var s', orderB' := s.(visitedB := s.visitedB[b := true], parentB := s.parentB[b := a]), orderB + [b];
    forall i | 0 <= i < |orderA| ensures Reached(bToA, s', start, orderB', orderA[i], |orderB'|) {
      ReachedInTable(bToA, s, start, orderB, orderA[i], |orderB|);
      ReachedLater(bToA, s, s', start, orderB, orderB', orderA[i], |orderB|, |orderB'|);
    }
    forall k | 0 <= k < |orderB'|
      ensures Traced(options, bToA, s', start, orderB', k) && HasParent(s', orderB', orderA, k)
    {
      if k < |orderB| {
        assert Traced(options, bToA, s, start, orderB, k) && HasParent(s, orderB, orderA, k);
        ReachedInTable(bToA, s, start, orderB, s.parentB[orderB[k]], k);
        ReachedLater(bToA, s, s', start, orderB, orderB', s.parentB[orderB[k]], k, k);
      } else {
        var i :| 0 <= i < |orderA| && orderA[i] == a;
        ReachedInTable(bToA, s, start, orderB, a, |orderB|);
        ReachedLater(bToA, s, s', start, orderB, orderB', a, |orderB|, k);
      }
    }
  }

  lemma ReachedInTable(bToA: seq<seq<nat>>, s: Search, start: nat, orderB: seq<nat>, a: nat, n: nat)
    requires n <= |orderB| && Reached(bToA, s, start, orderB, a, n)
    ensures a < |s.parentA|
  {
  }

  /** A newly reached a is recorded with the b it resides in. */
  lemma ReachA(options: seq<seq<nat>>, bToA: seq<seq<nat>>, s: Search, start: nat, orderB: seq<nat>, orderA: seq<nat>,
    a: nat, b: nat, j: nat)
    requires SearchOk(options, bToA, s, start, orderB, orderA)
    requires a < |options| && !s.visitedA[a] && j < |orderB| && orderB[j] == b < |bToA| && a in bToA[b]
    ensures SearchOk(options, bToA, s.(visitedA := s.visitedA[a := true], parentA := s.parentA[a := b]), start, orderB,
      orderA + [a])
  {
    hide Reached;
    var s', orderA' := s.(visitedA := s.visitedA[a := true], parentA := s.parentA[a := b]), orderA + [a];
    forall k | 0 <= k < |orderB|
      ensures Traced(options, bToA, s', start, orderB, k) && HasParent(s', orderB, orderA', k)
    {
      assert Traced(options, bToA, s, start, orderB, k) && HasParent(s, orderB, orderA, k);
      ReachedInTable(bToA, s, start, orderB, s.parentB[orderB[k]], k);
      ReachedLater(bToA, s, s', start, orderB, orderB, s.parentB[orderB[k]], k, k);
    }
    forall i | 0 <= i < |orderA'| ensures Reached(bToA, s', start, orderB, orderA'[i], |orderB|) {
      if i < |orderA| {
        ReachedInTable(bToA, s, start, orderB, orderA[i], |orderB|);
        ReachedLater(bToA, s, s', start, orderB, orderB, orderA[i], |orderB|, |orderB|);
      } else {
        ReachedNow(bToA, s', start, orderB, a, j);
      }
    }
  }

  lemma ReachedNow(bToA: seq<seq<nat>>, s: Search, start: nat, orderB: seq<nat>, a: nat, j: nat)
    requires a < |s.parentA| && j < |orderB| && ReachedFrom(bToA, s, orderB, a, j)
    ensures Reached(bToA, s, start, orderB, a, |orderB|)
  {
  }

  /** The inputs that `assign` demands: every option names a b. */
  predicate OptionsOk(options: seq<seq<nat>>, bCount: nat) {
    forall a, k :: 0 <= a < |options| && 0 <= k < |options[a]| ==> options[a][k] < bCount
  }

  predicate RowInTable(row: seq<nat>, aCount: nat) {
    forall k :: 0 <= k < |row| ==> row[k] < aCount
  }

  /** The residents of a full b are queued unless they have been reached already. */
  method PushResidents(options: seq<seq<nat>>, bToA: seq<seq<nat>>, b: nat, s0: Search, ghost start: nat,
    ghost orderB: seq<nat>, ghost orderA0: seq<nat>)
    returns (s: Search, ghost orderA: seq<nat>)
    requires SearchOk(options, bToA, s0, start, orderB, orderA0)
    requires b < |bToA| && b in orderB && RowInTable(bToA[b], |options|)
    ensures SearchOk(options, bToA, s, start, orderB, orderA) && orderA0 <= orderA
    ensures s.queue == s0.queue + orderA[|orderA0|..]
    ensures forall a :: a in bToA[b] ==> a in orderA
  {
    hide Reached, ReachedFrom, Traced, HasParent;
    s, orderA := s0, orderA0;
    ghost var j :| 0 <= j < |orderB| && orderB[j] == b;
    for k := 0 to |bToA[b]|
      invariant SearchOk(options, bToA, s, start, orderB, orderA) && orderA0 <= orderA
      invariant s.queue == s0.queue + orderA[|orderA0|..]
      invariant forall a :: a in bToA[b][..k] ==> a in orderA
    {
      var previousA := bToA[b][k];
      assert bToA[b][..k + 1] == bToA[b][..k] + [previousA];
      if !s.visitedA[previousA] {
        ReachA(options, bToA, s, start, orderB, orderA, previousA, b, j);
        s := s.(visitedA := s.visitedA[previousA := true], parentA := s.parentA[previousA := b]);
        QueueIrrelevant(options, bToA, s, s.queue + [previousA], start, orderB, orderA + [previousA]);
        s := s.(queue := s.queue + [previousA]);
        orderA := orderA + [previousA];
      }
    }
    assert bToA[b][..|bToA[b]|] == bToA[b];
  }

  lemma QueueIrrelevant(options: seq<seq<nat>>, bToA: seq<seq<nat>>, s: Search, queue: seq<nat>, start: nat,
    orderB: seq<nat>, orderA: seq<nat>)
    requires SearchOk(options, bToA, s, start, orderB, orderA)
    ensures SearchOk(options, bToA, s.(queue := queue), start, orderB, orderA)
  {
    hide Reached;
    var s' := s.(queue := queue);
    forall k | 0 <= k < |orderB|
      ensures Traced(options, bToA, s', start, orderB, k) && HasParent(s', orderB, orderA, k)
    {
      assert Traced(options, bToA, s, start, orderB, k) && HasParent(s, orderB, orderA, k);
      ReachedInTable(bToA, s, start, orderB, s.parentB[orderB[k]], k);
      ReachedLater(bToA, s, s', start, orderB, orderB, s.parentB[orderB[k]], k, k);
    }
    forall i | 0 <= i < |orderA| ensures Reached(bToA, s', start, orderB, orderA[i], |orderB|) {
      ReachedInTable(bToA, s, start, orderB, orderA[i], |orderB|);
      ReachedLater(bToA, s, s', start, orderB, orderB, orderA[i], |orderB|, |orderB|);
    }
  }

  ghost predicate AllRowsInTable(bToA: seq<seq<nat>>, aCount: nat) {
    forall b :: 0 <= b < |bToA| ==> RowInTable(bToA[b], aCount)
  }

  lemma PassedLater(bToA: seq<seq<nat>>, caps: seq<nat>, orderB: seq<nat>, orderA: seq<nat>, orderA': seq<nat>)
    requires AllPassed(bToA, caps, orderB, orderA) && orderA <= orderA'
    ensures AllPassed(bToA, caps, orderB, orderA')
  {
    assert forall a :: a in orderA ==> a in orderA';
    forall k | 0 <= k < |orderB| ensures Passed(bToA, caps, orderA', orderB[k]) {
      assert Passed(bToA, caps, orderA, orderB[k]);
    }
  }

  /** One round of the search: the options of `currentA` are visited until one has room. */
  method ScanOptions(options: seq<seq<nat>>, bToA: seq<seq<nat>>, caps: seq<nat>, currentA: nat, s0: Search,
    ghost start: nat, ghost orderB0: seq<nat>, ghost orderA0: seq<nat>)
    returns (endB: int, s: Search, ghost orderB: seq<nat>, ghost orderA: seq<nat>)
    requires SearchOk(options, bToA, s0, start, orderB0, orderA0) && AllPassed(bToA, caps, orderB0, orderA0)
    requires |caps| == |bToA| && OptionsOk(options, |bToA|) && AllRowsInTable(bToA, |options|)
    requires currentA < |options| && currentA in orderA0
    ensures SearchOk(options, bToA, s, start, orderB, orderA) && orderB0 <= orderB && orderA0 <= orderA
    ensures endB != UNASSIGNED ==> 0 <= endB < |bToA| && |bToA[endB]| < caps[endB]
    ensures endB != UNASSIGNED ==> orderB != [] && orderB[|orderB| - 1] == endB
    ensures endB == UNASSIGNED ==>
      && AllPassed(bToA, caps, orderB, orderA)
      && s.queue == s0.queue + orderA[|orderA0|..]
      && forall b :: b in options[currentA] ==> b in orderB
  {
    hide Reached, ReachedFrom, Traced, HasParent;
    s, orderB, orderA, endB := s0, orderB0, orderA0, UNASSIGNED;
    for k := 0 to |options[currentA]|
      invariant SearchOk(options, bToA, s, start, orderB, orderA) && orderB0 <= orderB && orderA0 <= orderA
      invariant AllPassed(bToA, caps, orderB, orderA)
      invariant s.queue == s0.queue + orderA[|orderA0|..]
      invariant forall b :: b in options[currentA][..k] ==> b in orderB
    {
      var b := options[currentA][k];
      assert options[currentA][..k + 1] == options[currentA][..k] + [b];
      if s.visitedB[b] {
        continue;
      }
      DiscoverB(options, bToA, s, start, orderB, orderA, b, currentA);
      s := s.(visitedB := s.visitedB[b := true], parentB := s.parentB[b := currentA]);
      ghost var orderB1, orderA1 := orderB, orderA;
      orderB := orderB + [b];
      if |bToA[b]| < caps[b] {
        return b, s, orderB, orderA;
      }
      s, orderA := PushResidents(options, bToA, b, s, start, orderB, orderA);
      PassedLater(bToA, caps, orderB1, orderA1, orderA);
    }
    assert options[currentA][..|options[currentA]|] == options[currentA];
  }

  predicate Explored(options: seq<seq<nat>>, orderB: seq<nat>, a: nat) {
    a < |options| && forall b :: b in options[a] ==> b in orderB
  }

  /** `find_augmenting_path`: the path's end and how it was reached, or a saturated set around the start. */
  method FindAugmentingPath(options: seq<seq<nat>>, bToA: seq<seq<nat>>, caps: seq<nat>, startA: nat, pool: Search)
    returns (endB: int, s: Search, ghost orderB: seq<nat>, ghost orderA: seq<nat>)
    requires startA < |options| && |caps| == |bToA| && OptionsOk(options, |bToA|) && AllRowsInTable(bToA, |options|)
    requires Sized(pool, |options|, |bToA|)
    ensures SearchOk(options, bToA, s, startA, orderB, orderA)
    ensures endB != UNASSIGNED ==> 0 <= endB < |bToA| && |bToA[endB]| < caps[endB]
    ensures endB != UNASSIGNED ==> orderB != [] && orderB[|orderB| - 1] == endB
    ensures endB == UNASSIGNED ==>
      && AllPassed(bToA, caps, orderB, orderA)
      && forall d :: 0 <= d < |orderA| ==> Explored(options, orderB, orderA[d])
  {
    hide Reached, ReachedFrom, Traced, HasParent, SearchOk;
    s := pool.(visitedB := seq(|bToA|, _ => false), visitedA := seq(|options|, _ => false)[startA := true],
      queue := [startA]);
    orderB, orderA, endB := [], [startA], UNASSIGNED;
    SearchStarts(options, bToA, s, startA);
    ghost var done := 0;
    while s.queue != []
      invariant SearchOk(options, bToA, s, startA, orderB, orderA)
      invariant AllPassed(bToA, caps, orderB, orderA)
      invariant done <= |orderA| && s.queue == orderA[done..]
      invariant endB == UNASSIGNED && forall d :: 0 <= d < done ==> Explored(options, orderB, orderA[d])
      decreases |options| - done
    {
      var currentA := s.queue[0];
      ghost var s1, orderB1, orderA1 := s, orderB, orderA;
      assert currentA == orderA[done];
      OrderBounded(options, bToA, s, startA, orderB, orderA);
      QueueIrrelevant(options, bToA, s, s.queue[1..], startA, orderB, orderA);
      s := s.(queue := s.queue[1..]);
      endB, s, orderB, orderA := ScanOptions(options, bToA, caps, currentA, s, startA, orderB, orderA);
      if endB != UNASSIGNED {
        return;
      }
      ExploredLater(options, orderB1, orderB, orderA1, done);
      done := done + 1;
    }
  }

  lemma SearchStarts(options: seq<seq<nat>>, bToA: seq<seq<nat>>, s: Search, start: nat)
    requires Sized(s, |options|, |bToA|) && start < |options|
    requires forall b :: 0 <= b < |bToA| ==> !s.visitedB[b]
    requires forall a :: 0 <= a < |options| ==> (s.visitedA[a] <==> a == start)
    ensures SearchOk(options, bToA, s, start, [], [start])
  {
  }

  lemma OrderBounded(options: seq<seq<nat>>, bToA: seq<seq<nat>>, s: Search, start: nat, orderB: seq<nat>,
    orderA: seq<nat>)
    requires SearchOk(options, bToA, s, start, orderB, orderA)
    ensures |orderA| <= |options| && forall i :: 0 <= i < |orderA| ==> orderA[i] < |options|
  {
    forall i | 0 <= i < |orderA| ensures orderA[i] < |options| {
      ReachedInTable(bToA, s, start, orderB, orderA[i], |orderB|);
    }
    DistinctBelow(orderA, |options|);
  }

  lemma DistinctBelow(s: seq<nat>, n: nat)
    requires Distinct(s) && forall i :: 0 <= i < |s| ==> s[i] < n
    ensures |s| <= n
  {
    DistinctCount<int>(s);
    SubsetSize(Elements<int>(s), Below(n));
  }

  lemma ExploredLater(options: seq<seq<nat>>, orderB: seq<nat>, orderB': seq<nat>, orderA: seq<nat>, n: nat)
    requires orderB <= orderB' && n <= |orderA| && forall d :: 0 <= d < n ==> Explored(options, orderB, orderA[d])
    ensures forall d :: 0 <= d < n ==> Explored(options, orderB', orderA[d])
  {
    assert forall b :: b in orderB ==> b in orderB';
    forall d | 0 <= d < n ensures Explored(options, orderB', orderA[d]) {
      assert Explored(options, orderB, orderA[d]);
    }
  }

  // ----- flipping -----

  /** `std::ranges::find` of a resident */
  function IndexOf(row: seq<nat>, a: nat): (i: nat)
    requires a in row
    ensures i < |row| && row[i] == a
  {
    if row[0] == a then 0 else 1 + IndexOf(row[1..], a)
  }

  /** Swap with the last and pop. */
  function SwapPop(row: seq<nat>, i: nat): seq<nat>
    requires i < |row|
  {
    row[i := row[|row| - 1]][..|row| - 1]
  }

  lemma SwapPopElements(row: seq<nat>, i: nat)
    requires i < |row| && Distinct(row)
    ensures Distinct(SwapPop(row, i)) && |SwapPop(row, i)| == |row| - 1
    ensures forall x :: x in SwapPop(row, i) <==> x in row && x != row[i]
  {
    var row', n := SwapPop(row, i), |row| - 1;
    assert forall k :: 0 <= k < n ==> row'[k] == if k == i then row[n] else row[k];
    forall x | x in row && x != row[i] ensures x in row' {
      var k :| 0 <= k < |row| && row[k] == x;
      assert k == n ==> row'[i] == x;
      assert k < n ==> row'[k] == x;
    }
  }

  function Moved(bToA: seq<seq<nat>>, a: nat, source: nat, target: nat): seq<seq<nat>>
    requires source < |bToA| && target < |bToA| && a in bToA[source]
  {
    var popped := bToA[source := SwapPop(bToA[source], IndexOf(bToA[source], a))];
    popped[target := popped[target] + [a]]
  }

  /** Moving a resident to a b with room keeps both views in step. */
  lemma MoveKeepsState(options: seq<seq<nat>>, caps: seq<nat>, aToB: seq<int>, bToA: seq<seq<nat>>, a: nat, source: nat,
    target: nat)
    requires StateOk(options, caps, aToB, bToA) && a < |aToB| && aToB[a] == source && source < |bToA|
    requires target < |bToA| && target != source && |bToA[target]| < caps[target] && target in options[a]
    ensures a in bToA[source]
    ensures StateOk(options, caps, aToB[a := target], Moved(bToA, a, source, target))
    ensures |Moved(bToA, a, source, target)[source]| < caps[source]
  {
    assert EntryOk(options, aToB, bToA, a);
    assert RowOk(aToB, bToA[source], source) && RowOk(aToB, bToA[target], target);
    var aToB', bToA' := aToB[a := target], Moved(bToA, a, source, target);
    SwapPopElements(bToA[source], IndexOf(bToA[source], a));
    RowAfterPop(aToB, bToA[source], a, source, target);
    RowAfterPush(aToB, bToA[target], a, target);
    forall b | 0 <= b < |bToA'| ensures RowOk(aToB', bToA'[b], b) && |bToA'[b]| <= caps[b] {
      assert RowOk(aToB, bToA[b], b);
    }
    forall x | 0 <= x < |aToB'| ensures EntryOk(options, aToB', bToA', x) {
      assert EntryOk(options, aToB, bToA, x);
    }
  }

  lemma RowAfterPop(aToB: seq<int>, row: seq<nat>, a: nat, source: nat, target: nat)
    requires RowOk(aToB, row, source) && a in row && a < |aToB|
    ensures RowOk(aToB[a := target], SwapPop(row, IndexOf(row, a)), source)
  {
    SwapPopElements(row, IndexOf(row, a));
    var row' := SwapPop(row, IndexOf(row, a));
    forall k | 0 <= k < |row'| ensures row'[k] < |aToB| && aToB[a := target][row'[k]] == source {
      assert row'[k] in row && row'[k] != a;
    }
  }

  lemma RowAfterPush(aToB: seq<int>, row: seq<nat>, a: nat, target: nat)
    requires RowOk(aToB, row, target) && a < |aToB| && aToB[a] != target
    ensures RowOk(aToB[a := target], row + [a], target)
  {
  }

  /** Placing an unassigned a keeps both views in step. */
  lemma PlaceKeepsState(options: seq<seq<nat>>, caps: seq<nat>, aToB: seq<int>, bToA: seq<seq<nat>>, a: nat,
    target: nat)
    requires StateOk(options, caps, aToB, bToA) && a < |aToB| && aToB[a] == UNASSIGNED
    requires target < |bToA| && |bToA[target]| < caps[target] && target in options[a]
    ensures StateOk(options, caps, aToB[a := target], bToA[target := bToA[target] + [a]])
  {
    var aToB', bToA' := aToB[a := target], bToA[target := bToA[target] + [a]];
    RowAfterPush(aToB, bToA[target], a, target);
    forall b | 0 <= b < |bToA'| ensures RowOk(aToB', bToA'[b], b) && |bToA'[b]| <= caps[b] {
      assert RowOk(aToB, bToA[b], b);
    }
    forall x | 0 <= x < |aToB'| ensures EntryOk(options, aToB', bToA', x) {
      assert EntryOk(options, aToB, bToA, x);
    }
  }

  /** Who sat in one of the first `k` b's discovered still sits there. */
  predicate Unmoved(before: seq<int>, now: seq<int>, orderB: seq<nat>, k: nat, a: nat)
    requires a < |before| == |now| && k <= |orderB|
  {
    (exists j :: 0 <= j < k && before[a] == orderB[j]) ==> now[a] == before[a]
  }

  /** What holds between two flips. */
  ghost predicate FlipOk(before: seq<int>, now: seq<int>, orderB: seq<nat>, k: nat, bs: set<int>) {
    && |before| == |now| && k <= |orderB|
    && (forall a :: 0 <= a < |now| ==> Unmoved(before, now, orderB, k, a))
    && (forall a :: 0 <= a < |now| ==> (now[a] == UNASSIGNED <==> before[a] == UNASSIGNED))
    && forall a :: 0 <= a < |now| && (before[a] in bs || now[a] in bs) ==> now[a] == before[a]
  }

  /** Where the path goes from the `k`-th b discovered: to the start, or to a resident of a b discovered earlier. */
  lemma PathStep(options: seq<seq<nat>>, caps: seq<nat>, before: seq<int>, bToA: seq<seq<nat>>, now: seq<int>,
    s: Search, start: nat, orderB: seq<nat>, orderA: seq<nat>, k: nat, as_: set<int>, bs: set<int>)
    returns (j: nat)
    requires StateOk(options, caps, before, bToA) && SearchOk(options, bToA, s, start, orderB, orderA)
    requires FlipOk(before, now, orderB, k, bs) && k < |orderB| && orderB[k] !in bs
    requires Saturated(options, caps, before, as_, bs)
    ensures orderB[k] < |bToA|
    ensures var a := s.parentB[orderB[k]];
      && a < |options| && orderB[k] in options[a]
      && (a != start ==>
        j < k && s.parentA[a] == orderB[j] < |bToA| && now[a] == orderB[j] && orderB[j] !in bs &&
          orderB[j] != orderB[k])
  {
    assert Traced(options, bToA, s, start, orderB, k);
    var a := s.parentB[orderB[k]];
    j := 0;
    if a != start {
      j :| 0 <= j < k && ReachedFrom(bToA, s, orderB, a, j);
      assert RowOk(before, bToA[orderB[j]], orderB[j]);
      assert before[a] == orderB[j];
      assert Unmoved(before, now, orderB, k, a);
    }
  }

  lemma FlipKeeps(before: seq<int>, now: seq<int>, orderB: seq<nat>, k: nat, j: nat, bs: set<int>, a: nat)
    requires FlipOk(before, now, orderB, k, bs) && j < k < |orderB| && Distinct(orderB)
    requires a < |now| && now[a] == orderB[j] && orderB[j] !in bs && orderB[k] !in bs
    ensures FlipOk(before, now[a := orderB[k]], orderB, j, bs)
  {
    var now' := now[a := orderB[k]];
    forall x | 0 <= x < |now'| ensures Unmoved(before, now', orderB, j, x) {
      assert Unmoved(before, now, orderB, k, x);
    }
  }

  /** Saturated sets survive a flip that ends outside them. */
  lemma SaturatedStays(options: seq<seq<nat>>, caps: seq<nat>, before: seq<int>, now: seq<int>, as_: set<int>,
    bs: set<int>)
    requires Saturated(options, caps, before, as_, bs) && |before| == |now|
    requires forall a :: 0 <= a < |now| && (before[a] in bs || now[a] in bs) ==> now[a] == before[a]
    ensures Saturated(options, caps, now, as_, bs)
  {
    forall b | b in bs && 0 <= b < |caps| ensures Load(now, b) >= caps[b] {
      assert Residents(now, b) == Residents(before, b);
    }
  }

  /** Backtracking from the path's end: every a on the path moves to the b it was searching from. */
  method Flip(options: seq<seq<nat>>, caps: seq<nat>, aToB0: seq<int>, bToA0: seq<seq<nat>>, startA: nat, endB: nat,
    s: Search, ghost orderB: seq<nat>, ghost orderA: seq<nat>, ghost as_: set<int>, ghost bs: set<int>)
    returns (aToB: seq<int>, bToA: seq<seq<nat>>)
    requires StateOk(options, caps, aToB0, bToA0) && SearchOk(options, bToA0, s, startA, orderB, orderA)
    requires startA < |aToB0| && aToB0[startA] == UNASSIGNED
    requires orderB != [] && orderB[|orderB| - 1] == endB < |bToA0| && |bToA0[endB]| < caps[endB]
    requires Saturated(options, caps, aToB0, as_, bs) && UNASSIGNED !in bs
    ensures StateOk(options, caps, aToB, bToA)
    ensures Saturated(options, caps, aToB, as_, bs)
    ensures aToB[startA] != UNASSIGNED && forall a :: 0 <= a < |aToB| && a != startA ==>
      (aToB[a] == UNASSIGNED <==> aToB0[a] == UNASSIGNED)
    ensures |bToA| == |bToA0| && forall b :: 0 <= b < |bToA| ==> |bToA[b]| >= |bToA0[b]|
  {
    hide StateOk, SearchOk, Saturated, FlipOk;
    aToB, bToA := aToB0, bToA0;
    var currentB := endB;
    ghost var k: nat := |orderB| - 1;
    FlipStarts(options, caps, aToB0, bToA0, orderB, k, as_, bs, s, startA, orderA);
    while true
      invariant k < |orderB| && orderB[k] == currentB && currentB !in bs
      invariant StateOk(options, caps, aToB, bToA) && FlipOk(aToB0, aToB, orderB, k, bs)
      invariant |aToB| == |aToB0| == |options| && |bToA| == |bToA0| == |caps|
      invariant aToB[startA] == UNASSIGNED && currentB < |bToA| && |bToA[currentB]| < caps[currentB]
      invariant |bToA[currentB]| >= |bToA0[currentB]| - 1
      invariant forall b :: 0 <= b < |bToA| && b != currentB ==> |bToA[b]| >= |bToA0[b]|
      decreases k
    {
      ghost var j := PathStep(options, caps, aToB0, bToA0, aToB, s, startA, orderB, orderA, k, as_, bs);
      SearchSized(options, bToA0, s, startA, orderB, orderA);
      var currentA := s.parentB[currentB];
      if currentA != startA {
        var previousB := s.parentA[currentA];
        MoveKeepsState(options, caps, aToB, bToA, currentA, previousB, currentB);
        FlipKeeps(aToB0, aToB, orderB, k, j, bs, currentA);
        bToA := bToA[previousB := SwapPop(bToA[previousB], IndexOf(bToA[previousB], currentA))];
        bToA := bToA[currentB := bToA[currentB] + [currentA]];
        aToB := aToB[currentA := currentB];
        currentB := previousB;
        k := j;
      } else {
        PlaceKeepsState(options, caps, aToB, bToA, currentA, currentB);
        FlipEnds(options, caps, aToB0, aToB, orderB, k, as_, bs, startA, currentB);
        bToA := bToA[currentB := bToA[currentB] + [currentA]];
        aToB := aToB[currentA := currentB];
        break;
      }
    }
  }

  lemma SearchSized(options: seq<seq<nat>>, bToA: seq<seq<nat>>, s: Search, start: nat, orderB: seq<nat>,
    orderA: seq<nat>)
    requires SearchOk(options, bToA, s, start, orderB, orderA)
    ensures Sized(s, |options|, |bToA|) && Distinct(orderB) && start < |options|
  {
  }

  lemma FlipStarts(options: seq<seq<nat>>, caps: seq<nat>, aToB: seq<int>, bToA: seq<seq<nat>>, orderB: seq<nat>,
    k: nat, as_: set<int>, bs: set<int>, s: Search, start: nat, orderA: seq<nat>)
    requires StateOk(options, caps, aToB, bToA) && Saturated(options, caps, aToB, as_, bs)
    requires k < |orderB| && orderB[k] < |bToA| && |bToA[orderB[k]]| < caps[orderB[k]]
    ensures orderB[k] !in bs && FlipOk(aToB, aToB, orderB, k, bs)
    ensures |aToB| == |options| && |bToA| == |caps|
  {
    RowIsLoad(options, caps, aToB, bToA, orderB[k]);
  }

  lemma FlipEnds(options: seq<seq<nat>>, caps: seq<nat>, before: seq<int>, now: seq<int>, orderB: seq<nat>, k: nat,
    as_: set<int>, bs: set<int>, start: nat, target: nat)
    requires FlipOk(before, now, orderB, k, bs) && Saturated(options, caps, before, as_, bs)
    requires start < |now| && now[start] == UNASSIGNED && target !in bs && UNASSIGNED !in bs
    ensures Saturated(options, caps, now[start := target], as_, bs)
    ensures forall a :: 0 <= a < |now| && a != start ==> (now[a] == UNASSIGNED <==> before[a] == UNASSIGNED)
  {
    SaturatedStays(options, caps, before, now[start := target], as_, bs);
  }

  // ----- one pass at a fixed water level -----

  /** A failed search leaves behind a saturated set that contains its start. */
  lemma DrySearchSaturates(options: seq<seq<nat>>, caps: seq<nat>, aToB: seq<int>, bToA: seq<seq<nat>>, s: Search,
    start: nat, orderB: seq<nat>, orderA: seq<nat>, as_: set<int>, bs: set<int>)
    requires StateOk(options, caps, aToB, bToA) && SearchOk(options, bToA, s, start, orderB, orderA)
    requires AllPassed(bToA, caps, orderB, orderA) && forall d :: 0 <= d < |orderA| ==>
      Explored(options, orderB, orderA[d])
    requires as_ == (set a | a in orderA) && bs == set b | b in orderB
    ensures start in as_ && UNASSIGNED !in bs
    ensures Saturated(options, caps, aToB, as_, bs)
  {
    forall a, b | a in as_ && 0 <= a < |options| && b in options[a] ensures b in bs {
      var d :| 0 <= d < |orderA| && orderA[d] == a;
      assert Explored(options, orderB, orderA[d]);
    }
    forall b | b in bs && 0 <= b < |caps| ensures Load(aToB, b) >= caps[b] {
      var k :| 0 <= k < |orderB| && orderB[k] == b;
      assert Passed(bToA, caps, orderA, orderB[k]);
      RowIsLoad(options, caps, aToB, bToA, b);
    }
    forall a | 0 <= a < |aToB| && aToB[a] in bs ensures a in as_ {
      var k :| 0 <= k < |orderB| && orderB[k] == aToB[a];
      assert Passed(bToA, caps, orderA, orderB[k]);
      RowIsLoad(options, caps, aToB, bToA, orderB[k]);
    }
  }

  lemma SaturatedUnion(options: seq<seq<nat>>, caps: seq<nat>, g: seq<int>, as1: set<int>, bs1: set<int>, as2: set<int>,
    bs2: set<int>)
    requires Saturated(options, caps, g, as1, bs1) && Saturated(options, caps, g, as2, bs2)
    ensures Saturated(options, caps, g, as1 + as2, bs1 + bs2)
  {
  }

  /** One pass of water-filling: afterwards no feasible assignment at this level places more a's. */
  method FillPass(options: seq<seq<nat>>, caps: seq<nat>, aToB0: seq<int>, bToA0: seq<seq<nat>>, assignedCount0: nat,
    pool0: Search)
    returns (aToB: seq<int>, bToA: seq<seq<nat>>, assignedCount: nat, pool: Search)
    requires StateOk(options, caps, aToB0, bToA0) && OptionsOk(options, |caps|)
    requires assignedCount0 == |Assigned(aToB0)| && Sized(pool0, |options|, |caps|)
    ensures StateOk(options, caps, aToB, bToA) && Sized(pool, |options|, |caps|)
    ensures assignedCount == |Assigned(aToB)|
    ensures Maximum(options, caps, aToB)
    ensures forall b :: 0 <= b < |caps| ==> Load(aToB, b) >= Load(aToB0, b)
  {
    hide StateOk, SearchOk, Saturated, Maximum, AllRowsInTable;
    aToB, bToA, assignedCount, pool := aToB0, bToA0, assignedCount0, pool0;
    ghost var as_: set<int>, bs: set<int> := {}, {};
    NothingSaturated(options, caps, aToB);
    StateSized(options, caps, aToB, bToA);
    for i := 0 to |options|
      invariant StateOk(options, caps, aToB, bToA) && |aToB| == |options| && |bToA| == |caps|
      invariant Sized(pool, |options|, |caps|) && assignedCount == |Assigned(aToB)|
      invariant Saturated(options, caps, aToB, as_, bs) && UNASSIGNED !in bs
      invariant forall a :: 0 <= a < i && aToB[a] == UNASSIGNED ==> a in as_
      invariant |bToA0| == |bToA| && forall b :: 0 <= b < |bToA| ==> |bToA[b]| >= |bToA0[b]|
    {
      if aToB[i] != UNASSIGNED {
        continue;
      }
      StateSized(options, caps, aToB, bToA);
      var endB;
      ghost var orderB, orderA;
      endB, pool, orderB, orderA := FindAugmentingPath(options, bToA, caps, i, pool);
      SearchSized(options, bToA, pool, i, orderB, orderA);
      if endB != UNASSIGNED {
        ghost var before := aToB;
        aToB, bToA := Flip(options, caps, aToB, bToA, i, endB, pool, orderB, orderA, as_, bs);
        StateSized(options, caps, aToB, bToA);
        assert Assigned(aToB) == Assigned(before) + {i};
        assignedCount := assignedCount + 1;
      } else {
        ghost var as2, bs2 := set a | a in orderA, set b | b in orderB;
        DrySearchSaturates(options, caps, aToB, bToA, pool, i, orderB, orderA, as2, bs2);
        SaturatedUnion(options, caps, aToB, as_, bs, as2, bs2);
        as_, bs := as_ + as2, bs + bs2;
      }
    }
    StateIsFeasible(options, caps, aToB, bToA);
    SaturatedIsMaximum(options, caps, aToB, as_, bs);
    forall b | 0 <= b < |caps| ensures Load(aToB, b) >= Load(aToB0, b) {
      RowIsLoad(options, caps, aToB0, bToA0, b);
      RowIsLoad(options, caps, aToB, bToA, b);
    }
  }

  lemma NothingSaturated(options: seq<seq<nat>>, caps: seq<nat>, g: seq<int>)
    ensures Saturated(options, caps, g, {}, {})
  {
  }

  lemma StateSized(options: seq<seq<nat>>, caps: seq<nat>, aToB: seq<int>, bToA: seq<seq<nat>>)
    requires StateOk(options, caps, aToB, bToA)
    ensures |aToB| == |options| && |bToA| == |caps| && AllRowsInTable(bToA, |options|)
  {
    forall b | 0 <= b < |bToA| ensures RowInTable(bToA[b], |options|) {
      assert RowOk(aToB, bToA[b], b);
    }
  }

  // ----- assign -----

  /** Raising the water level by one, where `b_max` allows it. */
  method Raise(bMax: seq<nat>, caps0: seq<nat>, ghost level: nat) returns (caps: seq<nat>, raised: bool)
    requires caps0 == Caps(bMax, level)
    ensures caps == Caps(bMax, level + 1)
    ensures raised ==> Slack(bMax, caps, |caps|) < Slack(bMax, caps0, |caps0|)
    ensures !raised ==> caps == caps0 == bMax
  {
    caps, raised := caps0, false;
    for i := 0 to |bMax|
      invariant |caps| == |bMax|
      invariant forall b :: 0 <= b < i ==> caps[b] == Caps(bMax, level + 1)[b]
      invariant forall b :: i <= b < |bMax| ==> caps[b] == caps0[b]
      invariant raised <==> exists b :: 0 <= b < i && caps0[b] < bMax[b]
    {
      if caps[i] < bMax[i] {
        caps := caps[i := caps[i] + 1];
        raised := true;
      }
    }
    if raised {
      ghost var b :| 0 <= b < |bMax| && caps0[b] < bMax[b];
      SlackDrops(bMax, caps0, caps, |bMax|, b);
    }
  }

  /** How far the capacities of the first `n` b's are below `b_max`. */
  function Slack(bMax: seq<nat>, caps: seq<nat>, n: nat): nat
    requires n <= |caps| == |bMax|
  {
    if n == 0 then 0 else Slack(bMax, caps, n - 1) + if caps[n - 1] < bMax[n - 1] then bMax[n - 1] - caps[n - 1] else 0
  }

  lemma {:induction false} SlackDrops(bMax: seq<nat>, caps0: seq<nat>, caps: seq<nat>, n: nat, b: nat)
    requires n <= |caps| == |caps0| == |bMax| && forall i :: 0 <= i < n ==> caps0[i] <= caps[i]
    ensures Slack(bMax, caps, n) <= Slack(bMax, caps0, n)
    ensures b < n && caps0[b] < caps[b] && caps0[b] < bMax[b] ==> Slack(bMax, caps, n) < Slack(bMax, caps0, n)
    decreases n
  {
    if n > 0 {
      SlackDrops(bMax, caps0, caps, n - 1, b);
    }
  }

  /** `assign`: every a gets one of its options within `b_max`, the largest load is as small as it can be, and the
      loads are spread as evenly as they can be at every level at once; the result is empty only if there are no a's
      or no such assignment at all. */
  method Assign(options: seq<seq<nat>>, bMax: seq<nat>) returns (out: seq<int>, ghost level: nat)
    requires OptionsOk(options, |bMax|)
    ensures out != [] ==>
      && Feasible(options, Caps(bMax, level), out) && Complete(out)
      && level >= 1 && !Possible(options, Caps(bMax, level - 1))
    ensures out != [] ==> forall g :: Feasible(options, bMax, g) && Complete(g) ==> Peaks(g, |bMax|, level)
    ensures out != [] ==> forall l: nat :: EvenAt(options, bMax, out, l)
    ensures options != [] ==> (out == [] <==> !Possible(options, bMax))
  {
    hide *;
    level := 0;
    if |options| == 0 {
      return [], 0;
    }
    var aToB := seq(|options|, _ => UNASSIGNED);
    var bToA: seq<seq<nat>> := seq(|bMax|, _ => []);
    var pool := Search(seq(|options|, _ => false), seq(|bMax|, _ => false),
      seq(|options|, _ => 0), seq(|bMax|, _ => 0), []);
    PoolSized(pool, |options|, |bMax|);
    var assignedCount := 0;
    var caps: seq<nat> := seq(|bMax|, _ => 0);
    NothingAssigned(options, caps, aToB, bToA);
    StateIsFeasible(options, caps, aToB, bToA);
    assert caps == Caps(bMax, 0);
    MaximumIsEven(options, bMax, aToB, 0);
    var capacityIncreased := true;
    while assignedCount < |options| && capacityIncreased
      invariant StateOk(options, caps, aToB, bToA) && |aToB| == |options| && Sized(pool, |options|, |bMax|)
      invariant caps == Caps(bMax, level) && assignedCount == |Assigned(aToB)|
      invariant Maximum(options, caps, aToB)
      invariant level == 0 ==> assignedCount == 0
      invariant level > 0 ==> !Possible(options, Caps(bMax, level - 1))
      invariant !capacityIncreased ==> caps == bMax
      invariant forall l: nat :: l <= level ==> EvenAt(options, bMax, aToB, l)
      decreases Slack(bMax, caps, |caps|), if capacityIncreased then 1 else 0
    {
      MaximumLeavesOut(options, caps, aToB);
      caps, capacityIncreased := Raise(bMax, caps, level);
      level := level + 1;
      RaisedStateOk(options, Caps(bMax, level - 1), caps, aToB, bToA);
      ghost var before := aToB;
      aToB, bToA, assignedCount, pool := FillPass(options, caps, aToB, bToA, assignedCount, pool);
      StateSized(options, caps, aToB, bToA);
      StateIsFeasible(options, caps, aToB, bToA);
      MaximumIsEven(options, bMax, aToB, level);
      forall l: nat | l < level ensures EvenAt(options, bMax, aToB, l) {
        EvenStays(options, bMax, before, aToB, l);
      }
    }
    AllAssigned(aToB);
    if assignedCount < |options| {
      MaximumLeavesOut(options, caps, aToB);
      return [], level;
    }
    StateIsFeasible(options, caps, aToB, bToA);
    LevelIsWithinMax(options, bMax, level, aToB);
    forall g | Feasible(options, bMax, g) && Complete(g) ensures Peaks(g, |bMax|, level) {
      SomeLoadReaches(options, bMax, level, g);
    }
    forall l: nat | l > level ensures EvenAt(options, bMax, aToB, l) {
      LoadsWithinLevel(options, bMax, level, aToB);
      CompleteIsEven(options, bMax, aToB, l);
    }
    return aToB, level;
  }

  lemma NothingAssigned(options: seq<seq<nat>>, caps: seq<nat>, aToB: seq<int>, bToA: seq<seq<nat>>)
    requires |aToB| == |options| && |bToA| == |caps|
    requires forall a :: 0 <= a < |aToB| ==> aToB[a] == UNASSIGNED
    requires forall b :: 0 <= b < |bToA| ==> bToA[b] == [] && caps[b] == 0
    ensures StateOk(options, caps, aToB, bToA) && |Assigned(aToB)| == 0
    ensures Maximum(options, caps, aToB)
  {
    assert Assigned(aToB) == {};
    forall h | Feasible(options, caps, h) ensures |Assigned(h)| == 0 {
      NoRoomNoneAssigned(options, caps, h);
    }
  }

  lemma NoRoomNoneAssigned(options: seq<seq<nat>>, caps: seq<nat>, h: seq<int>)
    requires Feasible(options, caps, h) && forall b :: 0 <= b < |caps| ==> caps[b] == 0
    ensures Assigned(h) == {}
  {
    assert forall a :: 0 <= a < |h| && 0 <= h[a] < |caps| ==> a in Residents(h, h[a]);
    forall b | 0 <= b < |caps| ensures Residents(h, b) == {} {
      assert Load(h, b) <= caps[b];
    }
  }

  lemma PoolSized(s: Search, aCount: nat, bCount: nat)
    requires |s.visitedA| == |s.parentA| == aCount && |s.visitedB| == |s.parentB| == bCount
    ensures Sized(s, aCount, bCount)
  {
  }

  lemma RaisedStateOk(options: seq<seq<nat>>, caps: seq<nat>, caps': seq<nat>, aToB: seq<int>, bToA: seq<seq<nat>>)
    requires StateOk(options, caps, aToB, bToA) && |caps'| == |caps| && forall b :: 0 <= b < |caps| ==>
      caps[b] <= caps'[b]
    ensures StateOk(options, caps', aToB, bToA)
  {
    forall b | 0 <= b < |bToA| ensures RowOk(aToB, bToA[b], b) && |bToA[b]| <= caps'[b] {
    }
  }

  lemma LoadsWithinLevel(options: seq<seq<nat>>, bMax: seq<nat>, level: nat, g: seq<int>)
    requires Feasible(options, Caps(bMax, level), g)
    ensures forall b :: 0 <= b < |bMax| ==> Load(g, b) <= level
  {
  }

  lemma LevelIsWithinMax(options: seq<seq<nat>>, bMax: seq<nat>, level: nat, g: seq<int>)
    requires Feasible(options, Caps(bMax, level), g)
    ensures Feasible(options, bMax, g)
    ensures Complete(g) ==> Possible(options, bMax)
  {
    assert Feasible(options, bMax, g);
  }
}
