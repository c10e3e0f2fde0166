/** A system of distinct representatives by augmenting paths. */
module UniqueCombine {
  import opened Collections

  /** One element from each selection, no element twice. */
  predicate IsCombination<T(==)>(selections: seq<seq<T>>, out: seq<T>) {
    && |out| == |selections|
    && (forall i :: 0 <= i < |out| ==> out[i] in selections[i])
    && forall i, j :: 0 <= i < j < |out| ==> out[i] != out[j]
  }

  /** Everything that the selections in `s` have to offer. */
  ghost function OptionsOf<T>(selections: seq<seq<T>>, s: set<nat>): set<T> {
    set i, x | i in s && i < |selections| && x in selections[i] :: x
  }

  /** Hall's condition fails for `s`: it has more selections than options. */
  ghost predicate Starved<T>(selections: seq<seq<T>>, s: set<nat>) {
    (forall i :: i in s ==> i < |selections|) && |OptionsOf(selections, s)| < |s|
  }

  /** A starved set rules every combination out. */
  lemma StarvedMeansNone<T>(selections: seq<seq<T>>, s: set<nat>, out: seq<T>)
    requires Starved(selections, s)
    ensures !IsCombination(selections, out)
  {
    if IsCombination(selections, out) {
      var chosen := map i | i in s && i < |out| :: out[i];
      ChosenOptions(selections, s, out, chosen);
      InjectionSize(s, OptionsOf(selections, s), chosen);
    }
  }

  lemma ChosenOptions<T>(selections: seq<seq<T>>, s: set<nat>, out: seq<T>, chosen: map<nat, T>)
    requires IsCombination(selections, out) && forall i :: i in s ==> i < |selections|
    requires chosen == map i | i in s && i < |out| :: out[i]
    ensures forall i :: i in s ==> i in chosen && chosen[i] in OptionsOf(selections, s)
    ensures forall i, j :: i in s && j in s && i != j ==> chosen[i] != chosen[j]
  {
    forall i, j | i in s && j in s && i != j ensures out[i] != out[j] {
      assert i < j ==> out[i] != out[j];
      assert j < i ==> out[j] != out[i];
    }
  }

  // ----- the state of the search -----

  /** Selection `r` holds an option of its own, and that option's owner is `r`. */
  predicate Matched<T(==)>(selections: seq<seq<T>>, selectionToNode: seq<Option<T>>, nodeToSelection: map<T, nat>,
    r: nat)
    requires r < |selections| == |selectionToNode|
  {
    && selectionToNode[r].Some?
    && selectionToNode[r].value in selections[r]
    && selectionToNode[r].value in nodeToSelection && nodeToSelection[selectionToNode[r].value] == r
  }

  /** The owner that the table gives for `node` really holds it. */
  predicate Owned<T(==)>(selectionToNode: seq<Option<T>>, nodeToSelection: map<T, nat>, node: T, n: nat)
    requires node in nodeToSelection && n <= |selectionToNode|
  {
    nodeToSelection[node] < n && selectionToNode[nodeToSelection[node]] == Some(node)
  }

  /** The first `n` selections are matched one-to-one, the others not at all; only `hole`, if any, may have a stale
      owner. */
  ghost predicate MatchingOk<T>(selections: seq<seq<T>>, selectionToNode: seq<Option<T>>, nodeToSelection: map<T, nat>,
    n: nat, hole: Option<T>)
  {
    && |selectionToNode| == |selections| && n <= |selections|
    && (forall r :: 0 <= r < n ==>
      Matched(selections, selectionToNode, nodeToSelection, r) && selectionToNode[r] != hole)
    && (forall r :: n <= r < |selections| ==> selectionToNode[r] == None)
    && forall node :: node in nodeToSelection && Some(node) != hole ==> Owned(selectionToNode, nodeToSelection, node, n)
  }

  /** The `k`-th discovered node was found from `start` or from the owner of a node discovered earlier. */
  ghost predicate Traced<T>(selections: seq<seq<T>>, nodeToSelection: map<T, nat>, start: nat, parent: map<T, nat>,
    order: seq<T>, k: nat)
    requires k < |order|
  {
    && order[k] in parent && parent[order[k]] < |selections| && order[k] in selections[parent[order[k]]]
    && (parent[order[k]] == start ||
      exists j :: 0 <= j < k && order[j] in nodeToSelection && nodeToSelection[order[j]] == parent[order[k]])
  }

  /** `order` lists the nodes in `parent` as the search discovered them. */
  ghost predicate Discovered<T>(selections: seq<seq<T>>, nodeToSelection: map<T, nat>, start: nat, parent: map<T, nat>,
    order: seq<T>)
  {
    && (forall k :: 0 <= k < |order| ==> Traced(selections, nodeToSelection, start, parent, order, k))
    && (forall node :: node in parent ==> node in order)
    && forall j, k :: 0 <= j < k < |order| ==> order[j] != order[k]
  }

  /** The selections that the search has queued, in order: the start, then the owner of each discovered node. */
  function Queued<T(==)>(nodeToSelection: map<T, nat>, start: nat, order: seq<T>): (q: seq<nat>)
    requires forall k :: 0 <= k < |order| ==> order[k] in nodeToSelection
    ensures |q| == |order| + 1
  {
    [start] + seq(|order|, k requires 0 <= k < |order| => nodeToSelection[order[k]])
  }

  lemma DiscoverOne<T>(selections: seq<seq<T>>, nodeToSelection: map<T, nat>, start: nat, parent: map<T, nat>,
    order: seq<T>, node: T, current: nat)
    requires Discovered(selections, nodeToSelection, start, parent, order)
    requires forall k :: 0 <= k < |order| ==> order[k] in nodeToSelection
    requires current in Queued(nodeToSelection, start, order) && current < |selections| &&
      node in selections[current] && node !in parent
    ensures Discovered(selections, nodeToSelection, start, parent[node := current], order + [node])
  {
    var parent', order' := parent[node := current], order + [node];
    forall k | 0 <= k < |order'| ensures Traced(selections, nodeToSelection, start, parent', order', k) {
      if k < |order| {
        assert Traced(selections, nodeToSelection, start, parent, order, k);
        if parent[order[k]] != start {
          var j :| 0 <= j < k && order[j] in nodeToSelection && nodeToSelection[order[j]] == parent[order[k]];
          assert order'[j] == order[j];
        }
      } else if current != start {
        var q := Queued(nodeToSelection, start, order);
        var i :| 0 <= i < |q| && q[i] == current;
        assert order'[i - 1] == order[i - 1];
      }
    }
    forall j, k | 0 <= j < k < |order'| ensures order'[j] != order'[k] {
      if k == |order| {
        assert Traced(selections, nodeToSelection, start, parent, order, j);
      }
    }
  }

  lemma QueuedAppend<T>(nodeToSelection: map<T, nat>, start: nat, order: seq<T>, node: T)
    requires forall k :: 0 <= k < |order| ==> order[k] in nodeToSelection
    requires node in nodeToSelection
    ensures Queued(nodeToSelection, start, order + [node])
      == Queued(nodeToSelection, start, order) + [nodeToSelection[node]]
  {
  }

  predicate Claimed<T(==)>(nodeToSelection: map<T, nat>, order: seq<T>) {
    forall k :: 0 <= k < |order| ==> order[k] in nodeToSelection
  }

  /** The inner loop of the search: every option of `current` is discovered, until one is unclaimed. */
  method ScanSelection<T(==)>(selections: seq<seq<T>>, nodeToSelection: map<T, nat>, ghost start: nat, current: nat,
    parent0: map<T, nat>, ghost order0: seq<T>, q0: seq<nat>)
    returns (end: Option<T>, parent: map<T, nat>, ghost order: seq<T>, q: seq<nat>)
    requires Discovered(selections, nodeToSelection, start, parent0, order0) && Claimed(nodeToSelection, order0)
    requires current < |selections| && current in Queued(nodeToSelection, start, order0)
    ensures Discovered(selections, nodeToSelection, start, parent, order) && order0 <= order &&
      parent0.Keys <= parent.Keys
    ensures end.Some? ==> order != [] && order[|order| - 1] == end.value && end.value !in nodeToSelection
    ensures end.None? ==>
      && Claimed(nodeToSelection, order)
      && q == q0 + Queued(nodeToSelection, start, order)[|order0| + 1..]
      && forall x :: x in selections[current] ==> x in parent
  {
    hide Discovered, Queued;
    parent, order, q := parent0, order0, q0;
    QueuedPrefix(nodeToSelection, start, order0, order0);
    for v := 0 to |selections[current]|
      invariant Discovered(selections, nodeToSelection, start, parent, order) && Claimed(nodeToSelection, order)
      invariant order0 <= order && parent0.Keys <= parent.Keys
      invariant current in Queued(nodeToSelection, start, order)
      invariant q == q0 + Queued(nodeToSelection, start, order)[|order0| + 1..]
      invariant forall x :: x in selections[current][..v] ==> x in parent
    {
      var node := selections[current][v];
      assert selections[current][..v + 1] == selections[current][..v] + [node];
      if node in parent {
        continue;
      }
      DiscoverOne(selections, nodeToSelection, start, parent, order, node, current);
      parent := parent[node := current];
      ghost var before := order;
      order := order + [node];
      if node !in nodeToSelection {
        return Some(node), parent, order, q;
      }
      QueuedAppend(nodeToSelection, start, before, node);
      q := q + [nodeToSelection[node]];
    }
    assert selections[current][..|selections[current]|] == selections[current];
    end := None;
  }

  lemma QueuedPrefix<T>(nodeToSelection: map<T, nat>, start: nat, order0: seq<T>, order: seq<T>)
    requires Claimed(nodeToSelection, order0) && Claimed(nodeToSelection, order) && order0 <= order
    ensures Queued(nodeToSelection, start, order0) == Queued(nodeToSelection, start, order)[..|order0| + 1]
    ensures order0 == order ==> Queued(nodeToSelection, start, order)[|order0| + 1..] == []
  {
  }

  /** Distinct claimed nodes are no more than there are claims. */
  lemma ClaimsBound<T>(selections: seq<seq<T>>, nodeToSelection: map<T, nat>, start: nat, parent: map<T, nat>,
    order: seq<T>)
    requires Discovered(selections, nodeToSelection, start, parent, order) && Claimed(nodeToSelection, order)
    ensures |order| <= |nodeToSelection|
  {
    DistinctCount(order);
    SubsetSize((set x | x in order), nodeToSelection.Keys);
  }

  /** A search that runs dry has starved the selections it reached: they outnumber the options it discovered by one. */
  lemma DrySearchStarves<T>(selections: seq<seq<T>>, selectionToNode: seq<Option<T>>, nodeToSelection: map<T, nat>,
    start: nat, parent: map<T, nat>, order: seq<T>, reached: set<nat>)
    requires start < |selections| && MatchingOk(selections, selectionToNode, nodeToSelection, start, None)
    requires Discovered(selections, nodeToSelection, start, parent, order) && Claimed(nodeToSelection, order)
    requires reached == set i | i in Queued(nodeToSelection, start, order)
    requires forall d :: 0 <= d < |order| + 1 ==> Explored(selections, parent, Queued(nodeToSelection, start, order)[d])
    ensures Starved(selections, reached)
  {
    var q := Queued(nodeToSelection, start, order);
    forall d, e | 0 <= d < e < |q| ensures q[d] != q[e] {
      assert Owned(selectionToNode, nodeToSelection, order[e - 1], start);
      if d > 0 {
        assert Owned(selectionToNode, nodeToSelection, order[d - 1], start);
      }
    }
    forall d | 0 <= d < |q| ensures q[d] < |selections| {
      assert d > 0 ==> Owned(selectionToNode, nodeToSelection, order[d - 1], start);
    }
    DistinctCount(q);
    var found := set x | x in order;
    assert OptionsOf(selections, reached) <= found by {
      forall x | x in OptionsOf(selections, reached) ensures x in order {
        var i :| i in reached && i < |selections| && x in selections[i];
        var d :| 0 <= d < |q| && q[d] == i;
        assert Explored(selections, parent, q[d]);
      }
    }
    SubsetSize(OptionsOf(selections, reached), found);
    DistinctCount(order);
  }

  /** `find_augmenting_path`: an unclaimed node and how it was reached, or a starved set of selections. */
  method FindAugmentingPath<T(==)>(selections: seq<seq<T>>, ghost selectionToNode: seq<Option<T>>,
    nodeToSelection: map<T, nat>, start: nat)
    returns (end: Option<T>, parent: map<T, nat>, ghost order: seq<T>, ghost starved: set<nat>)
    requires start < |selections| && MatchingOk(selections, selectionToNode, nodeToSelection, start, None)
    ensures end.Some? ==> end.value !in nodeToSelection
    ensures end.Some? ==>
      Discovered(selections, nodeToSelection, start, parent, order) && order != [] && order[|order| - 1] == end.value
    ensures end.None? ==> Starved(selections, starved)
    ensures end.None? ==> forall other: seq<T> :: !IsCombination(selections, other)
  {
    hide Discovered, Queued, Traced;
    var q := [start];
    parent, order, starved := map[], [], {};
    ghost var done := 0;
    NothingDiscovered(selections, nodeToSelection, start);
    while q != []
      invariant Discovered(selections, nodeToSelection, start, parent, order) && Claimed(nodeToSelection, order)
      invariant done <= |order| + 1 && q == Queued(nodeToSelection, start, order)[done..]
      invariant forall d :: 0 <= d < done ==> Explored(selections, parent, Queued(nodeToSelection, start, order)[d])
      decreases |nodeToSelection| + 1 - done
    {
      var current := q[0];
      q := q[1..];
      ghost var queued, order0 := Queued(nodeToSelection, start, order), order;
      assert current == queued[done];
      QueuedInRange(selections, selectionToNode, nodeToSelection, start, order, done);
      end, parent, order, q := ScanSelection(selections, nodeToSelection, start, current, parent, order, q);
      if end.Some? {
        return;
      }
      QueuedPrefix(nodeToSelection, start, order0, order);
      ClaimsBound(selections, nodeToSelection, start, parent, order);
      done := done + 1;
    }
    starved := set i | i in Queued(nodeToSelection, start, order);
    DrySearchStarves(selections, selectionToNode, nodeToSelection, start, parent, order, starved);
    end := None;
    forall other: seq<T> ensures !IsCombination(selections, other) {
      StarvedMeansNone(selections, starved, other);
    }
  }

  predicate Explored<T(==)>(selections: seq<seq<T>>, parent: map<T, nat>, i: nat) {
    i < |selections| && forall x :: x in selections[i] ==> x in parent
  }

  lemma NothingDiscovered<T>(selections: seq<seq<T>>, nodeToSelection: map<T, nat>, start: nat)
    ensures Discovered(selections, nodeToSelection, start, map[], [])
    ensures Queued(nodeToSelection, start, []) == [start]
  {
  }

  lemma QueuedInRange<T>(selections: seq<seq<T>>, selectionToNode: seq<Option<T>>, nodeToSelection: map<T, nat>,
    start: nat, order: seq<T>, d: nat)
    requires start < |selections| && MatchingOk(selections, selectionToNode, nodeToSelection, start, None)
    requires Claimed(nodeToSelection, order) && d <= |order|
    ensures Queued(nodeToSelection, start, order)[d] < |selections|
  {
    assert d > 0 ==> Owned(selectionToNode, nodeToSelection, order[d - 1], start);
  }

  // ----- flipping -----

  /** While node `order[k]` is being placed, whoever was discovered from an earlier node still holds what it held. */
  predicate Unflipped<T(==)>(before: seq<Option<T>>, now: seq<Option<T>>, order: seq<T>, k: nat, r: nat)
    requires |before| == |now| && r < |now| && k <= |order|
  {
    (exists j :: 0 <= j < k && before[r] == Some(order[j])) ==> now[r] == before[r]
  }

  predicate AllUnflipped<T(==)>(before: seq<Option<T>>, now: seq<Option<T>>, order: seq<T>, k: nat, start: nat)
    requires |before| == |now| && start <= |now| && k <= |order|
  {
    forall r :: 0 <= r < start ==> Unflipped(before, now, order, k, r)
  }

  /** One flip: `right`, from which `order[k]` was discovered, takes it and gives up what it held, which was discovered
      earlier. */
  lemma FlipOne<T>(selections: seq<seq<T>>, before: seq<Option<T>>, owners: map<T, nat>, now: seq<Option<T>>,
    nodeToSelection: map<T, nat>, start: nat, parent: map<T, nat>, order: seq<T>, k: nat)
    returns (right: nat, j: nat)
    requires start < |selections| && MatchingOk(selections, before, owners, start, None)
    requires Discovered(selections, owners, start, parent, order) && k < |order|
    requires MatchingOk(selections, now, nodeToSelection, start, Some(order[k]))
    requires AllUnflipped(before, now, order, k, start)
    ensures order[k] in parent && right == parent[order[k]] < |selections| && order[k] in selections[right]
    ensures now[right].None? ==> right == start
    ensures now[right].Some? ==> right < start && j < k && now[right] == Some(order[j]) && order[j] != order[k]
  {
    assert Traced(selections, owners, start, parent, order, k);
    right, j := parent[order[k]], 0;
    if right == start {
      assert now[right] == None;
    } else {
      j :| 0 <= j < k && order[j] in owners && owners[order[j]] == right;
      assert Owned(before, owners, order[j], start);
      assert Unflipped(before, now, order, k, right);
    }
  }

  lemma FlipKeepsMatching<T>(selections: seq<seq<T>>, now: seq<Option<T>>, nodeToSelection: map<T, nat>, start: nat,
    node: T, right: nat)
    requires start < |selections| && MatchingOk(selections, now, nodeToSelection, start, Some(node))
    requires right < start && node in selections[right]
    ensures MatchingOk(selections, now[right := Some(node)], nodeToSelection[node := right], start, now[right])
  {
    var now', nodeToSelection' := now[right := Some(node)], nodeToSelection[node := right];
    assert Matched(selections, now, nodeToSelection, right);
    forall r | 0 <= r < start ensures Matched(selections, now', nodeToSelection', r) && now'[r] != now[right] {
      assert Matched(selections, now, nodeToSelection, r) && now[r] != Some(node);
    }
    forall x | x in nodeToSelection' && Some(x) != now[right] ensures Owned(now', nodeToSelection', x, start) {
      if x != node {
        assert Owned(now, nodeToSelection, x, start);
      }
    }
  }

  lemma LastFlipCompletes<T>(selections: seq<seq<T>>, now: seq<Option<T>>, nodeToSelection: map<T, nat>, start: nat,
    node: T)
    requires start < |selections| && MatchingOk(selections, now, nodeToSelection, start, Some(node))
    requires node in selections[start]
    ensures MatchingOk(selections, now[start := Some(node)], nodeToSelection[node := start], start + 1, None)
  {
    var now', nodeToSelection' := now[start := Some(node)], nodeToSelection[node := start];
    forall r | 0 <= r < start + 1 ensures Matched(selections, now', nodeToSelection', r) && now'[r] != None {
      assert r < start ==> Matched(selections, now, nodeToSelection, r) && now[r] != Some(node);
    }
    forall x | x in nodeToSelection' ensures Owned(now', nodeToSelection', x, start + 1) {
      if x != node {
        assert Owned(now, nodeToSelection, x, start);
      }
    }
  }

  /** The flip loop: from the unclaimed end back to the start, every selection on the path takes the node found from
      it. */
  method Flip<T(==)>(selections: seq<seq<T>>, selectionToNode0: seq<Option<T>>, nodeToSelection0: map<T, nat>,
    ghost start: nat, end: T, parent: map<T, nat>, ghost order: seq<T>)
    returns (selectionToNode: seq<Option<T>>, nodeToSelection: map<T, nat>)
    requires start < |selections| && MatchingOk(selections, selectionToNode0, nodeToSelection0, start, None)
    requires Discovered(selections, nodeToSelection0, start, parent, order)
    requires order != [] && order[|order| - 1] == end && end !in nodeToSelection0
    ensures MatchingOk(selections, selectionToNode, nodeToSelection, start + 1, None)
  {
    hide Discovered, MatchingOk;
    selectionToNode, nodeToSelection := selectionToNode0, nodeToSelection0;
    var current := Some(end);
    ghost var k := |order|;
    OpenHole(selections, selectionToNode0, nodeToSelection0, start, end);
    while current.Some?
      invariant |selectionToNode| == |selectionToNode0| == |selections|
      invariant current.Some? ==>
        && 0 < k <= |order| && current.value == order[k - 1]
        && MatchingOk(selections, selectionToNode, nodeToSelection, start, current)
        && AllUnflipped(selectionToNode0, selectionToNode, order, k - 1, start)
      invariant current.None? ==> k == 0 && MatchingOk(selections, selectionToNode, nodeToSelection, start + 1, None)
      decreases k
    {
      ghost var r, j := FlipOne(selections, selectionToNode0, nodeToSelection0, selectionToNode, nodeToSelection,
        start, parent, order, k - 1);
      var right := parent[current.value];
      var previous := selectionToNode[right];
      if previous.Some? {
        FlipKeepsMatching(selections, selectionToNode, nodeToSelection, start, current.value, right);
        DistinctOrder(selections, nodeToSelection0, start, parent, order);
        StillUnflipped(selectionToNode0, selectionToNode, order, k - 1, j, start, right, current.value);
      } else {
        LastFlipCompletes(selections, selectionToNode, nodeToSelection, start, current.value);
      }
      selectionToNode := selectionToNode[right := Some(current.value)];
      nodeToSelection := nodeToSelection[current.value := right];
      current := previous;
      k := if previous.Some? then j + 1 else 0;
    }
  }

  lemma OpenHole<T>(selections: seq<seq<T>>, now: seq<Option<T>>, nodeToSelection: map<T, nat>, start: nat, end: T)
    requires start < |selections| && MatchingOk(selections, now, nodeToSelection, start, None) &&
      end !in nodeToSelection
    ensures |now| == |selections| && MatchingOk(selections, now, nodeToSelection, start, Some(end))
  {
  }

  lemma DistinctOrder<T>(selections: seq<seq<T>>, nodeToSelection: map<T, nat>, start: nat, parent: map<T, nat>,
    order: seq<T>)
    requires Discovered(selections, nodeToSelection, start, parent, order)
    ensures forall j, k :: 0 <= j < k < |order| ==> order[j] != order[k]
  {
  }

  lemma StillUnflipped<T>(before: seq<Option<T>>, now: seq<Option<T>>, order: seq<T>, k: nat, j: nat, start: nat,
    right: nat, node: T)
    requires |before| == |now| && start < |now| && right < start && j < k < |order| && now[right] == Some(order[j])
    requires forall i, l :: 0 <= i < l < |order| ==> order[i] != order[l]
    requires AllUnflipped(before, now, order, k, start)
    ensures AllUnflipped(before, now[right := Some(node)], order, j, start)
  {
    var now' := now[right := Some(node)];
    forall r | 0 <= r < start ensures Unflipped(before, now', order, j, r) {
      assert Unflipped(before, now, order, k, r);
    }
  }

  // ----- unique_combine -----

  /** One distinct element per selection, or a starved set that shows there is no such choice. */
  method UniqueCombine<T(==)>(selections: seq<seq<T>>) returns (out: seq<T>, ghost starved: set<nat>)
    ensures IsCombination(selections, out) || (out == [] && Starved(selections, starved))
    ensures selections != [] ==> (out == [] <==> forall other: seq<T> :: !IsCombination(selections, other))
  {
    hide MatchingOk, Discovered;
    var selectionToNode: seq<Option<T>> := seq(|selections|, i => None);
    var nodeToSelection: map<T, nat> := map[];
    NothingMatched(selections, selectionToNode);
    for i := 0 to |selections|
      invariant MatchingOk(selections, selectionToNode, nodeToSelection, i, None)
    {
      var end, parent;
      ghost var order;
      end, parent, order, starved := FindAugmentingPath(selections, selectionToNode, nodeToSelection, i);
      if end.None? {
        return [], starved;
      }
      selectionToNode, nodeToSelection := Flip(selections, selectionToNode, nodeToSelection, i, end.value, parent,
        order);
    }
    AllMatched(selections, selectionToNode, nodeToSelection);
    out, starved := [], {};
    for i := 0 to |selections|
      invariant |out| == i && forall k :: 0 <= k < i ==> Some(out[k]) == selectionToNode[k]
    {
      out := out + [selectionToNode[i].value];
    }
  }

  lemma NothingMatched<T>(selections: seq<seq<T>>, selectionToNode: seq<Option<T>>)
    requires |selectionToNode| == |selections| && forall i :: 0 <= i < |selections| ==> selectionToNode[i] == None
    ensures MatchingOk(selections, selectionToNode, map[], 0, None)
  {
  }

  lemma AllMatched<T>(selections: seq<seq<T>>, selectionToNode: seq<Option<T>>, nodeToSelection: map<T, nat>)
    requires MatchingOk(selections, selectionToNode, nodeToSelection, |selections|, None)
    ensures |selectionToNode| == |selections|
    ensures forall i :: 0 <= i < |selections| ==> selectionToNode[i].Some? && selectionToNode[i].value in selections[i]
    ensures forall i, j :: 0 <= i < j < |selections| ==> selectionToNode[i] != selectionToNode[j]
  {
    forall i | 0 <= i < |selections| ensures Matched(selections, selectionToNode, nodeToSelection, i) {
    }
  }
}
