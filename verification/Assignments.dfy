/** Capacitated assignments and the counting arguments that bound them. */
module Assignments {
  import opened Collections

  /** No b yet. */
  const UNASSIGNED := -1

  /** `g` gives some of the a's one of their options each, and no b more than its capacity. */
  ghost predicate Feasible(options: seq<seq<nat>>, caps: seq<nat>, g: seq<int>) {
    && |g| == |options|
    && (forall a :: 0 <= a < |g| ==> g[a] == UNASSIGNED || (0 <= g[a] < |caps| && g[a] in options[a]))
    && forall b :: 0 <= b < |caps| ==> Load(g, b) <= caps[b]
  }

  /** The a's that `g` gives to `b`. */
  function Residents(g: seq<int>, b: int): set<int> {
    set a | 0 <= a < |g| && g[a] == b
  }

  /** How many a's `g` gives to `b`. */
  function Load(g: seq<int>, b: int): nat {
    |Residents(g, b)|
  }

  function Assigned(g: seq<int>): set<int> {
    set a | 0 <= a < |g| && g[a] != UNASSIGNED
  }

  predicate Complete(g: seq<int>) {
    forall a :: 0 <= a < |g| ==> g[a] != UNASSIGNED
  }

  /** The total capacity of the b's in `bs` below `n`. */
  function Room(caps: seq<nat>, bs: set<int>, n: nat): nat
    requires n <= |caps|
  {
    if n == 0 then 0 else Room(caps, bs, n - 1) + if n - 1 in bs then caps[n - 1] else 0
  }

  /** The a's that `g` gives to the b's in `bs` below `n`. */
  function Housed(g: seq<int>, bs: set<int>, n: nat): set<int> {
    set a | 0 <= a < |g| && 0 <= g[a] < n && g[a] in bs
  }

  lemma HousedStep(g: seq<int>, bs: set<int>, n: nat)
    requires n > 0
    ensures |Housed(g, bs, n)| == |Housed(g, bs, n - 1)| + if n - 1 in bs then Load(g, n - 1) else 0
  {
    var more := if n - 1 in bs then Residents(g, n - 1) else {};
    assert Housed(g, bs, n) == Housed(g, bs, n - 1) + more;
    assert Housed(g, bs, n - 1) !! more;
  }

  /** A feasible assignment houses no more than there is room. */
  lemma {:induction false} HousedAtMostRoom(options: seq<seq<nat>>, caps: seq<nat>, g: seq<int>, bs: set<int>, n: nat)
    requires Feasible(options, caps, g) && n <= |caps|
    ensures |Housed(g, bs, n)| <= Room(caps, bs, n)
    decreases n
  {
    if n == 0 {
      assert Housed(g, bs, 0) == {};
    } else {
      HousedAtMostRoom(options, caps, g, bs, n - 1);
      HousedStep(g, bs, n);
    }
  }

  /** Saturated b's house all there is room for. */
  lemma {:induction false} SaturatedHousesRoom(caps: seq<nat>, g: seq<int>, bs: set<int>, n: nat)
    requires n <= |caps| && forall b :: b in bs && 0 <= b < n ==> Load(g, b) >= caps[b]
    ensures |Housed(g, bs, n)| >= Room(caps, bs, n)
    decreases n
  {
    if n > 0 {
      SaturatedHousesRoom(caps, g, bs, n - 1);
      HousedStep(g, bs, n);
    }
  }

  /** The a's in `as` can only go to the b's in `bs`, which are full and hold none but those a's. */
  ghost predicate Saturated(options: seq<seq<nat>>, caps: seq<nat>, g: seq<int>, as_: set<int>, bs: set<int>) {
    && (forall a, b :: a in as_ && 0 <= a < |options| && b in options[a] ==> b in bs)
    && (forall b :: b in bs && 0 <= b < |caps| ==> Load(g, b) >= caps[b])
    && forall a :: 0 <= a < |g| && g[a] in bs ==> a in as_
  }

  ghost predicate Maximum(options: seq<seq<nat>>, caps: seq<nat>, g: seq<int>) {
    forall h :: Feasible(options, caps, h) ==> |Assigned(h)| <= |Assigned(g)|
  }

  /** If every unassigned a is caught in a saturated set, no feasible assignment places more a's. */
  lemma SaturatedIsMaximum(options: seq<seq<nat>>, caps: seq<nat>, g: seq<int>, as_: set<int>, bs: set<int>)
    requires Feasible(options, caps, g) && Saturated(options, caps, g, as_, bs)
    requires forall a :: 0 <= a < |g| && g[a] == UNASSIGNED ==> a in as_
    ensures Maximum(options, caps, g)
  {
    forall h | Feasible(options, caps, h) ensures |Assigned(h)| <= |Assigned(g)| {
      SaturatedBoundsOne(options, caps, g, h, as_, bs);
    }
  }

  lemma SaturatedBoundsOne(options: seq<seq<nat>>, caps: seq<nat>, g: seq<int>, h: seq<int>, as_: set<int>,
    bs: set<int>)
    requires Feasible(options, caps, g) && Saturated(options, caps, g, as_, bs)
    requires forall a :: 0 <= a < |g| && g[a] == UNASSIGNED ==> a in as_
    requires Feasible(options, caps, h)
    ensures |Assigned(h)| <= |Assigned(g)|
  {
    var n := |caps|;
    var outside := set a | 0 <= a < |g| && a !in as_;
    HousedAtMostRoom(options, caps, h, bs, n);
    SaturatedHousesRoom(caps, g, bs, n);
    assert Assigned(h) <= outside + Housed(h, bs, n);
    SubsetSize(Assigned(h), outside + Housed(h, bs, n));
    assert outside + Housed(g, bs, n) <= Assigned(g);
    assert outside !! Housed(g, bs, n);
    SubsetSize(outside + Housed(g, bs, n), Assigned(g));
  }

  /** The capacities at water level `level`. */
  function Caps(bMax: seq<nat>, level: nat): (caps: seq<nat>)
    ensures |caps| == |bMax|
    ensures forall b :: 0 <= b < |bMax| ==> caps[b] == if level < bMax[b] then level else bMax[b]
  {
    seq(|bMax|, b requires 0 <= b < |bMax| => if level < bMax[b] then level else bMax[b])
  }

  ghost predicate Possible(options: seq<seq<nat>>, caps: seq<nat>) {
    exists g :: Feasible(options, caps, g) && Complete(g)
  }

  /** A maximum assignment that leaves an a out shows that not all can be placed. */
  lemma MaximumLeavesOut(options: seq<seq<nat>>, caps: seq<nat>, g: seq<int>)
    requires |g| == |options| && Maximum(options, caps, g) && |Assigned(g)| < |g|
    ensures !Possible(options, caps)
  {
    forall h | Feasible(options, caps, h) ensures !Complete(h) {
      if Complete(h) {
        AllAssigned(h);
      }
    }
  }

  lemma AllAssigned(g: seq<int>)
    ensures Complete(g) <==> |Assigned(g)| == |g|
    ensures |Assigned(g)| <= |g|
  {
    var all := Assigned(g) + Residents(g, UNASSIGNED);
    assert all == Below(|g|);
    SubsetSize(Assigned(g), all);
    if |Assigned(g)| == |g| {
      forall a | 0 <= a < |g| ensures g[a] != UNASSIGNED {
        assert a in all;
      }
    }
    if Complete(g) {
      assert Residents(g, UNASSIGNED) == {};
    }
  }

  /** Some b below `n` has a load of at least `level`. */
  predicate Peaks(g: seq<int>, n: nat, level: nat) {
    exists b :: 0 <= b < n && Load(g, b) >= level
  }

  /** Water-filling is min-max optimal: if the level below does not suffice, every complete assignment within
      `bMax` loads some b with at least `level`. */
  lemma SomeLoadReaches(options: seq<seq<nat>>, bMax: seq<nat>, level: nat, g: seq<int>)
    requires level >= 1 && !Possible(options, Caps(bMax, level - 1))
    requires Feasible(options, bMax, g) && Complete(g)
    ensures Peaks(g, |bMax|, level)
  {
    if forall b :: 0 <= b < |bMax| ==> Load(g, b) < level {
      LowLoadsFit(options, bMax, level, g);
    }
  }

  lemma LowLoadsFit(options: seq<seq<nat>>, bMax: seq<nat>, level: nat, g: seq<int>)
    requires level >= 1 && Feasible(options, bMax, g)
    requires forall b :: 0 <= b < |bMax| ==> Load(g, b) < level
    ensures Feasible(options, Caps(bMax, level - 1), g)
  {
  }

  // ----- even spread -----

  /** How many of `g`'s a's remain if every b below `n` gives up what exceeds a load of `level`. */
  function Leveled(g: seq<int>, n: nat, level: nat): nat {
    if n == 0 then 0 else Leveled(g, n - 1, level) + if Load(g, n - 1) < level then Load(g, n - 1) else level
  }

  /** No assignment within `bMax` keeps more than `g` when loads are cut off at `level`. */
  ghost predicate EvenAt(options: seq<seq<nat>>, bMax: seq<nat>, g: seq<int>, level: nat) {
    forall h :: Feasible(options, bMax, h) ==> Leveled(h, |bMax|, level) <= Leveled(g, |bMax|, level)
  }

  /** Cutting off loses nothing where no load exceeds the level. */
  lemma {:induction false} LeveledIsHoused(g: seq<int>, n: nat, level: nat, bs: set<int>)
    requires forall b :: 0 <= b < n ==> b in bs
    ensures Leveled(g, n, level) <= |Housed(g, bs, n)|
    ensures (forall b :: 0 <= b < n ==> Load(g, b) <= level) ==> Leveled(g, n, level) == |Housed(g, bs, n)|
    decreases n
  {
    if n == 0 {
      assert Housed(g, bs, 0) == {};
    } else {
      LeveledIsHoused(g, n - 1, level, bs);
      HousedStep(g, bs, n);
    }
  }

  lemma LeveledIsAssigned(options: seq<seq<nat>>, caps: seq<nat>, g: seq<int>, level: nat)
    requires Feasible(options, caps, g)
    ensures Leveled(g, |caps|, level) <= |Assigned(g)|
    ensures (forall b :: 0 <= b < |caps| ==> Load(g, b) <= level) ==> Leveled(g, |caps|, level) == |Assigned(g)|
  {
    LeveledIsHoused(g, |caps|, level, Below(|caps|));
    assert Housed(g, Below(|caps|), |caps|) == Assigned(g);
  }

  /** Higher loads keep more. */
  lemma {:induction false} LeveledGrows(g: seq<int>, h: seq<int>, n: nat, level: nat)
    requires forall b :: 0 <= b < n ==>
      (if Load(g, b) < level then Load(g, b) else level) <= if Load(h, b) < level then Load(h, b) else level
    ensures Leveled(g, n, level) <= Leveled(h, n, level)
    decreases n
  {
    if n > 0 {
      LeveledGrows(g, h, n - 1, level);
    }
  }

  lemma LeaveOne(g: seq<int>, a: nat)
    requires a < |g| && g[a] != UNASSIGNED
    ensures var g' := g[a := UNASSIGNED];
      && Assigned(g') == Assigned(g) - {a} && |Assigned(g')| < |Assigned(g)|
      && Load(g', g[a]) == Load(g, g[a]) - 1
      && forall b :: 0 <= b && b != g[a] ==> Load(g', b) == Load(g, b)
  {
    var g' := g[a := UNASSIGNED];
    assert a in Assigned(g) && Assigned(g') == Assigned(g) - {a};
    assert Residents(g', g[a]) == Residents(g, g[a]) - {a};
    forall b | 0 <= b && b != g[a] ensures Load(g', b) == Load(g, b) {
      assert Residents(g', b) == Residents(g, b);
    }
  }

  /** Cutting off at a level leaves an assignment within that level's capacities. */
  lemma {:induction false} CutOff(options: seq<seq<nat>>, bMax: seq<nat>, g: seq<int>, level: nat) returns (h: seq<int>)
    requires Feasible(options, bMax, g)
    ensures Feasible(options, Caps(bMax, level), h) && Leveled(g, |bMax|, level) <= |Assigned(h)|
    decreases |Assigned(g)|
  {
    h := g;
    if b :| 0 <= b < |bMax| && Load(g, b) > level {
      assert Residents(g, b) != {};
      var a :| a in Residents(g, b);
      LeaveOne(g, a);
      var g' := g[a := UNASSIGNED];
      assert Feasible(options, bMax, g');
      LeveledGrows(g, g', |bMax|, level);
      h := CutOff(options, bMax, g', level);
    } else {
      LeveledIsAssigned(options, bMax, g, level);
    }
  }

  /** A maximum assignment at a water level is even at that level. */
  lemma MaximumIsEven(options: seq<seq<nat>>, bMax: seq<nat>, g: seq<int>, level: nat)
    requires Feasible(options, Caps(bMax, level), g) && Maximum(options, Caps(bMax, level), g)
    ensures EvenAt(options, bMax, g, level)
  {
    LeveledIsAssigned(options, Caps(bMax, level), g, level);
    forall h | Feasible(options, bMax, h) ensures Leveled(h, |bMax|, level) <= Leveled(g, |bMax|, level) {
      var t := CutOff(options, bMax, h, level);
    }
  }

  /** Raising loads keeps an assignment even. */
  lemma EvenStays(options: seq<seq<nat>>, bMax: seq<nat>, g: seq<int>, g': seq<int>, level: nat)
    requires EvenAt(options, bMax, g, level) && forall b :: 0 <= b < |bMax| ==> Load(g, b) <= Load(g', b)
    ensures EvenAt(options, bMax, g', level)
  {
    LeveledGrows(g, g', |bMax|, level);
  }

  /** A complete assignment is even above its largest load. */
  lemma CompleteIsEven(options: seq<seq<nat>>, bMax: seq<nat>, g: seq<int>, level: nat)
    requires Feasible(options, bMax, g) && Complete(g) && forall b :: 0 <= b < |bMax| ==> Load(g, b) <= level
    ensures EvenAt(options, bMax, g, level)
  {
    LeveledIsAssigned(options, bMax, g, level);
    AllAssigned(g);
    forall h | Feasible(options, bMax, h) ensures Leveled(h, |bMax|, level) <= Leveled(g, |bMax|, level) {
      LeveledIsAssigned(options, bMax, h, level);
      AllAssigned(h);
    }
  }
}
