/** The lock-free ring allocator: any number of threads stepping through the loops of `alloc` and `free`. */
module RingAlloc {

  import opened Collections

  // ----- positions -----

  /** The first position of the lap that `head` is in. */
  function LapStart(size: nat, head: nat): nat
    requires size > 0
  {
    head - head % size
  }

  predicate Wraps(size: nat, head: nat, n: nat)
    requires size > 0
  {
    head % size + n > size
  }

  /** `begin`: where an allocation of `n` bytes committed at `head` lies in the buffer. */
  function Begin(size: nat, head: nat, n: nat): nat
    requires size > 0
  {
    if Wraps(size, head, n) then 0 else head % size
  }

  /** `totalSize`: the bytes plus the padding that skips the rest of the lap. */
  function Total(size: nat, head: nat, n: nat): nat
    requires size > 0
  {
    if Wraps(size, head, n) then n + (size - head % size) else n
  }

  /** The position after the allocation, which is also its cleanup token. */
  function End(size: nat, head: nat, n: nat): nat
    requires size > 0
  {
    head + Total(size, head, n)
  }

  /** The first position of lap `q`. */
  function Lap(size: nat, q: nat): nat {
    size * q
  }

  lemma LapFacts(size: nat, x: nat)
    requires size > 0
    ensures 0 <= x % size < size
    ensures LapStart(size, x) == Lap(size, x / size) <= x < LapStart(size, x) + size == Lap(size, x / size + 1)
  {
  }

  lemma LapMonotone(size: nat, p: nat, q: nat)
    requires p <= q
    ensures Lap(size, p) <= Lap(size, q)
    ensures p < q ==> Lap(size, p) + size <= Lap(size, q)
  {
    if p < q {
      ScaledMonotone(size, p + 1, q);
    }
  }

  lemma ScaledMonotone(size: nat, p: nat, q: nat)
    requires p <= q
    ensures size * p <= size * q
  {
  }

  lemma LapOrder(size: nat, x: nat, y: nat)
    requires size > 0 && x <= y
    ensures LapStart(size, x) == LapStart(size, y) || LapStart(size, x) + size <= LapStart(size, y)
  {
    LapFacts(size, x);
    LapFacts(size, y);
    if x / size < y / size {
      LapMonotone(size, x / size, y / size);
    } else if y / size < x / size {
      LapMonotone(size, y / size, x / size);
    }
  }

  /** Starting later never ends earlier. */
  lemma EndMonotone(size: nat, h: nat, g: nat, n: nat)
    requires size > 0 && h <= g
    ensures End(size, h, n) <= End(size, g, n)
  {
    LapFacts(size, h);
    LapFacts(size, g);
    LapOrder(size, h, g);
  }

  // ----- the protocol -----

  datatype Allocation = Allocation(n: nat, begin: nat, start: nat, token: nat)

  /** Where a thread is in its call, with its local copies of the counters. */
  datatype Local =
    | Idle
    | AllocStart(n: nat)
    | AllocLoop(n: nat, head: nat)
    | AllocCommit(n: nat, head: nat, tail: nat)
    | FreeStart(token: nat)
    | FreeLoop(token: nat, tail: nat)

  /** The shared counters, the history of committed allocations and every thread's position.
      Memory is sequentially consistent and the counters do not overflow. */
  datatype Ring = Ring(size: nat, head: nat, tail: nat, issued: seq<Allocation>, threads: map<nat, Local>)

  /** One atomic step of thread `t`; a commit may fail spuriously. */
  datatype Event =
    | CallAlloc(t: nat, n: nat)
    | LoadHead(t: nat)
    | LoadTail(t: nat)
    | Commit(t: nat, spurious: bool)
    | CallFree(t: nat, token: nat)
    | LoadFreeTail(t: nat)
    | Retire(t: nat, spurious: bool)

  /** What a call hands back in the step that ends it; a refusal also tells the copy of the head it was decided with. */
  datatype Response = Refused(n: nat, head: nat) | Granted(allocation: Allocation) | Freed(token: nat)

  function LocalOf(s: Ring, t: nat): Local {
    if t in s.threads then s.threads[t] else Idle
  }

  predicate IsToken(issued: seq<Allocation>, token: nat) {
    exists i :: 0 <= i < |issued| && issued[i].token == token
  }

  /** A thread can only take the step that its position allows, and callers only free tokens they were given. */
  predicate Enabled(s: Ring, e: Event) {
    var l := LocalOf(s, e.t);
    match e
    case CallAlloc(_, _) => l.Idle?
    case LoadHead(_) => l.AllocStart?
    case LoadTail(_) => l.AllocLoop?
    case Commit(_, _) => l.AllocCommit?
    case CallFree(_, token) => l.Idle? && IsToken(s.issued, token)
    case LoadFreeTail(_) => l.FreeStart?
    case Retire(_, _) => l.FreeLoop?
  }

  /** `head + totalSize - tail > _size` on unsigned counters: a head behind the tail wraps to a huge number. */
  predicate Refuses(size: nat, head: nat, tail: nat, n: nat)
    requires size > 0
  {
    End(size, head, n) < tail || End(size, head, n) - tail > size
  }

  function Committed(size: nat, head: nat, n: nat): Allocation
    requires size > 0
  {
    Allocation(n, Begin(size, head, n), head, End(size, head, n))
  }

  function WithLocal(s: Ring, t: nat, l: Local): Ring {
    s.(threads := s.threads[t := l])
  }

  function Next(s: Ring, e: Event): Ring
    requires s.size > 0 && Enabled(s, e)
  {
    var l := LocalOf(s, e.t);
    match e
    case CallAlloc(t, n) => WithLocal(s, t, AllocStart(n))
    case LoadHead(t) => WithLocal(s, t, AllocLoop(l.n, s.head))
    case LoadTail(t) =>
      WithLocal(s, t, if Refuses(s.size, l.head, s.tail, l.n) then Idle else AllocCommit(l.n, l.head, s.tail))
    case Commit(t, spurious) =>
      if !spurious && s.head == l.head then
        var a := Committed(s.size, l.head, l.n);
        WithLocal(s.(head := a.token, issued := s.issued + [a]), t, Idle)
      else WithLocal(s, t, AllocLoop(l.n, s.head))
    case CallFree(t, token) => WithLocal(s, t, FreeStart(token))
    case LoadFreeTail(t) => WithLocal(s, t, FreeLoop(l.token, s.tail))
    case Retire(t, spurious) =>
      if l.tail >= l.token then WithLocal(s, t, Idle)
      else if !spurious && s.tail == l.tail then WithLocal(s.(tail := l.token), t, Idle)
      else WithLocal(s, t, FreeLoop(l.token, s.tail))
  }

  /** The response of the call that this step ends, if it ends one. */
  function ResponseOf(s: Ring, e: Event): Option<Response>
    requires s.size > 0 && Enabled(s, e)
  {
    var l := LocalOf(s, e.t);
    match e
    case LoadTail(_) => if Refuses(s.size, l.head, s.tail, l.n) then Some(Refused(l.n, l.head)) else None
    case Commit(_, spurious) => if !spurious && s.head == l.head then Some(Granted(Committed(s.size, l.head, l.n)))
      else None
    case Retire(_, spurious) => if l.tail >= l.token || (!spurious && s.tail == l.tail) then Some(Freed(l.token))
      else None
    case _ => None
  }

  function Fresh(size: nat): Ring {
    Ring(size, 0, 0, [], map[])
  }

  /** The events can happen one after the other. */
  predicate Runs(s: Ring, events: seq<Event>)
    requires s.size > 0
    decreases |events|
  {
    events == [] || (Enabled(s, events[0]) && Runs(Next(s, events[0]), events[1..]))
  }

  function After(s: Ring, events: seq<Event>): Ring
    requires s.size > 0 && Runs(s, events)
    decreases |events|
  {
    if events == [] then s else After(Next(s, events[0]), events[1..])
  }

  // ----- the invariant -----

  /** Allocations follow each other without gaps and each fits its lap. */
  ghost predicate IssuedAt(size: nat, issued: seq<Allocation>, i: nat)
    requires size > 0 && i < |issued|
  {
    && issued[i] == Committed(size, if i == 0 then 0 else issued[i - 1].token, issued[i].n)
    && issued[i].token - issued[i].start <= size
  }

  ghost predicate IssuedOk(size: nat, issued: seq<Allocation>, head: nat)
    requires size > 0
  {
    && (forall i :: 0 <= i < |issued| ==> IssuedAt(size, issued, i))
    && head == if issued == [] then 0 else issued[|issued| - 1].token
  }

  /** The head once stood at `x`. */
  predicate WasHead(issued: seq<Allocation>, x: nat) {
    x == 0 || IsToken(issued, x)
  }

  ghost predicate LocalOk(s: Ring, l: Local)
    requires s.size > 0
  {
    match l
    case Idle => true
    case AllocStart(_) => true
    case AllocLoop(_, head) => head <= s.head && WasHead(s.issued, head)
    case AllocCommit(n, head, tail) => head <= s.head && WasHead(s.issued, head) && tail <= s.tail &&
      !Refuses(s.size, head, tail, n)
    case FreeStart(token) => IsToken(s.issued, token)
    case FreeLoop(token, tail) => IsToken(s.issued, token) && tail <= s.tail
  }

  ghost predicate Inv(s: Ring) {
    && s.size > 0
    && s.tail <= s.head <= s.tail + s.size
    && IssuedOk(s.size, s.issued, s.head)
    && (s.tail == 0 || IsToken(s.issued, s.tail))
    && forall t :: t in s.threads ==> LocalOk(s, s.threads[t])
  }

  lemma LocalOkLater(s: Ring, s': Ring, l: Local)
    requires s.size > 0 && LocalOk(s, l)
    requires s'.size == s.size && s.head <= s'.head && s.tail <= s'.tail && s.issued <= s'.issued
    ensures LocalOk(s', l)
  {
  }

  lemma {:induction false} TokensIncrease(size: nat, issued: seq<Allocation>, head: nat, i: nat, j: nat)
    requires size > 0 && IssuedOk(size, issued, head) && i <= j < |issued|
    ensures issued[i].token <= issued[j].token <= head
    ensures i < j ==> issued[i].token <= issued[j].start
    decreases |issued| - i
  {
    hide Committed, End;
    TokenStep(size, issued, head, i);
    if i < j {
      TokensIncrease(size, issued, head, i + 1, j);
    } else if i + 1 < |issued| {
      TokensIncrease(size, issued, head, i + 1, i + 1);
    }
  }

  lemma TokenStep(size: nat, issued: seq<Allocation>, head: nat, i: nat)
    requires size > 0 && IssuedOk(size, issued, head) && i < |issued|
    ensures i + 1 < |issued| ==> issued[i].token == issued[i + 1].start <= issued[i + 1].token
    ensures i + 1 == |issued| ==> issued[i].token == head
  {
    assert IssuedAt(size, issued, i);
    if i + 1 < |issued| {
      assert IssuedAt(size, issued, i + 1);
    }
  }

  lemma TokenAtMostHead(s: Ring, token: nat)
    requires Inv(s) && IsToken(s.issued, token)
    ensures token <= s.head
  {
    var i :| 0 <= i < |s.issued| && s.issued[i].token == token;
    TokensIncrease(s.size, s.issued, s.head, i, i);
  }

  lemma HeadWasHead(s: Ring)
    requires Inv(s)
    ensures WasHead(s.issued, s.head)
  {
    if s.issued != [] {
      assert s.issued[|s.issued| - 1].token == s.head;
    }
  }

  /** Every step of every thread keeps the invariant. */
  lemma StepKeepsInv(s: Ring, e: Event)
    requires Inv(s) && Enabled(s, e)
    ensures Inv(Next(s, e))
  {
    hide Refuses, Committed, End, IssuedOk, IsToken;
    var s', l := Next(s, e), LocalOf(s, e.t);
    assert LocalOk(s, l);
    HeadWasHead(s);
    if e.Commit? && !e.spurious && s.head == l.head {
      CommitKeepsInv(s, e.t);
    } else if e.Retire? && l.tail < l.token && !e.spurious && s.tail == l.tail {
      TokenAtMostHead(s, l.token);
      forall t | t in s'.threads ensures LocalOk(s', s'.threads[t]) {
        if t != e.t { LocalOkLater(s, s', s.threads[t]); }
      }
    } else {
      forall t | t in s'.threads ensures LocalOk(s', s'.threads[t]) {
        if t != e.t { LocalOkLater(s, s', s.threads[t]); }
      }
    }
  }

  lemma CommitKeepsInv(s: Ring, t: nat)
    requires Inv(s) && Enabled(s, Commit(t, false)) && s.head == LocalOf(s, t).head
    ensures Inv(Next(s, Commit(t, false)))
  {
    var s', l := Next(s, Commit(t, false)), LocalOf(s, t);
    assert LocalOk(s, l);
    var a := Committed(s.size, l.head, l.n);
    CommitKeepsIssued(s.size, s.issued, s.head, l.n);
    hide IssuedOk, Committed, End;
    forall x | x in s'.threads ensures LocalOk(s', s'.threads[x]) {
      if x != t { LocalOkLater(s, s', s.threads[x]); }
    }
    assert s.tail != 0 ==> IsToken(s'.issued, s.tail) by {
      if s.tail != 0 {
        var i :| 0 <= i < |s.issued| && s.issued[i].token == s.tail;
        assert s'.issued[i].token == s.tail;
      }
    }
  }

  lemma CommitKeepsIssued(size: nat, issued: seq<Allocation>, head: nat, n: nat)
    requires size > 0 && IssuedOk(size, issued, head) && End(size, head, n) - head <= size
    ensures IssuedOk(size, issued + [Committed(size, head, n)], End(size, head, n))
  {
    var issued' := issued + [Committed(size, head, n)];
    forall i | 0 <= i < |issued'| ensures IssuedAt(size, issued', i) {
      if i < |issued| {
        assert IssuedAt(size, issued, i);
      }
    }
  }

  lemma {:induction false} RunKeepsInv(s: Ring, events: seq<Event>)
    requires Inv(s) && Runs(s, events)
    ensures Inv(After(s, events))
    decreases |events|
  {
    if events != [] {
      StepKeepsInv(s, events[0]);
      RunKeepsInv(Next(s, events[0]), events[1..]);
    }
  }

  /** In every run of a fresh ring, by any number of threads, the counters stay within one lap of each other. */
  lemma CountersStayClose(size: nat, events: seq<Event>)
    requires size > 0 && Runs(Fresh(size), events)
    ensures var s := After(Fresh(size), events);
      Inv(s) && s.tail <= s.head <= s.tail + size
  {
    RunKeepsInv(Fresh(size), events);
    SizeStays(Fresh(size), events);
  }

  lemma {:induction false} SizeStays(s: Ring, events: seq<Event>)
    requires s.size > 0 && Runs(s, events)
    ensures After(s, events).size == s.size
    decreases |events|
  {
    if events != [] {
      SizeStays(Next(s, events[0]), events[1..]);
    }
  }

  // ----- physical ranges -----

  /** Not yet freed: its token is past the tail. */
  predicate Live(s: Ring, i: nat)
    requires i < |s.issued|
  {
    s.issued[i].token > s.tail
  }

  /** Position `x` of the unbounded counter line is byte `begin` of some lap. */
  ghost predicate AtByte(size: nat, x: nat, begin: nat) {
    exists q: nat :: x == Lap(size, q) + begin
  }

  /** A committed allocation is contiguous, inside the buffer, and ends at its token modulo the buffer size. */
  lemma CommittedPlace(size: nat, head: nat, n: nat)
    requires size > 0 && n <= size
    ensures var a := Committed(size, head, n);
      && head <= a.token - n && a.begin + n <= size
      && AtByte(size, a.token - n, a.begin)
  {
    LapFacts(size, head);
    var a := Committed(size, head, n);
    if Wraps(size, head, n) {
      assert a.token - n == Lap(size, head / size + 1) + 0;
    } else {
      assert a.token - n == Lap(size, head / size) + head % size;
    }
  }

  /** `n` bytes from position `x` on lie in one lap. */
  predicate InLap(size: nat, x: nat, n: nat)
    requires size > 0
  {
    x % size + n <= size
  }

  /** An allocation ends as early as it can: its bytes start at a position from the head on that keeps them in one lap,
      and no earlier position does. */
  lemma EndIsFirstFit(size: nat, head: nat, n: nat)
    requires size > 0 && n <= size
    ensures End(size, head, n) >= head + n && InLap(size, End(size, head, n) - n, n)
    ensures forall x: nat :: x >= head && InLap(size, x, n) ==> End(size, head, n) <= x + n
  {
    LapFacts(size, head);
    if Wraps(size, head, n) {
      LapIsStart(size, head / size + 1);
    }
    forall x: nat | x >= head && InLap(size, x, n) ensures End(size, head, n) <= x + n {
      LapFacts(size, x);
      LapOrder(size, head, x);
    }
  }

  lemma LapIsStart(size: nat, q: nat)
    requires size > 0
    ensures Lap(size, q) % size == 0
  {
    LapFacts(size, Lap(size, q));
    if Lap(size, q) / size < q {
      LapMonotone(size, Lap(size, q) / size + 1, q);
    } else if q < Lap(size, q) / size {
      LapMonotone(size, q + 1, Lap(size, q) / size);
    }
  }

  lemma IssuedPlace(s: Ring, i: nat)
    requires Inv(s) && i < |s.issued|
    ensures var a := s.issued[i];
      && a.start <= a.token - a.n && a.begin + a.n <= s.size
      && AtByte(s.size, a.token - a.n, a.begin)
  {
    assert IssuedAt(s.size, s.issued, i);
    CommittedPlace(s.size, s.issued[i].start, s.issued[i].n);
  }

  /** A live allocation lies entirely past the tail, because the tail is itself a token. */
  lemma LiveStartsPastTail(s: Ring, i: nat)
    requires Inv(s) && i < |s.issued| && Live(s, i)
    ensures s.tail <= s.issued[i].start
  {
    if s.tail > 0 {
      var k :| 0 <= k < |s.issued| && s.issued[k].token == s.tail;
      if k < i {
        TokensIncrease(s.size, s.issued, s.head, k, i);
      } else {
        TokensIncrease(s.size, s.issued, s.head, i, k);
      }
    }
  }

  /** Two stretches of the counter line within one buffer length do not meet in the buffer. */
  lemma DisjointBytes(size: nat, x: nat, m: nat, begin: nat, y: nat, n: nat, begin': nat)
    requires begin + m <= size && begin' + n <= size
    requires AtByte(size, x, begin) && AtByte(size, y, begin')
    requires x + m <= y && y + n - x <= size && begin < size && begin' < size
    ensures begin + m <= begin' || begin' + n <= begin
  {
    var p: nat :| x == Lap(size, p) + begin;
    var q: nat :| y == Lap(size, q) + begin';
    if p < q {
      LapMonotone(size, p, q);
    } else if q < p {
      LapMonotone(size, q, p);
    }
    if p + 1 < q {
      LapMonotone(size, p + 1, q);
    }
  }

  /** In every reachable state two live allocations occupy disjoint bytes of the buffer, whatever the interleaving
      was. */
  lemma LiveBytesDisjoint(s: Ring, i: nat, j: nat)
    requires Inv(s) && i < j < |s.issued| && Live(s, i) && Live(s, j)
    ensures s.issued[i].begin + s.issued[i].n <= s.size && s.issued[j].begin + s.issued[j].n <= s.size
    ensures s.issued[i].begin + s.issued[i].n <= s.issued[j].begin ||
      s.issued[j].begin + s.issued[j].n <= s.issued[i].begin
  {
    hide IssuedOk;
    IssuedPlace(s, i);
    IssuedPlace(s, j);
    LiveStartsPastTail(s, i);
    TokensIncrease(s.size, s.issued, s.head, i, j);
    BeginInside(s, i);
    BeginInside(s, j);
    var a, b := s.issued[i], s.issued[j];
    DisjointBytes(s.size, a.token - a.n, a.n, a.begin, b.token - b.n, b.n, b.begin);
  }

  lemma BeginInside(s: Ring, i: nat)
    requires Inv(s) && i < |s.issued|
    ensures s.issued[i].begin < s.size
  {
    assert IssuedAt(s.size, s.issued, i);
    LapFacts(s.size, s.issued[i].start);
  }

  // ----- refinement of an atomic ring -----

  /** The ring as if every call were one step. */
  datatype Atomic = Atomic(size: nat, head: nat, tail: nat, issued: seq<Allocation>)

  function Abstract(s: Ring): Atomic {
    Atomic(s.size, s.head, s.tail, s.issued)
  }

  predicate HasRoom(a: Atomic, n: nat)
    requires a.size > 0
  {
    End(a.size, a.head, n) <= a.tail + a.size
  }

  /** There is room exactly if some position from the head on keeps the bytes in one lap and ends at most one buffer
      past the tail. */
  lemma HasRoomIsFit(a: Atomic, n: nat)
    requires a.size > 0 && a.tail <= a.head
    ensures HasRoom(a, n) <==> exists x: nat :: x >= a.head && InLap(a.size, x, n) && x + n <= a.tail + a.size
  {
    if n <= a.size {
      EndIsFirstFit(a.size, a.head, n);
      if HasRoom(a, n) {
        var x: nat := End(a.size, a.head, n) - n;
        assert x >= a.head && InLap(a.size, x, n) && x + n <= a.tail + a.size;
      }
    } else {
      LapFacts(a.size, a.head);
    }
  }

  /** What the atomic ring makes of a response: a refusal changes nothing, a grant takes the next positions,
      a free raises the tail to the token if it is not there yet. */
  function Apply(a: Atomic, r: Response): Atomic
    requires a.size > 0
  {
    match r
    case Refused(_, _) => a
    case Granted(b) => Atomic(a.size, b.token, a.tail, a.issued + [b])
    case Freed(token) => a.(tail := if token > a.tail then token else a.tail)
  }

  /** A grant is what the atomic ring would grant. A refusal is decided with some past head, and if there is room,
      then the space behind that head already ends behind the tail. */
  predicate Legal(a: Atomic, r: Response)
    requires a.size > 0
  {
    match r
    case Refused(n, head) =>
      head <= a.head && WasHead(a.issued, head) && (HasRoom(a, n) ==> End(a.size, head, n) < a.tail)
    case Granted(b) => HasRoom(a, b.n) && b == Committed(a.size, a.head, b.n)
    case Freed(token) => IsToken(a.issued, token)
  }

  /** Every step either ends a call and is that call's single atomic effect, or changes nothing shared. */
  lemma StepRefines(s: Ring, e: Event)
    requires Inv(s) && Enabled(s, e)
    ensures match ResponseOf(s, e)
      case None => Abstract(Next(s, e)) == Abstract(s)
      case Some(r) =>
        && Legal(Abstract(s), r) && Abstract(Next(s, e)) == Apply(Abstract(s), r)
        && LocalOf(Next(s, e), e.t) == Idle
  {
    hide IssuedOk, End, Total;
    assert LocalOk(s, LocalOf(s, e.t));
    if e.LoadTail? {
      StaleRefusal(s, e.t);
    }
  }

  /** The atomic ring's run over a history of responses. */
  function ApplyAll(a: Atomic, history: seq<Response>): Atomic
    requires a.size > 0
    decreases |history|
  {
    if history == [] then a else ApplyAll(Apply(a, history[0]), history[1..])
  }

  ghost predicate AllLegal(a: Atomic, history: seq<Response>)
    requires a.size > 0
    decreases |history|
  {
    history == [] || (Legal(a, history[0]) && AllLegal(Apply(a, history[0]), history[1..]))
  }

  /** The responses of a run, in the order in which the calls took effect. */
  function History(s: Ring, events: seq<Event>): seq<Response>
    requires s.size > 0 && Runs(s, events)
    decreases |events|
  {
    if events == [] then []
    else
      var rest := History(Next(s, events[0]), events[1..]);
      match ResponseOf(s, events[0])
      case None => rest
      case Some(r) => [r] + rest
  }

  /** Every concurrent run is a legal run of the atomic ring with the same allocations and the same counters. */
  lemma {:induction false} RunRefines(s: Ring, events: seq<Event>)
    requires Inv(s) && Runs(s, events)
    ensures AllLegal(Abstract(s), History(s, events))
    ensures Abstract(After(s, events)) == ApplyAll(Abstract(s), History(s, events))
    decreases |events|
  {
    hide Inv, Enabled, Next, ResponseOf, Legal, Apply;
    if events != [] {
      InvSize(s);
      StepRefines(s, events[0]);
      StepKeepsInv(s, events[0]);
      RunRefines(Next(s, events[0]), events[1..]);
    }
  }

  lemma InvSize(s: Ring)
    requires Inv(s)
    ensures s.size > 0
  {
  }

  // ----- refusals -----

  /** When there is room, `alloc` refuses exactly if the space behind its copy of the head ends behind the tail. */
  lemma StaleRefusal(s: Ring, t: nat)
    requires Inv(s) && LocalOf(s, t).AllocLoop?
    ensures var l := LocalOf(s, t);
      HasRoom(Abstract(s), l.n) ==> (ResponseOf(s, LoadTail(t)).Some? <==> End(s.size, l.head, l.n) < s.tail)
  {
    var l := LocalOf(s, t);
    assert LocalOk(s, l);
    EndMonotone(s.size, l.head, s.head, l.n);
  }

  /** A refusal decided with a head that is not behind the tail is the answer the atomic ring gives at that moment. */
  lemma RefusalIsHonest(s: Ring, t: nat)
    requires Inv(s) && LocalOf(s, t).AllocLoop? && s.tail <= LocalOf(s, t).head
    ensures ResponseOf(s, LoadTail(t)).Some? ==> !HasRoom(Abstract(s), LocalOf(s, t).n)
  {
    LapFacts(s.size, LocalOf(s, t).head);
    StaleRefusal(s, t);
  }

  lemma RunCons(s: Ring, e: Event, rest: seq<Event>, s': Ring)
    requires s.size > 0 && Enabled(s, e) && Next(s, e) == s' && s'.size > 0 && Runs(s', rest)
    ensures Runs(s, [e] + rest) && After(s, [e] + rest) == After(s', rest)
  {
    assert ([e] + rest)[1..] == rest;
  }

  lemma TwoSteps(s: Ring, e: Event, e': Event)
    requires s.size > 0 && Enabled(s, e) && Next(s, e).size > 0 && Enabled(Next(s, e), e')
    requires Next(Next(s, e), e').size > 0
    ensures Runs(s, [e, e']) && After(s, [e, e']) == Next(Next(s, e), e')
  {
    hide Enabled, Next;
    var s1 := Next(s, e);
    var s2 := Next(s1, e');
    assert Runs(s2, []) && After(s2, []) == s2;
    RunCons(s1, e', [], s2);
    RunCons(s, e, [e'] + [], s1);
    assert [e] + ([e'] + []) == [e, e'];
  }

  /** Thread 2 of a ring of ten takes bytes 0 to 4 ... */
  lemma TakeFive(s: Ring, rest: seq<Event>, s': Ring)
    requires s.size == 10 && s.head == s.tail == 0 && s.issued == [] && 2 !in s.threads
    requires s' == WithLocal(s.(head := 5, issued := [Allocation(5, 0, 0, 5)]), 2, Idle) && Runs(s', rest)
    ensures var events := [CallAlloc(2, 5)] + ([LoadHead(2)] + ([LoadTail(2)] + ([Commit(2, false)] + rest)));
      Runs(s, events) && After(s, events) == After(s', rest)
  {
    hide Runs, After;
    var s1 := WithLocal(s, 2, AllocStart(5));
    var s2 := WithLocal(s1, 2, AllocLoop(5, 0));
    var s3 := WithLocal(s2, 2, AllocCommit(5, 0, 0));
    RunCons(s3, Commit(2, false), rest, s');
    RunCons(s2, LoadTail(2), [Commit(2, false)] + rest, s3);
    RunCons(s1, LoadHead(2), [LoadTail(2)] + ([Commit(2, false)] + rest), s2);
    RunCons(s, CallAlloc(2, 5), [LoadHead(2)] + ([LoadTail(2)] + ([Commit(2, false)] + rest)), s1);
  }

  /** ... and gives them back. */
  lemma FreeFive(s: Ring, s': Ring)
    requires s.size == 10 && s.head == 5 && s.tail == 0 && s.issued == [Allocation(5, 0, 0, 5)] && LocalOf(s, 2).Idle?
    requires s' == WithLocal(s.(tail := 5), 2, Idle)
    ensures var events := [CallFree(2, 5)] + ([LoadFreeTail(2)] + ([Retire(2, false)] + []));
      Runs(s, events) && After(s, events) == s'
  {
    assert s.issued[0].token == 5;
    var s1 := WithLocal(s, 2, FreeStart(5));
    var s2 := WithLocal(s1, 2, FreeLoop(5, 0));
    assert Runs(s', []) && After(s', []) == s';
    hide Runs, After;
    RunCons(s2, Retire(2, false), [], s');
    RunCons(s1, LoadFreeTail(2), [Retire(2, false)] + [], s2);
    RunCons(s, CallFree(2, 5), [LoadFreeTail(2)] + ([Retire(2, false)] + []), s1);
  }

  /** A thread overtaken by an allocation and its free is refused one byte of an empty ring of ten. */
  lemma SpuriousRefusal() returns (events: seq<Event>, s: Ring)
    ensures Runs(Fresh(10), events) && s == After(Fresh(10), events)
    ensures s.size == 10 && s.head == s.tail && LocalOf(s, 1).AllocLoop?
    ensures ResponseOf(s, LoadTail(1)) == Some(Refused(1, 0)) && HasRoom(Abstract(s), 1)
  {
    hide Runs, After;
    var s1 := WithLocal(Fresh(10), 1, AllocStart(1));
    var s2 := WithLocal(s1, 1, AllocLoop(1, 0));
    var s6 := WithLocal(s2.(head := 5, issued := [Allocation(5, 0, 0, 5)]), 2, Idle);
    s := WithLocal(s6.(tail := 5), 2, Idle);
    var freeing := [CallFree(2, 5)] + ([LoadFreeTail(2)] + ([Retire(2, false)] + []));
    FreeFive(s6, s);
    TakeFive(s2, freeing, s6);
    var overtaking := [CallAlloc(2, 5)] + ([LoadHead(2)] + ([LoadTail(2)] + ([Commit(2, false)] + freeing)));
    RunCons(s1, LoadHead(1), overtaking, s2);
    RunCons(Fresh(10), CallAlloc(1, 1), [LoadHead(1)] + overtaking, s1);
    events := [CallAlloc(1, 1)] + ([LoadHead(1)] + overtaking);
  }

  // ----- progress -----

  /** Some event of another thread than `t` commits an allocation. */
  predicate OthersCommit(s: Ring, events: seq<Event>, t: nat)
    requires s.size > 0 && Runs(s, events)
    decreases |events|
  {
    events != [] &&
    ((events[0].t != t && events[0].Commit? && ResponseOf(s, events[0]).Some?)
     || OthersCommit(Next(s, events[0]), events[1..], t))
  }

  /** Between the load of the head and a commit that fails without being spurious, another thread has committed. */
  lemma {:induction false} FailedCommitMeansProgress(s: Ring, events: seq<Event>, t: nat)
    requires Inv(s) && Runs(s, events)
    requires LocalOf(s, t).AllocLoop? || LocalOf(s, t).AllocCommit?
    requires LocalOf(s, t).head == s.head
    requires forall k :: 0 <= k < |events| && events[k].t == t ==> events[k].LoadTail?
    requires After(s, events).size > 0 && Enabled(After(s, events), Commit(t, false))
    requires ResponseOf(After(s, events), Commit(t, false)).None?
    ensures OthersCommit(s, events, t)
    decreases |events|
  {
    hide Inv, Refuses, Committed, LocalOk;
    InvSize(s);
    if events != [] {
      var e, s' := events[0], Next(s, events[0]);
      StepKeepsInv(s, e);
      if e.t == t {
        // a load of the tail that ends the call leaves no commit behind
        StaysIdle(s', events[1..], t);
      }
      if s'.head == s.head && (e.t != t || LocalOf(s', t).AllocCommit?) {
        FailedCommitMeansProgress(s', events[1..], t);
      }
    }
  }

  /** A thread that only loads the tail starts no call. */
  lemma {:induction false} StaysIdle(s: Ring, events: seq<Event>, t: nat)
    requires s.size > 0 && Runs(s, events)
    requires forall k :: 0 <= k < |events| && events[k].t == t ==> events[k].LoadTail?
    ensures LocalOf(s, t).Idle? ==> LocalOf(After(s, events), t).Idle?
    decreases |events|
  {
    if events != [] && LocalOf(s, t).Idle? {
      StaysIdle(Next(s, events[0]), events[1..], t);
    }
  }

  /** Some event of another thread than `t` raises the tail. */
  predicate OthersRetire(s: Ring, events: seq<Event>, t: nat)
    requires s.size > 0 && Runs(s, events)
    decreases |events|
  {
    events != [] &&
    ((events[0].t != t && events[0].Retire? && Next(s, events[0]).tail > s.tail)
     || OthersRetire(Next(s, events[0]), events[1..], t))
  }

  /** Between a thread's last read of the tail and a try to raise it that fails without being spurious, another thread
      has raised it. */
  lemma {:induction false} FailedRetireMeansProgress(s: Ring, events: seq<Event>, t: nat)
    requires Inv(s) && Runs(s, events)
    requires LocalOf(s, t).FreeLoop? && LocalOf(s, t).tail == s.tail
    requires forall k :: 0 <= k < |events| ==> events[k].t != t
    requires After(s, events).size > 0 && Enabled(After(s, events), Retire(t, false))
    requires ResponseOf(After(s, events), Retire(t, false)).None?
    ensures OthersRetire(s, events, t)
    decreases |events|
  {
    hide Inv, Refuses, Committed, LocalOk;
    InvSize(s);
    if events != [] {
      var s' := Next(s, events[0]);
      StepKeepsInv(s, events[0]);
      TailOnlyGrows(s, events[0]);
      if s'.tail == s.tail {
        FailedRetireMeansProgress(s', events[1..], t);
      }
    }
  }

  /** Only a retire moves the tail, and only upwards. */
  lemma TailOnlyGrows(s: Ring, e: Event)
    requires s.size > 0 && Enabled(s, e)
    ensures Next(s, e).tail >= s.tail && (Next(s, e).tail > s.tail ==> e.Retire?)
  {
  }

  // ----- max_alloc -----

  /** `max_alloc` on the counters as they are. */
  function MaxAlloc(size: nat, head: nat, tail: nat): nat
    requires size > 0 && tail <= head
  {
    if head - tail >= size then 0
    else
      var h, t := head % size, tail % size;
      if h < t then t - h
      else if size - h > t then size - h else t
  }

  /** With nobody else at work, `alloc(n)` succeeds exactly when `n <= max_alloc()`: empty, full, wrapped or not. */
  lemma MaxAllocIsExact(a: Atomic, n: nat)
    requires a.size > 0 && a.tail <= a.head <= a.tail + a.size
    ensures HasRoom(a, n) <==> n <= MaxAlloc(a.size, a.head, a.tail)
  {
    var size, head, tail := a.size, a.head, a.tail;
    LapFacts(size, head);
    LapFacts(size, tail);
    LapOrder(size, tail, head);
    if head - tail < size {
      NextLap(size, tail, head);
    }
  }

  /** Less than a lap apart means the same lap or the next one. */
  lemma NextLap(size: nat, tail: nat, head: nat)
    requires size > 0 && tail <= head < tail + size
    ensures LapStart(size, head) == LapStart(size, tail) || LapStart(size, head) == LapStart(size, tail) + size
  {
    LapFacts(size, head);
    LapFacts(size, tail);
    LapOrder(size, tail, head);
    if head / size > tail / size + 1 {
      LapMonotone(size, tail / size + 1, head / size);
    } else if head / size < tail / size {
      LapMonotone(size, head / size, tail / size);
    }
  }

  /** A call that nobody interferes with: load the head, load the tail, commit. */
  lemma {:induction false} QuietAlloc(s: Ring, t: nat, n: nat)
    requires Inv(s) && LocalOf(s, t).Idle?
    ensures Runs(s, [CallAlloc(t, n), LoadHead(t)])
    ensures var s2 := After(s, [CallAlloc(t, n), LoadHead(t)]);
      && s2.size > 0 && Enabled(s2, LoadTail(t))
      && (n <= MaxAlloc(s.size, s.head, s.tail) ==>
            Enabled(Next(s2, LoadTail(t)), Commit(t, false)) &&
            ResponseOf(Next(s2, LoadTail(t)), Commit(t, false)) == Some(Granted(Committed(s.size, s.head, n))))
      && (n > MaxAlloc(s.size, s.head, s.tail) ==> ResponseOf(s2, LoadTail(t)) == Some(Refused(n, s.head)))
  {
    hide MaxAlloc, Total, IssuedOk, Runs, After;
    var events := [CallAlloc(t, n), LoadHead(t)];
    var s1 := Next(s, events[0]);
    var s2 := Next(s1, events[1]);
    TwoSteps(s, events[0], events[1]);
    MaxAllocIsExact(Abstract(s), n);
  }

  // ----- retries -----

  /** A commit that failed has reloaded the head: left alone, the next try is granted behind it exactly if there is
      room. */
  lemma FailedCommitRetries(s: Ring, t: nat, spurious: bool)
    requires Inv(s) && Enabled(s, Commit(t, spurious)) && ResponseOf(s, Commit(t, spurious)).None?
    ensures var n, s1 := LocalOf(s, t).n, Next(s, Commit(t, spurious));
      && Abstract(s1) == Abstract(s) && Enabled(s1, LoadTail(t))
      && (n <= MaxAlloc(s.size, s.head, s.tail) ==>
        && Enabled(Next(s1, LoadTail(t)), Commit(t, false))
        && ResponseOf(Next(s1, LoadTail(t)), Commit(t, false)) == Some(Granted(Committed(s.size, s.head, n))))
      && (n > MaxAlloc(s.size, s.head, s.tail) ==> ResponseOf(s1, LoadTail(t)) == Some(Refused(n, s.head)))
  {
    hide MaxAlloc, Total, IssuedOk;
    MaxAllocIsExact(Abstract(s), LocalOf(s, t).n);
  }

  /** A try to raise the tail that failed has reloaded it: left alone, the next one ends the call. */
  lemma FailedRetireRetries(s: Ring, t: nat, spurious: bool)
    requires Inv(s) && Enabled(s, Retire(t, spurious)) && ResponseOf(s, Retire(t, spurious)).None?
    ensures var s1 := Next(s, Retire(t, spurious));
      && Abstract(s1) == Abstract(s) && Enabled(s1, Retire(t, false))
      && ResponseOf(s1, Retire(t, false)) == Some(Freed(LocalOf(s, t).token))
  {
  }

  /** A `free` that nobody interferes with: load the tail, raise it. */
  lemma QuietFree(s: Ring, t: nat, token: nat)
    requires Inv(s) && LocalOf(s, t).Idle? && IsToken(s.issued, token)
    ensures var events := [CallFree(t, token), LoadFreeTail(t)];
      && Runs(s, events) && After(s, events).size > 0 && Enabled(After(s, events), Retire(t, false))
      && ResponseOf(After(s, events), Retire(t, false)) == Some(Freed(token))
      && Next(After(s, events), Retire(t, false)).tail == if token > s.tail then token else s.tail
  {
    hide IssuedOk, Runs, After;
    var events := [CallFree(t, token), LoadFreeTail(t)];
    var s1 := Next(s, events[0]);
    var s2 := Next(s1, events[1]);
    TwoSteps(s, events[0], events[1]);
  }
}
