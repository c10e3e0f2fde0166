/** Whole runs of the allocator: any sequence of requests, seen through what callers are told. */
module MiniramRuns {
  import opened Collections
  import opened Words
  import opened TinyFloat
  import opened Nodes
  import opened Edits
  import opened Memmoves
  import opened Compaction
  import opened Rebuild
  import opened Pools
  import M = Miniram

  datatype Request = Allocate(size: nat) | Free(id: int)

  /** What a request led to; `Ignored` is a free of an id that is not live, which callers must not ask for. */
  datatype Event = Allocated(id: int, block: Block) | Refused | Freed(id: int) | Ignored

  /** What callers hold after one more event. */
  function After(held: map<int, Block>, event: Event): map<int, Block> {
    if event.Allocated? then held[event.id := event.block]
    else if event.Freed? then held - {event.id}
    else held
  }

  /** The blocks that callers hold after a history. */
  function Held(events: seq<Event>): map<int, Block> {
    if events == [] then map[] else After(Held(events[..|events| - 1]), events[|events| - 1])
  }

  predicate Apart(b: Block, c: Block) {
    b.offset + b.size <= c.offset || c.offset + c.size <= b.offset
  }

  /** Held blocks lie in the memory and are pairwise apart. */
  predicate Placed(held: map<int, Block>, capacity: nat) {
    && (forall x :: x in held ==> held[x].offset + held[x].size <= capacity)
    && forall x, y :: x in held && y in held && x != y ==> Apart(held[x], held[y])
  }

  /** `segs` is a memory in which exactly the held blocks are in use: it tiles `[0, capacity)`, and what is free
      between two of them is one block. */
  ghost predicate IsMemory(segs: seq<Segment>, held: map<int, Block>, capacity: nat) {
    && segs != [] && segs[0].offset == 0
    && (forall i :: 0 <= i < |segs| ==> Adjoins(segs, capacity, i))
    && (forall i :: 0 <= i < |segs| ==> ShowsHeld(segs[i], held))
    && forall x :: x in held ==> Shown(segs, x)
  }

  /** Segment `i` ends where the next one begins, and not both are free. */
  predicate Adjoins(segs: seq<Segment>, capacity: nat, i: nat)
    requires i < |segs|
  {
    var s := segs[i];
    var last := i + 1 == |segs|;
    && s.offset + s.size == (if last then capacity else segs[i + 1].offset)
    && (!last ==> s.used || segs[i + 1].used)
  }

  predicate ShowsHeld(s: Segment, held: map<int, Block>) {
    s.used ==> s.id in held && held[s.id] == Block(s.offset, s.size)
  }

  predicate Shown(segs: seq<Segment>, x: int) {
    exists i :: 0 <= i < |segs| && segs[i].used && segs[i].id == x
  }

  /** `block` is the front of a free block in the lowest bin that guarantees its size. */
  ghost predicate Carves(segs: seq<Segment>, block: Block) {
    exists at: nat :: BestFit(segs, block.size, at) && segs[at].offset == block.offset
  }

  /** The last event answers the request in the light of the blocks held and the memory before it: a request is refused
      exactly if no free block suits it. */
  ghost predicate Answers(request: Request, event: Event, held: map<int, Block>, segs: seq<Segment>) {
    match request
    case Allocate(size) =>
      if Fits(segs, size)
        then event.Allocated? && event.id !in held && event.block.size == size && Carves(segs, event.block)
        else event.Refused?
    case Free(id) => event == if id in held then Freed(id) else Ignored
  }

  /** Request `k` of a history is answered rightly and leaves a memory that shows what is then held. */
  ghost predicate StepOk(requests: seq<Request>, events: seq<Event>, memories: seq<seq<Segment>>, capacity: nat, k: nat)
    requires |requests| == |events| && |memories| == |events| + 1 && k < |events|
  {
    && Answers(requests[k], events[k], Held(events[..k]), memories[k])
    && Placed(Held(events[..k + 1]), capacity)
    && IsMemory(memories[k + 1], Held(events[..k + 1]), capacity)
  }

  ghost predicate Coherent(requests: seq<Request>, events: seq<Event>, memories: seq<seq<Segment>>, capacity: nat) {
    && |events| == |requests| && |memories| == |events| + 1
    && IsMemory(memories[0], map[], capacity)
    && forall k :: 0 <= k < |events| ==> StepOk(requests, events, memories, capacity, k)
  }

  lemma NothingYet(memory: seq<Segment>, capacity: nat)
    requires IsMemory(memory, map[], capacity)
    ensures Coherent([], [], [memory], capacity) && Held([]) == map[]
  {
  }

  lemma HeldStep(events: seq<Event>, event: Event)
    ensures Held(events + [event]) == After(Held(events), event)
  {
    assert (events + [event])[..|events|] == events;
  }

  lemma CoherentStep(requests: seq<Request>, events: seq<Event>, memories: seq<seq<Segment>>, capacity: nat,
    request: Request, event: Event, memory: seq<Segment>)
    requires Coherent(requests, events, memories, capacity)
    requires Answers(request, event, Held(events), memories[|events|])
    requires Placed(Held(events + [event]), capacity) && IsMemory(memory, Held(events + [event]), capacity)
    ensures Coherent(requests + [request], events + [event], memories + [memory], capacity)
  {
    hide Answers, Placed, IsMemory, Held;
    var requests', events', memories' := requests + [request], events + [event], memories + [memory];
    forall k | 0 <= k < |events'| ensures StepOk(requests', events', memories', capacity, k) {
      if k < |events| {
        assert StepOk(requests, events, memories, capacity, k);
        assert events'[..k] == events[..k] && events'[..k + 1] == events[..k + 1];
      } else {
        assert events'[..k] == events && events'[..k + 1] == events';
      }
    }
  }

  lemma LiveShown(ram: M.Miniram)
    requires ram.Valid()
    ensures IsMemory(ram.Segments(), ram.Live(), ram.capacity)
  {
    hide M.Miniram.Valid;
    ram.ValidShape();
    ChainShown(ram.nodes, ram.chain, ram.capacity);
  }

  lemma ChainShown(nodes: seq<Node>, chain: seq<int>, capacity: nat)
    requires ChainOk(nodes, chain, capacity)
    ensures IsMemory(SegmentsOf(nodes, chain), LiveOf(nodes, chain), capacity)
  {
    var segs, held := SegmentsOf(nodes, chain), LiveOf(nodes, chain);
    forall i | 0 <= i < |segs| ensures Adjoins(segs, capacity, i) && ShowsHeld(segs[i], held) {
      assert Linked(nodes, chain, capacity, i) && segs[i] == SegmentAt(nodes, chain, i);
      assert i + 1 < |segs| ==> segs[i + 1] == SegmentAt(nodes, chain, i + 1);
    }
    forall x | x in held ensures Shown(segs, x) {
      var i :| 0 <= i < |chain| && chain[i] == x;
      assert segs[i] == SegmentAt(nodes, chain, i);
    }
    assert segs[0] == SegmentAt(nodes, chain, 0);
  }

  lemma LivePlaced(ram: M.Miniram)
    requires ram.Valid()
    ensures Placed(ram.Live(), ram.capacity)
  {
    var held := ram.Live();
    forall x | x in held ensures held[x].offset + held[x].size <= ram.capacity {
      ram.LiveBlocksDisjoint(x, x);
    }
    forall x, y | x in held && y in held && x != y ensures Apart(held[x], held[y]) {
      ram.LiveBlocksDisjoint(x, y);
    }
  }

  /** Every run of a fresh allocator keeps its structures consistent and its live blocks apart, and answers every
      request as the memory at that moment demands; if the caller has freed everything, in whatever order, one free
      block is left. */
  method Run(width: nat, capacity: nat, allocCapacity: nat, requests: seq<Request>)
    returns (ram: M.Miniram, events: seq<Event>, ghost memories: seq<seq<Segment>>)
    requires width in {8, 16, 32, 64} && capacity < Pow2(width) && allocCapacity >= 1
    requires forall k :: 0 <= k < |requests| && requests[k].Allocate? ==> requests[k].size < Pow2(width)
    ensures ram.Valid() && ram.capacity == capacity
    ensures Coherent(requests, events, memories, capacity)
    ensures ram.Live() == Held(events) && ram.Segments() == memories[|events|]
    ensures Held(events) == map[] ==> |ram.chain| == 1 && ram.Segments() == [Segment(0, capacity, false, ram.chain[0])]
  {
    hide *;
    ram := new M.Miniram(width, capacity, allocCapacity);
    events, memories := [], [ram.Segments()];
    LiveShown(ram);
    NothingYet(ram.Segments(), capacity);
    var k := 0;
    while k < |requests|
      invariant 0 <= k <= |requests| && |events| == k && |memories| == k + 1
      invariant ram.Valid() && ram.capacity == capacity && ram.width == width
      invariant fresh(ram) && fresh(ram.usedBins) && fresh(ram.binIndices)
      invariant Coherent(requests[..k], events, memories, capacity)
      invariant ram.Live() == Held(events) && ram.Segments() == memories[k]
    {
      var event := Serve(ram, requests[k]);
      HeldStep(events, event);
      LivePlaced(ram);
      LiveShown(ram);
      CoherentStep(requests[..k], events, memories, capacity, requests[k], event, ram.Segments());
      events, memories := events + [event], memories + [ram.Segments()];
      assert requests[..k] + [requests[k]] == requests[..k + 1];
      k := k + 1;
    }
    assert requests[..k] == requests;
    if Held(events) == map[] {
      ram.AllFreedIsOneBlock();
    }
  }

  method Serve(ram: M.Miniram, request: Request) returns (event: Event)
    requires ram.Valid() && (request.Allocate? ==> request.size < Pow2(ram.width))
    modifies ram, ram.usedBins, ram.binIndices
    ensures ram.Valid() && ram.capacity == old(ram.capacity)
    ensures Answers(request, event, old(ram.Live()), old(ram.Segments()))
    ensures ram.Live() == After(old(ram.Live()), event)
  {
    hide M.Miniram.Valid, Fits, BestFit, SegmentsOf, LiveOf, Sliced, TakesHead, Merged;
    ghost var nodes, chain := ram.nodes, ram.chain;
    match request {
      case Allocate(size) =>
        var r, at, rest := ram.Allocate(size);
        if r.id == INVALID {
          event := Refused;
        } else {
          SlicedLive(nodes, chain, ram.nodes, ram.chain, at, size, rest);
          assert r.offset == SegmentsOf(nodes, chain)[at].offset;
          event := Allocated(r.id, Block(r.offset, size));
        }
      case Free(id) =>
        var held := ram.Holds(id);
        if held {
          var i, a, b := ram.Free(Alloc(0, id));
          MergedLive(nodes, chain, ram.nodes, ram.chain, i, a, b, ram.capacity);
          event := Freed(id);
        } else {
          event := Ignored;
        }
    }
  }

  lemma SlicedLive(nodes: seq<Node>, chain: seq<int>, nodes': seq<Node>, chain': seq<int>, at: nat, size: nat,
    rest: int)
    requires Sliced(nodes, chain, nodes', chain', at, size, rest)
    ensures InTable(nodes, chain) && InTable(nodes', chain') && at < |chain|
    ensures var s := SegmentsOf(nodes, chain)[at];
      s.id !in LiveOf(nodes, chain) && LiveOf(nodes', chain') == LiveOf(nodes, chain)[s.id := Block(s.offset, size)]
  {
    assert SegmentsOf(nodes, chain)[at] == SegmentAt(nodes, chain, at);
  }

  lemma MergedLive(nodes: seq<Node>, chain: seq<int>, nodes': seq<Node>, chain': seq<int>, i: nat, a: nat, b: nat,
    capacity: nat)
    requires Merged(nodes, chain, nodes', chain', i, a, b, capacity)
    ensures InTable(nodes, chain) && InTable(nodes', chain') && i < |chain|
    ensures LiveOf(nodes', chain') == LiveOf(nodes, chain) - {chain[i]}
  {
  }

  /** In a coherent run an allocation keeps its offset and size until it is freed. */
  lemma {:induction false} AllocationsStay(requests: seq<Request>, events: seq<Event>, memories: seq<seq<Segment>>,
    capacity: nat, k: nat, m: nat)
    requires Coherent(requests, events, memories, capacity) && k < m <= |events| && events[k].Allocated?
    requires forall j :: k < j < m ==> events[j] != Freed(events[k].id)
    ensures events[k].id in Held(events[..m]) && Held(events[..m])[events[k].id] == events[k].block
    decreases m
  {
    hide IsMemory, Placed, Fits, Carves;
    assert events[..m][..m - 1] == events[..m - 1];
    if m - 1 > k {
      AllocationsStay(requests, events, memories, capacity, k, m - 1);
      assert StepOk(requests, events, memories, capacity, m - 1);
    }
  }

  // ----- defragmentation with its data -----

  /** A whole defragmentation of a memory: the report's moves, rewritten into copies that never overlap, are carried out
      in order. The data of every block in use ends up at its gapless offset, which is the one reported, and its node
      says so unless the block's id is among those popped for the free space. */
  method DefragmentMemory<T>(ram: M.Miniram, newSize: nat, order: seq<int>, mem: seq<T>)
    returns (mem': seq<T>, copies: seq<Move>, report: Defrag)
    requires ram.Valid() && newSize < Pow2(ram.width) && SortedUsed(ram.nodes, order) && |mem| == ram.capacity
    requires CanPop(ram.nodes, newSize, order)
    requires NoneToTheRight(BlocksOf(ram.nodes, order), |order|)
    modifies ram, ram.usedBins, ram.binIndices
    ensures |mem'| == |mem| && |ram.nodes| == |old(ram.nodes)|
    ensures forall k :: 0 <= k < |copies| ==> Disjunct(copies[k])
    ensures |report.updatedAllocs| == |order|
    ensures forall i :: 0 <= i < |order| ==>
      && Gapless(old(ram.nodes), order, report.updatedAllocs, i)
      && DataMoved(old(ram.nodes), order, i, mem, mem', report.updatedAllocs[i].offset)
    ensures forall i :: 0 <= i < |order| ==> (Relocated(old(ram.nodes), ram.nodes, order, i) <==>
      order[i] !in old(PoppedIds(ram.nodes, ram.freeNodes, newSize, order)))
  {
    hide M.Miniram.Valid, Ordered, Inside, CompactMoves, Updates, FreshPops, UnusedIds, Pieces, Leftover, RunMoves,
      DisjunctCopies, AllInMemory, GoLeft, DataMoved, BlocksOf, M.Miniram.Lists, TiledTo, SortedUsed, Relocated, Pos,
      CanPop, PoppedIds, PopsSpare, NoneToTheRight, Gapless;
    ghost var nodes0, capacity0 := ram.nodes, ram.capacity;
    UsedInOrder(nodes0, nodes0, order);
    ghost var blocks := BlocksOf(nodes0, order);
    report := ram.Defragment(newSize, order);
    MovesGoLeft(blocks, |blocks|);
    LeftIsSplittable(report.moves);
    copies := ToDisjunctCopies(report.moves);
    CopiesDoTheJob(nodes0, order, mem, report.moves);
    UpdatesAreGapless(nodes0, order);
    mem' := RunMoves(mem, copies);
  }

  /** Block `i`'s data has come to offset `p`. */
  predicate DataMoved<T(==)>(nodes: seq<Node>, order: seq<int>, i: nat, mem: seq<T>, mem': seq<T>, p: int)
    requires InTable(nodes, order) && i < |order|
  {
    var b := nodes[order[i]];
    b.offset + b.size <= |mem| && 0 <= p && p + b.size <= |mem'| &&
      mem'[p..p + b.size] == mem[b.offset..b.offset + b.size]
  }

  lemma LeftIsSplittable(moves: seq<Move>)
    requires GoLeft(moves)
    ensures forall i :: 0 <= i < |moves| ==> Splittable(moves[i])
  {
  }

  lemma {:induction false} CopiesDoTheJob<T>(nodes: seq<Node>, order: seq<int>, mem: seq<T>, moves: seq<Move>)
    requires InTable(nodes, order)
    requires Ordered(BlocksOf(nodes, order)) && Inside(BlocksOf(nodes, order), |mem|)
    requires moves == CompactMoves(BlocksOf(nodes, order), |order|) && GoLeft(moves)
    ensures forall i :: 0 <= i < |moves| ==> Splittable(moves[i])
    ensures AllInMemory(mem, DisjunctCopies(moves)) && forall k :: 0 <= k < |DisjunctCopies(moves)| ==>
      Disjunct(DisjunctCopies(moves)[k])
    ensures forall i :: 0 <= i < |order| ==>
      DataMoved(nodes, order, i, mem, RunMoves(mem, DisjunctCopies(moves)), Pos(BlocksOf(nodes, order), i))
  {
    hide RunMoves, DisjunctCopies, CompactMoves, GoLeft, AllInMemory, Ordered;
    LeftIsSplittable(moves);
    DisjunctCopiesShape(moves);
    AllCopiesInMemory(mem, BlocksOf(nodes, order), moves);
    var copies := DisjunctCopies(moves);
    forall i | 0 <= i < |order|
      ensures DataMoved(nodes, order, i, mem, RunMoves(mem, copies), Pos(BlocksOf(nodes, order), i))
    {
      CompactionByCopies(mem, BlocksOf(nodes, order), moves, i);
    }
  }

  lemma AllCopiesInMemory<T>(mem: seq<T>, blocks: seq<Block>, moves: seq<Move>)
    requires Ordered(blocks) && Inside(blocks, |mem|) && moves == CompactMoves(blocks, |blocks|) && GoLeft(moves)
    ensures forall i :: 0 <= i < |moves| ==> Splittable(moves[i])
    ensures AllInMemory(mem, DisjunctCopies(moves))
  {
    hide DisjunctCopies, CompactMoves;
    CompactMovesInMemory(mem, blocks, |blocks|);
    DisjunctCopiesRun(mem, moves);
  }

  // ----- a run that defragmentation breaks -----

  /** Only one block can suit when only one is free. */
  lemma OnlyFree(segs: seq<Segment>, size: nat, i: nat)
    requires i < |segs| && !segs[i].used && forall k :: 0 <= k < |segs| && k != i ==> segs[k].used
    requires size <= Value(FloorToFloat(segs[i].size))
    ensures Fits(segs, size) && forall at :: BestFit(segs, size, at) ==> at == i
  {
    SuitsIsRounded(segs[i], size);
  }

  /** Sizes of up to eight are bins of their own. */
  lemma SmallFits(size: nat, n: nat)
    requires size <= n && size <= 8
    ensures size <= Value(FloorToFloat(n))
  {
    FloorGalois(n, size);
    if FloorToFloat(n) > size {
      ValueIncreasing(size, FloorToFloat(n));
    }
  }

  lemma NineBelowWord()
    ensures 9 < Pow2(32)
  {
    assert Pow2(4) == 16;
    Pow2Monotone(4, 32);
  }

  /** Slicing block `at`. */
  lemma SliceShows(nodes: seq<Node>, chain: seq<int>, nodes': seq<Node>, chain': seq<int>, at: nat, size: nat,
    rest: int, segs: seq<Segment>)
    requires Sliced(nodes, chain, nodes', chain', at, size, rest) && SegmentsOf(nodes, chain) == segs
    ensures InTable(nodes', chain') && at < |segs| && size <= segs[at].size
    ensures SegmentsOf(nodes', chain') == Spliced(segs, at, at + 1, Carved(segs[at], size, rest))
    ensures |chain'| == if size < segs[at].size then |chain| + 1 else |chain|
  {
  }

  /** `size` elements off the only free block, without growing the node table. */
  method AllocateFrom(ram: M.Miniram, size: nat, ghost i: nat) returns (r: Alloc)
    requires ram.Valid() && size < Pow2(ram.width) && ram.Spare() != []
    requires i < |ram.Segments()| && !ram.Segments()[i].used && size <= 8 && size <= ram.Segments()[i].size
    requires forall k :: 0 <= k < |ram.Segments()| && k != i ==> ram.Segments()[k].used
    modifies ram, ram.usedBins, ram.binIndices
    ensures ram.Valid() && ram.capacity == old(ram.capacity) && |ram.nodes| == |old(ram.nodes)|
    ensures ram.freeNodes == old(ram.freeNodes)
    ensures r.id == old(ram.Segments())[i].id
    ensures ram.Segments()
      == Spliced(old(ram.Segments()), i, i + 1, Carved(old(ram.Segments())[i], size, old(ram.Spare())[0]))
    ensures ram.Spare() == if size < old(ram.Segments())[i].size then old(ram.Spare())[1..] else old(ram.Spare())
  {
    hide Sliced, SegmentsOf, FloorToFloat, Fits, BestFit, M.Miniram.Valid, LiveOf, Spliced, Carved;
    ghost var segs, nodes, chain := ram.Segments(), ram.nodes, ram.chain;
    ram.IdsShareTable();
    SmallFits(size, segs[i].size);
    OnlyFree(segs, size, i);
    ghost var at, rest;
    r, at, rest := ram.Allocate(size);
    SliceShows(nodes, chain, ram.nodes, ram.chain, i, size, rest, segs);
    ram.IdsShareTable();
  }

  /** Where the memory before segment `i` ends. */
  function Edge(segs: seq<Segment>, capacity: nat, i: nat): nat
    requires i <= |segs|
  {
    if i == |segs| then capacity else segs[i].offset
  }

  /** What freeing block `i` leaves: it and its free neighbours are one free block. */
  function Released(segs: seq<Segment>, capacity: nat, i: nat): seq<Segment>
    requires i < |segs|
  {
    var a := if i > 0 && !segs[i - 1].used then i - 1 else i;
    var b := if i + 1 < |segs| && !segs[i + 1].used then i + 2 else i + 1;
    var start, end := Edge(segs, capacity, a), Edge(segs, capacity, b);
    Spliced(segs, a, b, [Segment(start, if start <= end then end - start else 0, false, segs[i].id)])
  }

  /** The ids this gives back. */
  function ReleasedIds(segs: seq<Segment>, i: nat): seq<int>
    requires i < |segs|
  {
    (if i + 1 < |segs| && !segs[i + 1].used then [segs[i + 1].id] else [])
    + if i > 0 && !segs[i - 1].used then [segs[i - 1].id] else []
  }

  /** Freeing, on the segments. */
  lemma MergeShows(nodes: seq<Node>, chain: seq<int>, nodes': seq<Node>, chain': seq<int>, i: nat, a: nat, b: nat,
    capacity: nat, segs: seq<Segment>)
    requires Merged(nodes, chain, nodes', chain', i, a, b, capacity) && SegmentsOf(nodes, chain) == segs
    ensures InTable(nodes', chain') && SegmentsOf(nodes', chain') == Released(segs, capacity, i)
    ensures Returned(chain, i, a, b) == ReleasedIds(segs, i)
  {
    assert segs[i] == SegmentAt(nodes, chain, i);
    assert i > 0 ==> segs[i - 1] == SegmentAt(nodes, chain, i - 1);
    assert i + 1 < |chain| ==> segs[i + 1] == SegmentAt(nodes, chain, i + 1);
    assert b < |chain| ==> segs[b] == SegmentAt(nodes, chain, b);
  }

  /** `free` of block `i`. */
  method Release(ram: M.Miniram, id: int, ghost i: nat)
    requires ram.Valid() && i < |ram.Segments()| && ram.Segments()[i].used && ram.Segments()[i].id == id
    modifies ram, ram.usedBins, ram.binIndices
    ensures ram.Valid() && ram.capacity == old(ram.capacity) && |ram.nodes| == |old(ram.nodes)|
    ensures ram.Segments() == Released(old(ram.Segments()), ram.capacity, i)
    ensures ram.Spare() == ReleasedIds(old(ram.Segments()), i) + old(ram.Spare())
  {
    hide SegmentsOf, M.Miniram.Valid, Merged, Released, ReleasedIds, Returned;
    ghost var segs, nodes, chain := ram.Segments(), ram.nodes, ram.chain;
    UsedIsLive(nodes, chain, i);
    ram.ValidShape();
    ChainTable(nodes, chain, ram.capacity);
    ghost var k, a, b;
    k, a, b := ram.Free(Alloc(0, id));
    assert k == i;
    MergeShows(nodes, chain, ram.nodes, ram.chain, i, a, b, ram.capacity, segs);
  }

  lemma UsedIsLive(nodes: seq<Node>, chain: seq<int>, i: nat)
    requires InTable(nodes, chain) && i < |chain| && SegmentsOf(nodes, chain)[i].used
    ensures SegmentsOf(nodes, chain)[i].id == chain[i] && chain[i] in LiveOf(nodes, chain)
  {
    assert SegmentsOf(nodes, chain)[i] == SegmentAt(nodes, chain, i);
    assert chain[i] in Elements(chain);
  }

  lemma CarveOnly(s: Segment, size: nat, rest: int)
    requires size <= s.size
    ensures Spliced([s], 0, 1, Carved(s, size, rest)) == Carved(s, size, rest)
  {
  }

  lemma CarveSecond(r: Segment, s: Segment, size: nat, rest: int)
    requires size <= s.size
    ensures Spliced([r, s], 1, 2, Carved(s, size, rest)) == [r] + Carved(s, size, rest)
  {
  }

  /** What two allocations of `a` and `b` elements leave of a free memory of nine elements: two used nodes, side by
      side, and one free one behind them. */
  method AllocateTwice(ram: M.Miniram, a: nat, b: nat, ghost x: int, ghost y: int, ghost z: int)
    requires ram.Valid() && a <= 4 && b <= 4 && ram.width == 32 && ram.capacity == 9
    requires ram.Segments() == [Segment(0, 9, false, x)] && |ram.Spare()| >= 2 && ram.Spare()[..2] == [y, z]
    modifies ram, ram.usedBins, ram.binIndices
    ensures ram.Valid() && ram.capacity == 9 && |ram.nodes| == |old(ram.nodes)|
    ensures ram.freeNodes == old(ram.freeNodes) && ram.Spare() == old(ram.Spare())[2..]
    ensures ram.Segments() == [Segment(0, a, true, x), Segment(a, b, true, y), Segment(a + b, 9 - a - b, false, z)]
  {
    hide *;
    NineBelowWord();
    CarveOnly(Segment(0, 9, false, x), a, y);
    CarvedInTwo(Segment(0, 9, false, x), a, y);
    var first := AllocateFrom(ram, a, 0);
    CarveSecond(Segment(0, a, true, x), Segment(a, 9 - a, false, y), b, z);
    CarvedInTwo(Segment(a, 9 - a, false, y), b, z);
    var second := AllocateFrom(ram, b, 1);
  }

  lemma CarvedInTwo(s: Segment, size: nat, rest: int)
    requires size < s.size
    ensures Carved(s, size, rest)
      == [Segment(s.offset, size, true, s.id), Segment(s.offset + size, s.size - size, false, rest)]
  {
  }

  /** The table behind such a memory: exactly the nodes `x` and `y` are in use. */
  lemma TwoUsed(nodes: seq<Node>, chain: seq<int>, a: nat, b: nat, x: int, y: int, z: int)
    requires |nodes| == 3 && {x, y, z} == {0, 1, 2} && InTable(nodes, chain) && UsedOnChain(nodes, chain) && a + b <= 9
    requires SegmentsOf(nodes, chain)
      == [Segment(0, a, true, x), Segment(a, b, true, y), Segment(a + b, 9 - a - b, false, z)]
    ensures 0 <= x < 3 && 0 <= y < 3 && 0 <= z < 3 && x != y
    ensures chain == [x, y, z] && nodes[x].used && nodes[y].used && !nodes[z].used
    ensures nodes[x].offset == 0 && nodes[x].size == a && nodes[y].offset == a && nodes[y].size == b
  {
    var segs := SegmentsOf(nodes, chain);
    assert 0 in {x, y, z} && 1 in {x, y, z} && 2 in {x, y, z};
    assert x in {0, 1, 2} && y in {0, 1, 2} && z in {0, 1, 2};
    assert segs[0] == SegmentAt(nodes, chain, 0) && segs[1] == SegmentAt(nodes, chain, 1) &&
      segs[2] == SegmentAt(nodes, chain, 2);
  }

  /** In the order in which `defragment` collects them, the ids in use are 0 and 1. */
  lemma CollectedZeroOne(nodes: seq<Node>)
    requires |nodes| == 3 && nodes[0].used && nodes[1].used && !nodes[2].used
    ensures UsedIds(nodes, 3) == [0, 1] && |UnusedIds(nodes, 3)| == 1
  {
    assert UsedIds(nodes, 1) == [0] && UsedIds(nodes, 2) == [0, 1];
  }

  /** After two allocations of four elements in a table of three nodes, a defragmentation pops the id of the second
      allocation for the one free element: the node of a live block becomes the free block. */
  method DefragmentAfterTwoAllocations() returns (ram: M.Miniram, report: Defrag)
    ensures |ram.nodes| == 3 && ram.chain == [0, 1, 1] && !ram.nodes[1].used
  {
    hide SegmentsOf, M.Miniram.Valid, M.Miniram.Lists, UnusedIds, UsedIds, Restacked, Pieces, CompactMoves, Updates,
      TiledTo, FreshPops, Relocated, Ordered, Inside, ChainOk, Linked, FloorToFloat, Value, Pow2, Pos, IdsOk,
      StackRecovers, LiveOf;
    NineBelowWord();
    ram := new M.Miniram(32, 9, 2);
    AllocateTwice(ram, 4, 4, 0, 1, 2);
    ram.ValidShape();
    TwoUsed(ram.nodes, ram.chain, 4, 4, 0, 1, 2);
    CollectedZeroOne(ram.nodes);
    OneElementLeft(ram.nodes);
    PoppedOne(ram.freeNodes, 1);
    report := ram.Defragment(9, [0, 1]);
  }

  lemma OneElementLeft(nodes: seq<Node>)
    requires |nodes| >= 2 && nodes[0].size == 4 && nodes[1].size == 4
    ensures InTable(nodes, [0, 1]) && Leftover(9, nodes, [0, 1]) == 1 && Pieces(1) == 1
  {
    var blocks := BlocksOf(nodes, [0, 1]);
    assert Pos(blocks, 1) == 4 && Pos(blocks, 2) == 8;
  }

  /** A fresh allocator after two allocations that fill it and are freed again: one free block, under the id of the
      second, with the id of the first on top of the stack. */
  method FillAndFree() returns (ram: M.Miniram)
    ensures ram.Valid() && fresh(ram) && fresh(ram.usedBins) && fresh(ram.binIndices)
    ensures ram.width == 32 && ram.capacity == 9 && |ram.nodes| == 3
    ensures ram.Segments() == [Segment(0, 9, false, 1)] && ram.Spare() == [0, 2]
  {
    hide SegmentsOf, M.Miniram.Valid, LiveOf, Pow2, Spliced, Carved, Released, ReleasedIds;
    NineBelowWord();
    ram := new M.Miniram(32, 9, 2);
    assert ram.Spare() == [1, 2];
    CarveOnly(Segment(0, 9, false, 0), 1, 1);
    CarvedInTwo(Segment(0, 9, false, 0), 1, 1);
    var first := AllocateFrom(ram, 1, 0);
    CarveSecond(Segment(0, 1, true, 0), Segment(1, 8, false, 1), 8, 2);
    CarvedWhole(Segment(1, 8, false, 1), 2);
    var second := AllocateFrom(ram, 8, 1);
    assert ram.Segments() == [Segment(0, 1, true, 0), Segment(1, 8, true, 1)];
    ReleaseBoth();
    Release(ram, 0, 0);
    assert ram.Segments() == [Segment(0, 1, false, 0), Segment(1, 8, true, 1)];
    Release(ram, 1, 1);
  }

  lemma CarvedWhole(s: Segment, rest: int)
    ensures Carved(s, s.size, rest) == [Segment(s.offset, s.size, true, s.id)]
  {
  }

  lemma ReleaseBoth()
    ensures var segs := [Segment(0, 1, true, 0), Segment(1, 8, true, 1)];
      && Released(segs, 9, 0) == [Segment(0, 1, false, 0), Segment(1, 8, true, 1)]
      && ReleasedIds(segs, 0) == []
    ensures var segs := [Segment(0, 1, false, 0), Segment(1, 8, true, 1)];
      && Released(segs, 9, 1) == [Segment(0, 9, false, 1)]
      && ReleasedIds(segs, 1) == [0]
  {
  }

  /** An empty allocation and one of four elements share their offset, and after this run the ids in use, in the order
      in which `defragment` collects them, list the empty one last. They are sorted by offset as they stand, and the
      report moves nothing to the right, which `to_disjunct_copies` rejects. */
  method DefragmentEmptyBlock() returns (ram: M.Miniram, report: Defrag, ghost nodes0: seq<Node>)
    ensures UsedIds(nodes0, |nodes0|) == [0, 1] && SortedUsed(nodes0, [0, 1])
    ensures report.moves == CompactMoves(BlocksOf(nodes0, [0, 1]), 2) == [Move(0, 4, 0)] && !GoLeft(report.moves)
  {
    hide SegmentsOf, M.Miniram.Valid, M.Miniram.Lists, UnusedIds, UsedIds, Restacked, Pieces, CompactMoves, Updates,
      TiledTo, FreshPops, Relocated, Ordered, Inside, Popped, ChainOk, Linked, FloorToFloat, Value, Pow2, Pos, GoLeft,
      IdsOk, StackRecovers, LiveOf;
    NineBelowWord();
    ram := FillAndFree();
    AllocateTwice(ram, 0, 4, 1, 0, 2);
    ram.ValidShape();
    TwoUsed(ram.nodes, ram.chain, 0, 4, 1, 0, 2);
    CollectedZeroOne(ram.nodes);
    PieceCount(Leftover(9, ram.nodes, [0, 1]));
    nodes0 := ram.nodes;
    assert BlocksOf(nodes0, [0, 1]) == [Block(0, 4), Block(0, 0)];
    EmptyBlockMovesRight();
    report := ram.Defragment(9, [0, 1]);
  }

  lemma EmptyBlockMovesRight()
    ensures CompactMoves([Block(0, 4), Block(0, 0)], 2) == [Move(0, 4, 0)] && !GoLeft([Move(0, 4, 0)])
  {
    var blocks := [Block(0, 4), Block(0, 0)];
    assert Pos(blocks, 0) == 0 && Pos(blocks, 1) == 4;
    assert CompactMoves(blocks, 1) == [];
    assert [Move(0, 4, 0)][0] == Move(0, 4, 0);
  }
}
