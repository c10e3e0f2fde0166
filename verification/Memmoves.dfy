/** Moves within one memory, and their rewriting into copies that never overlap. */
module Memmoves {

  datatype Move = Move(src: nat, dst: nat, size: nat)

  predicate InMemory<T>(mem: seq<T>, m: Move) {
    m.src + m.size <= |mem| && m.dst + m.size <= |mem|
  }

  /** A memmove: the destination receives the source as it was before the move. */
  function Moved<T>(mem: seq<T>, m: Move): (mem': seq<T>)
    requires InMemory(mem, m)
    ensures |mem'| == |mem|
  {
    mem[..m.dst] + mem[m.src..m.src + m.size] + mem[m.dst + m.size..]
  }

  lemma MovedAt<T>(mem: seq<T>, m: Move, x: nat)
    requires InMemory(mem, m) && x < |mem|
    ensures Moved(mem, m)[x] == if m.dst <= x < m.dst + m.size then mem[m.src + (x - m.dst)] else mem[x]
  {
  }

  predicate AllInMemory<T>(mem: seq<T>, moves: seq<Move>) {
    forall i :: 0 <= i < |moves| ==> InMemory(mem, moves[i])
  }

  /** The moves carried out in order. */
  function RunMoves<T>(mem: seq<T>, moves: seq<Move>): (mem': seq<T>)
    requires AllInMemory(mem, moves)
    ensures |mem'| == |mem|
  {
    if moves == [] then mem
    else
      var before := RunMoves(mem, moves[..|moves| - 1]);
      Moved(before, moves[|moves| - 1])
  }

  lemma {:induction false} RunConcat<T>(mem: seq<T>, a: seq<Move>, b: seq<Move>)
    requires AllInMemory(mem, a) && AllInMemory(mem, b)
    ensures AllInMemory(mem, a + b)
    ensures RunMoves(mem, a + b) == RunMoves(RunMoves(mem, a), b)
    decreases |b|
  {
    if b == [] {
      assert a + b == a;
    } else {
      var init, last := b[..|b| - 1], b[|b| - 1];
      RunConcat(mem, a, init);
      assert (a + b)[..|a + b| - 1] == a + init;
    }
  }

  lemma RunOne<T>(mem: seq<T>, m: Move)
    requires InMemory(mem, m)
    ensures RunMoves(mem, [m]) == Moved(mem, m)
  {
    assert [m][..0] == [];
    assert RunMoves(mem, []) == mem;
  }

  /** A left move in two steps: the first `a` elements, then the rest. */
  lemma SplitMove<T>(mem: seq<T>, m: Move, a: nat)
    requires InMemory(mem, m) && a <= m.size
    requires m.dst <= m.src || a == m.size
    ensures Moved(Moved(mem, Move(m.src, m.dst, a)), Move(m.src + a, m.dst + a, m.size - a)) == Moved(mem, m)
  {
    var first := Moved(mem, Move(m.src, m.dst, a));
    var both := Moved(first, Move(m.src + a, m.dst + a, m.size - a));
    forall x | 0 <= x < |mem| ensures both[x] == Moved(mem, m)[x] {
      MovedAt(mem, m, x);
      MovedAt(first, Move(m.src + a, m.dst + a, m.size - a), x);
      MovedAt(mem, Move(m.src, m.dst, a), x);
      if m.dst + a <= x < m.dst + m.size {
        MovedAt(mem, Move(m.src, m.dst, a), m.src + (x - m.dst));
      }
    }
  }

  // ----- to_disjunct_copies -----

  predicate Disjunct(m: Move) {
    m.src + m.size <= m.dst || m.dst + m.size <= m.src
  }

  /** The moves that `to_disjunct_copies` can split: leftward by at least one, or of nothing. */
  predicate Splittable(m: Move) {
    m.dst < m.src || (m.size == 0 && m.dst == m.src)
  }

  function TotalSize(moves: seq<Move>): nat {
    if moves == [] then 0 else TotalSize(moves[..|moves| - 1]) + moves[|moves| - 1].size
  }

  lemma {:induction false} TotalConcat(a: seq<Move>, b: seq<Move>)
    ensures TotalSize(a + b) == TotalSize(a) + TotalSize(b)
  {
    if b == [] {
      assert a + b == a;
    } else {
      TotalConcat(a, b[..|b| - 1]);
      assert (a + b)[..|a + b| - 1] == a + b[..|b| - 1];
    }
  }

  /** A left move cut into pieces as long as the distance it covers. */
  function Chunks(m: Move): seq<Move>
    requires Splittable(m)
    decreases m.size
  {
    var c := m.src - m.dst;
    if m.size <= c then [m] else [Move(m.src, m.dst, c)] + Chunks(Move(m.src + c, m.dst + c, m.size - c))
  }

  function DisjunctCopies(moves: seq<Move>): seq<Move>
    requires forall i :: 0 <= i < |moves| ==> Splittable(moves[i])
  {
    if moves == [] then [] else DisjunctCopies(moves[..|moves| - 1]) + Chunks(moves[|moves| - 1])
  }

  method ToDisjunctCopies(moves: seq<Move>) returns (copies: seq<Move>)
    requires forall i :: 0 <= i < |moves| ==> Splittable(moves[i])
    ensures copies == DisjunctCopies(moves)
  {
    copies := [];
    for i := 0 to |moves|
      invariant copies == DisjunctCopies(moves[..i])
    {
      var move := moves[i];
      assert moves[..i + 1][..i] == moves[..i];
      var chunkSize := move.src - move.dst;
      var overlap := move.size > chunkSize;
      if !overlap {
        copies := copies + [move];
        continue;
      }
      ghost var before := copies;
      var remainingSize, currentSrc, currentDst := move.size, move.src, move.dst;
      while remainingSize > chunkSize
        invariant 0 < remainingSize && 0 <= currentDst && currentSrc - currentDst == chunkSize
        invariant before + Chunks(move) == copies + Chunks(Move(currentSrc, currentDst, remainingSize))
        decreases remainingSize
      {
        copies := copies + [Move(currentSrc, currentDst, chunkSize)];
        remainingSize := remainingSize - chunkSize;
        currentSrc := currentSrc + chunkSize;
        currentDst := currentDst + chunkSize;
      }
      if remainingSize > 0 {
        copies := copies + [Move(currentSrc, currentDst, remainingSize)];
      }
    }
    assert moves[..|moves|] == moves;
  }

  lemma {:induction false} ChunksShape(m: Move)
    requires Splittable(m)
    ensures TotalSize(Chunks(m)) == m.size
    ensures forall i :: 0 <= i < |Chunks(m)| ==> Disjunct(Chunks(m)[i])
    decreases m.size
  {
    var c := m.src - m.dst;
    assert [m][..0] == [];
    if m.size > c {
      var first, rest := Move(m.src, m.dst, c), Move(m.src + c, m.dst + c, m.size - c);
      ChunksShape(rest);
      TotalConcat([first], Chunks(rest));
      assert [first][..0] == [];
    }
  }

  /** No more copies than needed: the distance times one copy less falls short of the size. */
  lemma {:induction false} ChunkCount(m: Move)
    requires Splittable(m)
    ensures m.size == 0 ==> |Chunks(m)| == 1
    ensures m.size > 0 ==> (|Chunks(m)| - 1) * (m.src - m.dst) < m.size <= |Chunks(m)| * (m.src - m.dst)
    decreases m.size
  {
    var c := m.src - m.dst;
    if m.size > c {
      var rest := Chunks(Move(m.src + c, m.dst + c, m.size - c));
      ChunkCount(Move(m.src + c, m.dst + c, m.size - c));
      assert |Chunks(m)| == 1 + |rest|;
      OneMore(|rest|, c);
      OneMore(|rest| - 1, c);
    }
  }

  lemma OneMore(n: int, c: nat)
    ensures (n + 1) * c == n * c + c
  {
  }

  lemma {:induction false} ChunksRun<T>(mem: seq<T>, m: Move)
    requires Splittable(m) && InMemory(mem, m)
    ensures AllInMemory(mem, Chunks(m)) && RunMoves(mem, Chunks(m)) == Moved(mem, m)
    decreases m.size
  {
    hide Moved, RunMoves;
    var c := m.src - m.dst;
    RunOne(mem, m);
    if m.size > c {
      var first, rest := Move(m.src, m.dst, c), Move(m.src + c, m.dst + c, m.size - c);
      var mid := Moved(mem, first);
      RunOne(mem, first);
      ChunksRun(mid, rest);
      assert forall i :: 0 <= i < |Chunks(rest)| ==> InMemory(mid, Chunks(rest)[i]);
      assert AllInMemory(mem, Chunks(rest));
      RunConcat(mem, [first], Chunks(rest));
      SplitMove(mem, m, c);
    }
  }

  /** `to_disjunct_copies` emits copies that never overlap themselves and move the same amount of data. */
  lemma {:induction false} DisjunctCopiesShape(moves: seq<Move>)
    requires forall i :: 0 <= i < |moves| ==> Splittable(moves[i])
    ensures TotalSize(DisjunctCopies(moves)) == TotalSize(moves)
    ensures forall i :: 0 <= i < |DisjunctCopies(moves)| ==> Disjunct(DisjunctCopies(moves)[i])
    decreases |moves|
  {
    if moves != [] {
      var init, last := moves[..|moves| - 1], moves[|moves| - 1];
      DisjunctCopiesShape(init);
      ChunksShape(last);
      TotalConcat(DisjunctCopies(init), Chunks(last));
    }
  }

  /** On every memory the copies in order have the effect of the moves in order. */
  lemma {:induction false} DisjunctCopiesRun<T>(mem: seq<T>, moves: seq<Move>)
    requires forall i :: 0 <= i < |moves| ==> Splittable(moves[i])
    requires AllInMemory(mem, moves)
    ensures AllInMemory(mem, DisjunctCopies(moves))
    ensures RunMoves(mem, DisjunctCopies(moves)) == RunMoves(mem, moves)
    decreases |moves|
  {
    if moves != [] {
      var init, last := moves[..|moves| - 1], moves[|moves| - 1];
      DisjunctCopiesRun(mem, init);
      var mid := RunMoves(mem, init);
      assert InMemory(mem, last) && InMemory(mid, last);
      ChunksRun(mid, last);
      ChunksRun(mem, last);
      RunConcat(mem, DisjunctCopies(init), Chunks(last));
    }
  }

  lemma MovedNothing<T>(mem: seq<T>, m: Move)
    requires InMemory(mem, m) && m.size == 0
    ensures Moved(mem, m) == mem
  {
  }

  /** Copied one element at a time, lowest first. */
  function CopiedUpwards<T>(mem: seq<T>, m: Move, k: nat): (mem': seq<T>)
    requires InMemory(mem, m) && k <= m.size
    ensures |mem'| == |mem|
  {
    if k == 0 then mem
    else
      var before := CopiedUpwards(mem, m, k - 1);
      before[m.dst + k - 1 := before[m.src + k - 1]]
  }

  /** A copy that does not overlap may be carried out element by element. */
  lemma {:induction false} DisjunctCopyIsPlain<T>(mem: seq<T>, m: Move, k: nat)
    requires InMemory(mem, m) && k <= m.size && Disjunct(m)
    ensures CopiedUpwards(mem, m, k) == Moved(mem, m.(size := k))
    decreases k
  {
    hide Moved;
    if k > 0 {
      DisjunctCopyIsPlain(mem, m, k - 1);
      forall x | 0 <= x < |mem| ensures CopiedUpwards(mem, m, k)[x] == Moved(mem, m.(size := k))[x] {
        MovedAt(mem, m.(size := k), x);
        MovedAt(mem, m.(size := k - 1), x);
        MovedAt(mem, m.(size := k - 1), m.src + k - 1);
      }
    } else {
      MovedNothing(mem, m.(size := 0));
    }
  }
}
