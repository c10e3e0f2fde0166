/** The union-find structure: a parent array and a size array behind a `find` that compresses as it looks. */
module UnionFind {
  import opened Forests

  class UnionFind {
    const parents: array<nat>
    const sizes: array<nat>
    /** The pairs merged so far. */
    ghost var pairs: seq<Pair>

    ghost predicate Valid()
      reads this, parents, sizes
    {
      && parents.Length == sizes.Length && parents != sizes
      && Upward(parents[..])
      && Explains(parents[..], pairs)
      && SizesOk(parents[..], sizes[..])
    }

    /** The root of `x`, which is the largest member of its class. */
    ghost function RootOf(x: nat): nat
      reads this, parents, sizes
      requires Valid() && x < parents.Length
    {
      Root(parents[..], x)
    }

    constructor (size: nat)
      ensures Valid() && parents.Length == size && pairs == []
      ensures fresh(parents) && fresh(sizes)
      ensures forall x :: 0 <= x < size ==> RootOf(x) == x
    {
      parents := new nat[size](i => i);
      sizes := new nat[size](i => 1);
      pairs := [];
      new;
      Singletons(parents[..], sizes[..]);
    }

    /** `find`: the root of `x`; on the way every other node skips its parent. */
    method Find(x: nat) returns (r: nat)
      requires Valid() && x < parents.Length
      modifies parents
      ensures Valid()
      ensures r == old(RootOf(x))
      ensures parents[..] == Compressed(old(parents[..]), x)
      ensures SameRoots(old(parents[..]), parents[..])
      ensures forall y :: 0 <= y < parents.Length ==> RootOf(y) == old(RootOf(y))
    {
      ghost var p := parents[..];
      TwoUp(p, x);
      r := x;
      parents[r] := parents[parents[r]];
      r := parents[r];
      assert parents[..] == Halved(p, x);
      while parents[r] != r
        invariant x <= r < parents.Length && Upward(parents[..])
        invariant Compressed(p, x) == if parents[r] == r then parents[..] else Compressed(parents[..], r)
        invariant Root(p, x) == Root(parents[..], r)
        decreases parents.Length - r
      {
        ghost var q := parents[..];
        TwoUp(q, r);
        parents[r] := parents[parents[r]];
        assert parents[..] == Halved(q, r);
        r := parents[r];
      }
      CompressionKeepsForest(p, x, sizes[..], pairs);
    }

    /** `merge`: the smaller root is hung below the larger one. */
    method Merge(lhs: nat, rhs: nat)
      requires Valid() && lhs < parents.Length && rhs < parents.Length
      modifies this, parents, sizes
      ensures Valid() && pairs == old(pairs) + [Pair(lhs, rhs)]
      ensures forall y :: 0 <= y < parents.Length ==>
        RootOf(y) == JoinedRoot(old(RootOf(lhs)), old(RootOf(rhs)), old(RootOf(y)))
      ensures var q := Compressed(Compressed(old(parents[..]), lhs), rhs);
        var child, parent := Smaller(old(RootOf(lhs)), old(RootOf(rhs))), Larger(old(RootOf(lhs)), old(RootOf(rhs)));
        parents[..] == if child == parent then q else q[child := parent]
      ensures
        var child, parent := Smaller(old(RootOf(lhs)), old(RootOf(rhs))), Larger(old(RootOf(lhs)), old(RootOf(rhs)));
        sizes[..] == if child == parent then old(sizes[..])
          else old(sizes[..])[parent := (old(sizes[parent]) + old(sizes[child])) % SIZE_MODULUS]
    {
      hide Explains, SizesOk, Upward, Root, Compressed;
      var child: nat := Find(lhs);
      var parent: nat := Find(rhs);
      ghost var p := parents[..];
      RootsAreRoots(p, lhs);
      RootsAreRoots(p, rhs);
      if child != parent {
        if parent < child {
          child, parent := parent, child;
        }
        Link(child, parent, lhs, rhs);
      } else {
        MoreExplained(p, pairs, Pair(lhs, rhs));
        pairs := pairs + [Pair(lhs, rhs)];
      }
    }

    /** The writes of `merge` for two different roots. */
    method Link(child: nat, parent: nat, ghost lhs: nat, ghost rhs: nat)
      requires Valid() && lhs < parents.Length && rhs < parents.Length
      requires child < parent < parents.Length && {RootOf(lhs), RootOf(rhs)} == {child, parent}
      requires parents[child] == child && parents[parent] == parent
      modifies this, parents, sizes
      ensures Valid() && pairs == old(pairs) + [Pair(lhs, rhs)]
      ensures forall y :: 0 <= y < parents.Length ==> RootOf(y) == if old(RootOf(y)) == child then parent
        else old(RootOf(y))
      ensures parents[..] == old(parents[..])[child := parent]
      ensures sizes[..] == old(sizes[..])[parent := (old(sizes[parent]) + old(sizes[child])) % SIZE_MODULUS]
    {
      hide Explains, SizesOk, Upward, Root;
      ghost var p, s := parents[..], sizes[..];
      LinkKeepsExplained(p, pairs, Pair(lhs, rhs), child, parent);
      LinkKeepsSizes(p, s, child, parent);
      forall y: nat | y < |p|
        ensures Root(p[child := parent], y) == if Root(p, y) == child then parent else Root(p, y)
      {
        LinkedRoots(p, child, parent, y);
      }
      parents[child] := parent;
      sizes[parent] := (sizes[parent] + sizes[child]) % SIZE_MODULUS;
      assert parents[..] == p[child := parent];
      assert sizes[..] == s[parent := (s[parent] + s[child]) % SIZE_MODULUS];
      pairs := pairs + [Pair(lhs, rhs)];
    }

    /** `chain_length` */
    method ChainLength(x: nat) returns (len: nat)
      requires Valid() && x < parents.Length
      ensures len == Depth(parents[..], x)
    {
      len := 0;
      var p := x;
      while parents[p] != p
        invariant p < parents.Length && len + Depth(parents[..], p) == Depth(parents[..], x)
        decreases parents.Length - p
      {
        p := parents[p];
        len := len + 1;
      }
    }

    /** `roots`: every root once, in increasing order. */
    method Roots() returns (res: seq<nat>)
      requires Valid()
      ensures forall x: nat :: x in res <==> x < parents.Length && RootOf(x) == x
      ensures forall i, j :: 0 <= i < j < |res| ==> res[i] < res[j]
    {
      res := [];
      for i := 0 to parents.Length
        invariant forall x: nat :: x in res <==> x < i && RootOf(x) == x
        invariant forall k :: 0 <= k < |res| ==> res[k] < i
        invariant forall k, j :: 0 <= k < j < |res| ==> res[k] < res[j]
      {
        RootIffSelf(parents[..], i);
        if parents[i] == i {
          res := res + [i];
        }
      }
    }

    /** `all_of`: the class of `x`, in increasing order; looking it up compresses every chain. */
    method AllOf(x: nat) returns (result: seq<nat>)
      requires Valid() && x < parents.Length
      modifies parents
      ensures Valid()
      ensures forall y :: 0 <= y < parents.Length ==> RootOf(y) == old(RootOf(y))
      ensures forall y: nat :: y in result <==> y < parents.Length && RootOf(y) == RootOf(x)
      ensures forall i, j :: 0 <= i < j < |result| ==> result[i] < result[j]
      ensures parents[..] == CompressedUpTo(Compressed(old(parents[..]), x), parents.Length)
    {
      hide Explains, SizesOk, Upward, Root, Compressed;
      result := [];
      var parent := Find(x);
      for i := 0 to parents.Length
        invariant Valid() && parent == RootOf(x)
        invariant parents[..] == CompressedUpTo(Compressed(old(parents[..]), x), i)
        invariant forall y :: 0 <= y < parents.Length ==> RootOf(y) == old(RootOf(y))
        invariant forall y: nat :: y in result <==> y < i && RootOf(y) == RootOf(x)
        invariant forall k :: 0 <= k < |result| ==> result[k] < i
        invariant forall k, j :: 0 <= k < j < |result| ==> result[k] < result[j]
      {
        var r := Find(i);
        if r == parent {
          result := result + [i];
        }
      }
    }

    /** `all`: every class as one group, each in increasing order, the groups in the order of their smallest members. */
    method All() returns (result: seq<seq<nat>>)
      requires Valid()
      modifies parents
      ensures Valid() && SameRoots(old(parents[..]), parents[..])
      ensures ListsClasses(old(parents[..]), result)
      ensures parents[..] == CompressedUpTo(old(parents[..]), parents.Length)
    {
      hide Explains, SizesOk, Upward, Root, Compressed, GroupsOk;
      ghost var p := parents[..];
      result := [];
      var groups: map<nat, nat> := map[];
      NoGroupsYet(p);
      for idx := 0 to parents.Length
        invariant Valid() && SameRoots(p, parents[..]) && parents[..] == CompressedUpTo(p, idx)
        invariant GroupsOk(p, result, groups, idx)
      {
        GroupsStep(p, result, groups, idx);
        var parent := Find(idx);
        if parent in groups {
          result := result[groups[parent] := result[groups[parent]] + [idx]];
        } else {
          groups := groups[parent := |result|];
          result := result + [[idx]];
        }
      }
      AllSeen(p, result, groups);
    }

    /** `operator==`: equal exactly when both sort the same indices into the same classes. The chains of the indices it
        looked at, up to the first that tells the two apart, are compressed. */
    method Equals(other: UnionFind) returns (equal: bool, ghost looked: nat)
      requires Valid() && other.Valid()
      requires other == this || {parents, sizes} !! {other.parents, other.sizes}
      modifies parents, other.parents
      ensures Valid() && other.Valid()
      ensures equal <==> SamePartition(old(parents[..]), old(other.parents[..]))
      ensures SameRoots(old(parents[..]), parents[..]) && SameRoots(old(other.parents[..]), other.parents[..])
      ensures looked <= parents.Length && (looked > 0 ==> parents.Length == other.parents.Length)
      ensures equal ==> looked == parents.Length
      ensures !equal && parents.Length == other.parents.Length ==>
        looked > 0 && Root(old(parents[..]), looked - 1) != Root(old(other.parents[..]), looked - 1)
      ensures forall x :: 0 <= x < looked - 1 ==> Root(old(parents[..]), x) == Root(old(other.parents[..]), x)
      ensures other != this ==>
        && parents[..] == CompressedUpTo(old(parents[..]), looked)
        && other.parents[..] == CompressedUpTo(old(other.parents[..]), looked)
    {
      hide Explains, SizesOk, Upward, Root, Compressed, CompressedUpTo, SamePartition;
      NoneCompressed(parents[..]);
      NoneCompressed(other.parents[..]);
      ghost var p, q := parents[..], other.parents[..];
      RootsDecidePartition(p, q);
      looked := 0;
      if parents.Length != other.parents.Length {
        return false, 0;
      }
      for i := 0 to parents.Length
        invariant Valid() && other.Valid()
        invariant SameRoots(p, parents[..]) && SameRoots(q, other.parents[..])
        invariant forall x :: 0 <= x < i ==> Root(p, x) == Root(q, x)
        invariant other != this ==> parents[..] == CompressedUpTo(p, i) && other.parents[..] == CompressedUpTo(q, i)
      {
        OneMoreCompressed(p, i);
        OneMoreCompressed(q, i);
        var a := Find(i);
        var b := other.Find(i);
        if a != b {
          return false, i + 1;
        }
      }
      return true, parents.Length;
    }

    /** In every run the classes are the equivalence closure of the pairs merged so far, a root is the largest
        member of its class, and its counter holds the size of the class in 32 bits. */
    lemma ClassesAreMerges(x: nat, y: nat)
      requires Valid() && x < parents.Length && y < parents.Length
      ensures RootOf(x) == RootOf(y) <==> Equivalent(pairs, x, y)
      ensures Equivalent(pairs, x, y) ==> y <= RootOf(x)
      ensures Equivalent(pairs, x, RootOf(x))
      ensures sizes[RootOf(x)] == |Class(parents[..], RootOf(x))| % SIZE_MODULUS
    {
      ClassesAreClosure(parents[..], pairs, x, y);
      RootsAreRoots(parents[..], x);
    }
  }
}
