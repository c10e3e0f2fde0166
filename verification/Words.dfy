/** Machine words as natural numbers: powers of two, single bits, the bitwise
    operators and the bit scans that the allocator's masks and float codes use. */
module Words {

  function Pow2(n: nat): (p: nat)
    ensures p >= 1
  {
    if n == 0 then 1 else 2 * Pow2(n - 1)
  }

  lemma {:induction false} Pow2Monotone(a: nat, b: nat)
    requires a <= b
    ensures Pow2(a) <= Pow2(b)
    decreases b
  {
    if a < b {
      Pow2Monotone(a, b - 1);
    }
  }

  /** `x << k`, before truncation to a word */
  function Shl(x: nat, k: nat): (y: nat)
    ensures y >= x
  {
    if k == 0 then x else 2 * Shl(x, k - 1)
  }

  /** `x >> k` */
  function Shr(x: nat, k: nat): nat {
    if k == 0 then x else Shr(x / 2, k - 1)
  }

  /** The low `w` bits of `x`: what is left of `x` in a word of `w` bits. */
  function Low(w: nat, x: nat): nat {
    if w == 0 then 0 else 2 * Low(w - 1, x / 2) + x % 2
  }

  lemma {:induction false} ShlSum(a: nat, b: nat, k: nat)
    ensures Shl(a + b, k) == Shl(a, k) + Shl(b, k)
  {
    if k > 0 {
      ShlSum(a, b, k - 1);
    }
  }

  lemma {:induction false} ShlMonotone(a: nat, b: nat, k: nat)
    requires a <= b
    ensures Shl(a, k) <= Shl(b, k)
  {
    ShlSum(a, b - a, k);
  }

  lemma {:induction false} ShlOfOctet(k: nat)
    ensures Shl(1, k) == Pow2(k) && Shl(8, k) == Pow2(k + 3) && Shl(16, k) == Pow2(k + 4)
  {
    if k == 0 {
      assert Pow2(1) == 2 && Pow2(2) == 4 && Pow2(3) == 8 && Pow2(4) == 16;
    } else {
      ShlOfOctet(k - 1);
    }
  }

  /** Shifting right and back loses exactly the low bits. */
  lemma {:induction false} ShiftLoss(x: nat, k: nat)
    ensures x == Shl(Shr(x, k), k) + Low(k, x)
    ensures Low(k, x) < Pow2(k)
  {
    if k > 0 {
      ShiftLoss(x / 2, k - 1);
    }
  }

  lemma {:induction false} LowOfSmall(w: nat, x: nat)
    requires x < Pow2(w)
    ensures Low(w, x) == x
  {
    if w > 0 {
      LowOfSmall(w - 1, x / 2);
    }
  }

  /** Bit `k` of `m`, bit 0 being the least significant. */
  predicate Bit(m: nat, k: nat) {
    if k == 0 then m % 2 == 1 else Bit(m / 2, k - 1)
  }

  /** `a | b` */
  function Or(a: nat, b: nat): nat
    decreases a + b
  {
    if a == 0 then b
    else if b == 0 then a
    else 2 * Or(a / 2, b / 2) + if a % 2 == 1 || b % 2 == 1 then 1 else 0
  }

  /** `a & b` */
  function And(a: nat, b: nat): nat
    decreases a + b
  {
    if a == 0 || b == 0 then 0
    else 2 * And(a / 2, b / 2) + if a % 2 == 1 && b % 2 == 1 then 1 else 0
  }

  /** `~a` in a word of `w` bits */
  function Not(w: nat, a: nat): nat
    requires a < Pow2(w)
  {
    Pow2(w) - 1 - a
  }

  lemma {:induction false} BitOfZero(k: nat)
    ensures !Bit(0, k)
  {
    if k > 0 {
      BitOfZero(k - 1);
    }
  }

  lemma {:induction false} BitOfPow2(j: nat, k: nat)
    ensures Bit(Pow2(j), k) <==> j == k
  {
    if j == 0 {
      if k > 0 {
        BitOfZero(k - 1);
      }
    } else if k > 0 {
      BitOfPow2(j - 1, k - 1);
    }
  }

  lemma {:induction false} BitOfOr(a: nat, b: nat, k: nat)
    ensures Bit(Or(a, b), k) <==> Bit(a, k) || Bit(b, k)
    decreases k
  {
    BitOfZero(k);
    if a != 0 && b != 0 && k > 0 {
      BitOfOr(a / 2, b / 2, k - 1);
    }
  }

  lemma {:induction false} BitOfAnd(a: nat, b: nat, k: nat)
    ensures Bit(And(a, b), k) <==> Bit(a, k) && Bit(b, k)
    decreases k
  {
    BitOfZero(k);
    if a != 0 && b != 0 && k > 0 {
      BitOfAnd(a / 2, b / 2, k - 1);
    }
  }

  lemma {:induction false} BitOfNot(w: nat, a: nat, k: nat)
    requires a < Pow2(w) && k < w
    ensures Bit(Not(w, a), k) <==> !Bit(a, k)
    decreases k
  {
    assert Pow2(w) == 2 * Pow2(w - 1);
    assert Not(w, a) / 2 == Not(w - 1, a / 2);
    if k > 0 {
      BitOfNot(w - 1, a / 2, k - 1);
    }
  }

  lemma {:induction false} BitBeyondWidth(w: nat, a: nat, k: nat)
    requires a < Pow2(w) && w <= k
    ensures !Bit(a, k)
    decreases w
  {
    if w == 0 {
      BitOfZero(k);
    } else {
      BitBeyondWidth(w - 1, a / 2, k - 1);
    }
  }

  lemma {:induction false} OrFits(w: nat, a: nat, b: nat)
    requires a < Pow2(w) && b < Pow2(w)
    ensures Or(a, b) < Pow2(w)
  {
    if a != 0 && b != 0 {
      OrFits(w - 1, a / 2, b / 2);
    }
  }

  lemma {:induction false} AndAtMost(a: nat, b: nat)
    ensures And(a, b) <= a && And(a, b) <= b
    decreases a + b
  {
    if a != 0 && b != 0 {
      AndAtMost(a / 2, b / 2);
    }
  }

  /** The mask `2^s - 1` holds exactly the bits below `s`. */
  lemma {:induction false} BitOfLowMask(s: nat, k: nat)
    ensures Bit(Pow2(s) - 1, k) <==> k < s
  {
    if s == 0 {
      BitOfZero(k);
    } else {
      assert (Pow2(s) - 1) / 2 == Pow2(s - 1) - 1;
      if k > 0 {
        BitOfLowMask(s - 1, k - 1);
      }
    }
  }

  lemma {:induction false} OrCommutes(a: nat, b: nat)
    ensures Or(a, b) == Or(b, a)
    decreases a + b
  {
    if a + b > 0 {
      OrCommutes(a / 2, b / 2);
    }
  }

  /** Joining disjoint fields: `(8 * e) | m` adds a mantissa below the exponent. */
  lemma OrOctet(e: nat, m: nat)
    requires m < 8
    ensures Or(8 * e, m) == 8 * e + m
  {
    if e != 0 && m != 0 {
      assert Or(8 * e, m) == 2 * Or(4 * e, m / 2) + m % 2;
      if m / 2 != 0 {
        assert Or(4 * e, m / 2) == 2 * Or(2 * e, m / 4) + m / 2 % 2;
        if m / 4 != 0 {
          assert Or(2 * e, m / 4) == 2 * Or(e, 0) + 1;
        }
      }
    }
  }

  /** Masking with `2^s - 1` keeps the low `s` bits. */
  lemma {:induction false} AndLowMask(n: nat, s: nat)
    ensures And(n, Pow2(s) - 1) == Low(s, n)
    decreases s
  {
    if n == 0 {
      LowOfSmall(s, 0);
    } else if s > 0 {
      AndLowMask(n / 2, s - 1);
      assert (Pow2(s) - 1) / 2 == Pow2(s - 1) - 1 && (Pow2(s) - 1) % 2 == 1;
    }
  }

  lemma AndSeven(x: nat)
    ensures And(x, 7) == x % 8
  {
    hide And;
    AndLowMask(x, 3);
    assert Pow2(3) == 8;
    assert Low(1, x / 4) == x / 4 % 2;
    assert Low(2, x / 2) == x / 2 % 4;
  }

  /** `std::countr_zero` of a non-zero word */
  function CountrZero(m: nat): nat
    requires m > 0
  {
    if m % 2 == 1 then 0 else 1 + CountrZero(m / 2)
  }

  /** `bits - 1 - std::countl_zero(m)` of a non-zero word */
  function HighestBit(m: nat): nat
    requires m > 0
  {
    if m == 1 then 0 else 1 + HighestBit(m / 2)
  }

  lemma {:induction false} CountrZeroIsLowest(m: nat)
    requires m > 0
    ensures Bit(m, CountrZero(m))
    ensures forall k: nat :: Bit(m, k) ==> CountrZero(m) <= k
  {
    if m % 2 == 0 {
      CountrZeroIsLowest(m / 2);
      forall k: nat | Bit(m, k) ensures CountrZero(m) <= k {
        assert k > 0 && Bit(m / 2, k - 1);
      }
    }
  }

  lemma {:induction false} HighestBitIsHighest(m: nat)
    requires m > 0
    ensures Bit(m, HighestBit(m))
    ensures forall k: nat :: Bit(m, k) ==> k <= HighestBit(m)
  {
    if m == 1 {
      forall k: nat | Bit(m, k) ensures k <= 0 {
        if k > 0 {
          BitOfZero(k - 1);
        }
      }
    } else {
      HighestBitIsHighest(m / 2);
      forall k: nat | Bit(m, k) ensures k <= HighestBit(m) {
        assert k > 0 ==> Bit(m / 2, k - 1);
      }
    }
  }

  lemma {:induction false} HighestBitBounds(m: nat)
    requires m > 0
    ensures Pow2(HighestBit(m)) <= m < Pow2(HighestBit(m) + 1)
  {
    if m > 1 {
      HighestBitBounds(m / 2);
    }
  }

  lemma {:induction false} HighestBitAtLeast(m: nat, k: nat)
    requires Pow2(k) <= m
    ensures HighestBit(m) >= k
  {
    if k > 0 {
      HighestBitAtLeast(m / 2, k - 1);
    }
  }
}
