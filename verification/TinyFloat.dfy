/** The bin encoding: sizes as floats with a three-bit mantissa and an implied leading one. */
module TinyFloat {
  import opened Words

  const MANTISSA_BITS := 3
  const MANTISSA_VALUE := 8
  const MANTISSA_MASK := 7

  /** `highest_bit(size) - MANTISSA_BITS`, where the mantissa begins in a size of at least eight */
  function MantissaStart(size: nat): (start: nat)
    requires size >= MANTISSA_VALUE
    ensures Pow2(start + 3) <= size < Pow2(start + 4)
  {
    HighestBitBounds(size);
    HighestBitAtLeast(size, 3);
    HighestBit(size) - MANTISSA_BITS
  }

  /** `ceil_to_float`: the mantissa is bumped when a low bit is lost, and the sum lets it carry into the exponent. */
  function CeilToFloat(size: nat): nat {
    if size < MANTISSA_VALUE then size
    else
      var start := MantissaStart(size);
      var mantissa := And(Shr(size, start), MANTISSA_MASK);
      var rounded := if And(size, Shl(1, start) - 1) != 0 then mantissa + 1 else mantissa;
      8 * (start + 1) + rounded
  }

  /** `floor_to_float` */
  function FloorToFloat(size: nat): nat {
    if size < MANTISSA_VALUE then size
    else
      var start := MantissaStart(size);
      Or(8 * (start + 1), And(Shr(size, start), MANTISSA_MASK))
  }

  /** `to_uint` in a word of `w` bits: the final shift drops whatever leaves the word. */
  function ToUint(w: nat, code: nat): nat {
    if code < MANTISSA_VALUE then code
    else Low(w, Shl(Or(And(code, MANTISSA_MASK), MANTISSA_VALUE), code / 8 - 1))
  }

  /** The number a code stands for, without a word limit. */
  ghost function Value(code: nat): nat {
    if code < 8 then code else Shl(8 + code % 8, code / 8 - 1)
  }

  lemma OrEight(m: nat)
    requires m < 8
    ensures Or(m, 8) == 8 + m
  {
    OrCommutes(m, 8);
    OrOctet(1, m);
  }

  /** `to_uint` is the exact value for every code whose value fits the word, and its low bits otherwise. */
  lemma ToUintIsValue(w: nat, code: nat)
    requires w >= 3
    ensures ToUint(w, code) == Low(w, Value(code))
    ensures Value(code) < Pow2(w) ==> ToUint(w, code) == Value(code)
  {
    AndSeven(code);
    OrEight(code % 8);
    assert Pow2(3) == 8;
    Pow2Monotone(3, w);
    if Value(code) < Pow2(w) {
      LowOfSmall(w, Value(code));
    }
  }

  /** Neighbouring codes are at most an eighth apart. */
  lemma ValueStep(f: nat)
    ensures Value(f) < Value(f + 1)
    ensures f < 8 ==> Value(f + 1) == f + 1
    ensures f >= 8 ==> 8 * Value(f + 1) <= 9 * Value(f)
  {
    if f >= 8 {
      var k := f / 8 - 1;
      ValueOfField(k, 8 + f % 8, f);
      ValueOfField(k, 9 + f % 8, f + 1);
      ShlSum(8 + f % 8, 1, k);
      ShlMonotone(8, 8 + f % 8, k);
      ShlOctuple(k);
      ShlOfOctet(k);
    }
  }

  lemma {:induction false} ShlOctuple(k: nat)
    ensures Shl(8, k) == 8 * Shl(1, k)
  {
    if k > 0 {
      ShlOctuple(k - 1);
    }
  }

  /** `to_uint` is strictly increasing. */
  lemma {:induction false} ValueIncreasing(f: nat, g: nat)
    requires f < g
    ensures Value(f) < Value(g)
    decreases g
  {
    ValueStep(g - 1);
    if f < g - 1 {
      ValueIncreasing(f, g - 1);
    }
  }

  lemma MantissaRange(n: nat, start: nat)
    requires Pow2(start + 3) <= n < Pow2(start + 4)
    ensures 8 <= Shr(n, start) < 16
  {
    var q := Shr(n, start);
    ShiftLoss(n, start);
    ShlOfOctet(start);
    if q < 8 {
      ShlMonotone(q + 1, 8, start);
      ShlSum(q, 1, start);
    }
    if q >= 16 {
      ShlMonotone(16, q, start);
    }
  }

  /** The three bits below the leading one. */
  lemma MantissaField(n: nat)
    requires n >= 8
    ensures 8 <= Shr(n, MantissaStart(n)) < 16
    ensures And(Shr(n, MantissaStart(n)), 7) == Shr(n, MantissaStart(n)) - 8
  {
    var start := MantissaStart(n);
    var q := Shr(n, start);
    MantissaRange(n, start);
    AndSeven(q);
  }

  lemma OctetFields(e: nat, m: nat)
    requires m < 8
    ensures (8 * e + m) / 8 == e && (8 * e + m) % 8 == m
  {
  }

  lemma ValueOfCode(e: nat, m: nat)
    requires m < 8
    ensures Value(8 * (e + 1) + m) == Shl(8 + m, e)
  {
    var f := 8 * (e + 1) + m;
    OctetFields(e + 1, m);
    assert f / 8 - 1 == e && 8 + f % 8 == 8 + m;
  }

  lemma ValueOfCarry(e: nat)
    ensures Value(8 * (e + 2)) == Shl(16, e)
  {
    ValueOfCode(e + 1, 0);
    ShlOfOctet(e);
    ShlOfOctet(e + 1);
  }

  lemma ValueOfField(start: nat, q: nat, f: nat)
    requires 8 <= q <= 16 && f == 8 * start + q
    ensures Value(f) == Shl(q, start)
  {
    if q < 16 {
      ValueOfCode(start, q - 8);
    } else {
      ValueOfCarry(start);
    }
  }

  lemma FloorFields(n: nat)
    requires n >= 8
    ensures 8 <= Shr(n, MantissaStart(n)) < 16
    ensures FloorToFloat(n) == 8 * MantissaStart(n) + Shr(n, MantissaStart(n))
  {
    MantissaField(n);
    OrOctet(MantissaStart(n) + 1, Shr(n, MantissaStart(n)) - 8);
  }

  lemma FloorValue(n: nat)
    requires n >= 8
    ensures Value(FloorToFloat(n)) == Shl(Shr(n, MantissaStart(n)), MantissaStart(n))
    ensures Value(FloorToFloat(n) + 1) == Shl(Shr(n, MantissaStart(n)) + 1, MantissaStart(n))
  {
    var start, q := MantissaStart(n), Shr(n, MantissaStart(n));
    FloorFields(n);
    ValueOfField(start, q, FloorToFloat(n));
    ValueOfField(start, q + 1, FloorToFloat(n) + 1);
  }

  /** The floor code is the largest code not above `n`; what it drops is the low bits. */
  lemma FloorBrackets(n: nat)
    ensures Value(FloorToFloat(n)) <= n < Value(FloorToFloat(n) + 1)
  {
    if n >= 8 {
      var start, q := MantissaStart(n), Shr(n, MantissaStart(n));
      FloorValue(n);
      ShiftLoss(n, start);
      ShlSum(q, 1, start);
      ShlOfOctet(start);
    } else {
      ValueStep(n);
    }
  }

  /** The ceiling is the floor, moved up one code exactly when `n` is not representable. */
  lemma CeilFromFloor(n: nat)
    ensures CeilToFloat(n) == if Value(FloorToFloat(n)) == n then FloorToFloat(n) else FloorToFloat(n) + 1
  {
    if n >= 8 {
      var start := MantissaStart(n);
      FloorFields(n);
      FloorValue(n);
      MantissaField(n);
      ShiftLoss(n, start);
      ShlOfOctet(start);
      AndLowMask(n, start);
    }
  }

  /** `f <= floor_to_float(n)` iff `to_uint(f) <= n` */
  lemma FloorGalois(n: nat, f: nat)
    ensures f <= FloorToFloat(n) <==> Value(f) <= n
  {
    FloorBrackets(n);
    var g := FloorToFloat(n);
    if f < g {
      ValueIncreasing(f, g);
    } else if g + 1 < f {
      ValueIncreasing(g + 1, f);
    }
  }

  /** `ceil_to_float(n) <= f` iff `n <= to_uint(f)` */
  lemma CeilGalois(n: nat, f: nat)
    ensures CeilToFloat(n) <= f <==> n <= Value(f)
  {
    FloorBrackets(n);
    CeilFromFloor(n);
    var g := FloorToFloat(n);
    if f < g {
      ValueIncreasing(f, g);
    } else if g < f {
      ValueIncreasing(g, f);
      if g + 1 < f {
        ValueIncreasing(g + 1, f);
      }
    }
  }

  /** Codes survive the round trip through the sizes they stand for. */
  lemma FloorOfValue(f: nat)
    ensures FloorToFloat(Value(f)) == f
    ensures CeilToFloat(Value(f)) == f
  {
    FloorGalois(Value(f), f);
    FloorGalois(Value(f), f + 1);
    ValueStep(f);
    CeilFromFloor(Value(f));
  }

  /** Codes of `w`-bit sizes index a bin table of `8 * w` bins with a spare top bin,
      and the floor code's value is again a `w`-bit size. */
  lemma CodesFit(w: nat, n: nat)
    requires w >= 4 && n < Pow2(w)
    ensures FloorToFloat(n) < 8 * (w - 2)
    ensures CeilToFloat(n) <= 8 * (w - 2)
    ensures ToUint(w, FloorToFloat(n)) == Value(FloorToFloat(n))
  {
    var top := 8 * (w - 2);
    ValueOfField(w - 3, 8, top);
    ShlOfOctet(w - 3);
    FloorGalois(n, top);
    CeilGalois(n, top);
    FloorBrackets(n);
    ToUintIsValue(w, FloorToFloat(n));
  }

  /** Rounding a size down to its code loses less than a ninth of it. */
  lemma FloorLoss(n: nat)
    requires n >= 1
    ensures 8 * n < 9 * Value(FloorToFloat(n))
  {
    FloorBrackets(n);
    ValueStep(FloorToFloat(n));
  }
}
