/**
  The bounded signed comparator: comparisons of two signed integers x and y,
  encoded as the field elements Enc(P, x) and Enc(P, y), whose absolute
  difference is known to be at most absDiffUpp. Every operation reduces to one
  "is non-negative" check, a decomposition of a field element into
  absDiffUppBitLen bits: the encoding of a small non-negative number passes it
  and the encoding P - d of a small negative number -d does not.
 */
module Bounded {
  import opened Field
  import opened Circuit
  import Selector

  datatype BoundedComparator = BoundedComparator(absDiffUppBitLen: nat)

  datatype ConfigError =
    | NotPositiveOrTooBig   // absDiffUpp is not in (0, P)
    | TooHigh               // P - absDiffUpp - 1 is not longer in binary than absDiffUpp
    | NotDeterministic      // determinism requested but P < 2^(absDiffUppBitLen+1) + 1

  /**
    NewBoundedComparator. On success the stored bit length is that of
    absDiffUpp, so absDiffUpp fits in it, while P - absDiffUpp - 1 (the
    encoding of the most negative difference -(absDiffUpp + 1)) does not.
   */
  function NewBoundedComparator(P: Order, absDiffUpp: int, allowNonDeterminism: bool): (r: Result<BoundedComparator, ConfigError>)
    ensures r == Failure(NotPositiveOrTooBig) <==> !(0 < absDiffUpp < P)
    ensures r.Success? <==>
              && 0 < absDiffUpp < P
              && Pow2(BitLen(absDiffUpp)) <= P - absDiffUpp - 1
              && (allowNonDeterminism || Pow2(BitLen(absDiffUpp) + 1) + 1 <= P)
    ensures r.Success? ==>
              && 1 <= r.value.absDiffUppBitLen
              && Pow2(r.value.absDiffUppBitLen - 1) <= absDiffUpp < Pow2(r.value.absDiffUppBitLen)
              && Pow2(r.value.absDiffUppBitLen) <= P - absDiffUpp - 1
  {
    if absDiffUpp <= 0 || absDiffUpp >= P then
      Failure(NotPositiveOrTooBig)
    else
      var smallestNeg := P - absDiffUpp - 1;
      var bitLen := BitLen(absDiffUpp);
      BitLenAtMost(smallestNeg, bitLen);
      if BitLen(smallestNeg) <= bitLen then
        Failure(TooHigh)
      else if !allowNonDeterminism && P < Pow2(bitLen + 1) + 1 then
        Failure(NotDeterministic)
      else
        Success(BoundedComparator(bitLen))
  }

  /**
    The constructor rejects a bound as too high exactly when P - absDiffUpp - 1
    is not longer in binary than absDiffUpp.
   */
  lemma TooHighIff(P: Order, absDiffUpp: int, allowNonDeterminism: bool)
    ensures NewBoundedComparator(P, absDiffUpp, allowNonDeterminism) == Failure(TooHigh)
            <==> 0 < absDiffUpp < P && BitLen(P - absDiffUpp - 1) <= BitLen(absDiffUpp)
  {
    if 0 < absDiffUpp < P {
      BitLenAtMost(P - absDiffUpp - 1, BitLen(absDiffUpp));
    }
  }

  /** A comparator stores the bit length of its bound. */
  lemma StoresBitLen(P: Order, absDiffUpp: int, allowNonDeterminism: bool, bc: BoundedComparator)
    requires NewBoundedComparator(P, absDiffUpp, allowNonDeterminism) == Success(bc)
    ensures absDiffUpp > 0 && bc.absDiffUppBitLen == BitLen(absDiffUpp)
  {
  }

  /** A comparator that may be built deterministically may also be built allowing non-determinism. */
  lemma DeterministicIsValid(P: Order, absDiffUpp: int, bc: BoundedComparator)
    requires NewBoundedComparator(P, absDiffUpp, false) == Success(bc)
    ensures NewBoundedComparator(P, absDiffUpp, true) == Success(bc)
  {
  }

  /**
    The determinism argument: when determinism is required and -d encodes to
    a number that fits in absDiffUppBitLen bits (P - d <= 2^L), the positive
    number d - 1 of the complementary check does not fit (d - 1 >= 2^L).
   */
  lemma DeterminismArgument(P: Order, absDiffUpp: int, bc: BoundedComparator, d: int)
    requires NewBoundedComparator(P, absDiffUpp, false) == Success(bc)
    requires P - d <= Pow2(bc.absDiffUppBitLen)
    ensures d - 1 >= Pow2(bc.absDiffUppBitLen)
  {
  }

  /** A valid bound lies below (P - 1) / 2 and below the window P - 2^L. */
  lemma BoundBelowHalf(P: Order, D: int, nd: bool, bc: BoundedComparator)
    requires NewBoundedComparator(P, D, nd) == Success(bc)
    ensures 2 * D + 2 <= P
    ensures D + 1 <= P - Pow2(bc.absDiffUppBitLen)
  {
  }

  // ---------------------------------------------------------------------------
  // The non-negativity check

  /** assertIsNonNegative: x must decompose into absDiffUppBitLen bits. */
  function AssertIsNonNegative(P: Order, bc: BoundedComparator, x: int): (cs: seq<Constraint>)
    ensures Satisfied(P, cs) <==> Enc(P, x) < Pow2(bc.absDiffUppBitLen)
  {
    SatisfiedSingle(P, AssertBitLen(bc.absDiffUppBitLen, x));
    [AssertBitLen(bc.absDiffUppBitLen, x)]
  }

  /**
    For a valid comparator the check accepts the encoding of every t in
    [0, 2^L) and rejects the encoding of every t in [-(P - 2^L), 0); in
    particular it decides t >= 0 for every t in [-(absDiffUpp + 1), absDiffUpp].
   */
  lemma NonNegativeIff(P: Order, D: int, nd: bool, bc: BoundedComparator, t: int)
    requires NewBoundedComparator(P, D, nd) == Success(bc)
    requires -(P - Pow2(bc.absDiffUppBitLen)) <= t < Pow2(bc.absDiffUppBitLen)
    ensures Satisfied(P, AssertIsNonNegative(P, bc, Enc(P, t))) <==> t >= 0
  {
    SatisfiedSingle(P, AssertBitLen(bc.absDiffUppBitLen, Enc(P, t)));
    if t >= 0 {
      ModUnique(P, t, 0, t);
    } else {
      ModUnique(P, t, -1, t + P);
    }
  }

  // ---------------------------------------------------------------------------
  // The five operations, as the constraints they emit

  /** AssertIsLessEq: b - a must be non-negative. */
  function AssertIsLessEq(P: Order, bc: BoundedComparator, a: int, b: int): (cs: seq<Constraint>)
    ensures Satisfied(P, cs) <==> (b - a) % P < Pow2(bc.absDiffUppBitLen)
  {
    AssertIsNonNegative(P, bc, Sub(P, b, a))
  }

  /** AssertIsLess: AssertIsLessEq(a, b - 1). */
  function AssertIsLess(P: Order, bc: BoundedComparator, a: int, b: int): (cs: seq<Constraint>)
    ensures Satisfied(P, cs) <==> (b - 1 - a) % P < Pow2(bc.absDiffUppBitLen)
  {
    ModSubLeft(P, b - 1, a);
    AssertIsLessEq(P, bc, a, Sub(P, b, 1))
  }

  /**
    IsLess, with the hint's output `bit` as witness: a two-input Mux selects
    a - b when bit is 0 and b - a - 1 when bit is 1, and the selected value
    must pass the non-negativity check. The output is bit itself.
   */
  function IsLess(P: Order, bc: BoundedComparator, a: int, b: int, bit: int): (g: Gadget)
    ensures g.out == bit
    ensures Satisfied(P, g.constraints) <==>
              || (Enc(P, bit) == 0 && Sub(P, a, b) < Pow2(bc.absDiffUppBitLen))
              || (Enc(P, bit) == 1 && Sub(P, Sub(P, b, a), 1) < Pow2(bc.absDiffUppBitLen))
  {
    var temp := Selector.Mux(P, bit, [Sub(P, a, b), Sub(P, Sub(P, b, a), 1)], []);
    var check := AssertIsNonNegative(P, bc, temp.out);
    SatisfiedAppend(P, temp.constraints, check);
    SatisfiedSingle(P, check[0]);
    Gadget(bit, temp.constraints + check)
  }

  /**
    IsLessEq: IsLess(a, b + 1), so the non-negativity check falls on
    a - b - 1 when bit is 0 and on b - a when bit is 1.
   */
  function IsLessEq(P: Order, bc: BoundedComparator, a: int, b: int, bit: int): (g: Gadget)
    ensures g.out == bit
    ensures Satisfied(P, g.constraints) <==>
              || (Enc(P, bit) == 0 && (a - b - 1) % P < Pow2(bc.absDiffUppBitLen))
              || (Enc(P, bit) == 1 && (b - a) % P < Pow2(bc.absDiffUppBitLen))
  {
    ModSubRight(P, a, b + 1);
    ModSubLeft(P, b + 1, a);
    ModSubLeft(P, b + 1 - a, 1);
    IsLess(P, bc, a, Add(P, b, 1), bit)
  }

  /**
    Min, with the hint's output m as witness: (a - m) * (b - m) == 0 and
    (a - m) + (b - m) must be non-negative. The output is m.
   */
  function Min(P: Order, bc: BoundedComparator, a: int, b: int, m: int): (g: Gadget)
    ensures g.out == m
    ensures Satisfied(P, g.constraints) <==>
              ((a - m) * (b - m)) % P == 0 && (a + b - 2 * m) % P < Pow2(bc.absDiffUppBitLen)
  {
    var aDiff, bDiff := Sub(P, a, m), Sub(P, b, m);
    MinFacts(P, bc, a, b, m);
    Gadget(m, [AssertIsEqual(Mul(P, aDiff, bDiff), 0)] + AssertIsNonNegative(P, bc, Add(P, aDiff, bDiff)))
  }

  lemma MinFacts(P: Order, bc: BoundedComparator, a: int, b: int, m: int)
    ensures Mul(P, Sub(P, a, m), Sub(P, b, m)) == ((a - m) * (b - m)) % P
    ensures Add(P, Sub(P, a, m), Sub(P, b, m)) == (a + b - 2 * m) % P
    ensures var aDiff, bDiff := Sub(P, a, m), Sub(P, b, m);
            Satisfied(P, [AssertIsEqual(Mul(P, aDiff, bDiff), 0)] + AssertIsNonNegative(P, bc, Add(P, aDiff, bDiff)))
            <==> Mul(P, aDiff, bDiff) == 0 && Satisfied(P, AssertIsNonNegative(P, bc, Add(P, aDiff, bDiff)))
  {
    var aDiff, bDiff := Sub(P, a, m), Sub(P, b, m);
    ModMulLeft(P, a - m, bDiff);
    ModMulRight(P, a - m, b - m);
    EncAdd(P, a - m, b - m);
    SatisfiedAppend(P, [AssertIsEqual(Mul(P, aDiff, bDiff), 0)], AssertIsNonNegative(P, bc, Add(P, aDiff, bDiff)));
    SatisfiedSingle(P, AssertIsEqual(Mul(P, aDiff, bDiff), 0));
  }

  // ---------------------------------------------------------------------------
  // Correctness within the bound, soundness up to P - 2^L

  /** Within the bound, AssertIsLessEq is satisfiable exactly when x <= y. */
  lemma AssertIsLessEqCorrect(P: Order, D: int, nd: bool, bc: BoundedComparator, x: int, y: int)
    requires NewBoundedComparator(P, D, nd) == Success(bc)
    requires -D <= x - y <= D
    ensures Satisfied(P, AssertIsLessEq(P, bc, Enc(P, x), Enc(P, y))) <==> x <= y
  {
    BoundBelowHalf(P, D, nd, bc);
    EncSub(P, y, x);
    NonNegativeIff(P, D, nd, bc, y - x);
  }

  /** Beyond the bound but with x - y <= P - 2^L, a satisfied AssertIsLessEq still means x <= y. */
  lemma AssertIsLessEqSound(P: Order, D: int, nd: bool, bc: BoundedComparator, x: int, y: int)
    requires NewBoundedComparator(P, D, nd) == Success(bc)
    requires x - y <= P - Pow2(bc.absDiffUppBitLen)
    requires Satisfied(P, AssertIsLessEq(P, bc, Enc(P, x), Enc(P, y)))
    ensures x <= y
  {
    if x > y {
      EncSub(P, y, x);
      NonNegativeIff(P, D, nd, bc, y - x);
      assert false;
    }
  }

  /** Within the bound, AssertIsLess is satisfiable exactly when x < y. */
  lemma AssertIsLessCorrect(P: Order, D: int, nd: bool, bc: BoundedComparator, x: int, y: int)
    requires NewBoundedComparator(P, D, nd) == Success(bc)
    requires -D <= x - y <= D
    ensures Satisfied(P, AssertIsLess(P, bc, Enc(P, x), Enc(P, y))) <==> x < y
  {
    BoundBelowHalf(P, D, nd, bc);
    EncSub(P, y, 1);
    EncSub(P, y - 1, x);
    NonNegativeIff(P, D, nd, bc, y - 1 - x);
  }

  /** Beyond the bound but with x - y < P - 2^L, a satisfied AssertIsLess still means x < y. */
  lemma AssertIsLessSound(P: Order, D: int, nd: bool, bc: BoundedComparator, x: int, y: int)
    requires NewBoundedComparator(P, D, nd) == Success(bc)
    requires x - y < P - Pow2(bc.absDiffUppBitLen)
    requires Satisfied(P, AssertIsLess(P, bc, Enc(P, x), Enc(P, y)))
    ensures x < y
  {
    if x >= y {
      EncSub(P, y, 1);
      EncSub(P, y - 1, x);
      NonNegativeIff(P, D, nd, bc, y - 1 - x);
      assert false;
    }
  }

  /** The two values IsLess may select are the encodings of x - y and y - x - 1. */
  lemma IsLessCandidates(P: Order, x: int, y: int)
    ensures Sub(P, Enc(P, x), Enc(P, y)) == Enc(P, x - y)
    ensures Sub(P, Sub(P, Enc(P, y), Enc(P, x)), 1) == Enc(P, y - x - 1)
  {
    EncSub(P, x, y);
    EncSub(P, y, x);
    EncSub(P, y - x, 1);
  }

  /**
    For -(absDiffUpp + 1) <= x - y <= absDiffUpp, IsLess is satisfied by
    exactly one bit, and that bit is 1 iff x < y.
   */
  lemma IsLessCorrect(P: Order, D: int, nd: bool, bc: BoundedComparator, x: int, y: int, bit: int)
    requires NewBoundedComparator(P, D, nd) == Success(bc)
    requires Elem(P, bit)
    requires -(D + 1) <= x - y <= D
    ensures Satisfied(P, IsLess(P, bc, Enc(P, x), Enc(P, y), bit).constraints) <==>
              bit == (if x < y then 1 else 0)
  {
    BoundBelowHalf(P, D, nd, bc);
    IsLessCandidates(P, x, y);
    NonNegativeIff(P, D, nd, bc, x - y);
    NonNegativeIff(P, D, nd, bc, y - x - 1);
  }

  /** Beyond the bound but with |x - y| < P - 2^L, a satisfied IsLess still returns [x < y]. */
  lemma IsLessSound(P: Order, D: int, nd: bool, bc: BoundedComparator, x: int, y: int, bit: int)
    requires NewBoundedComparator(P, D, nd) == Success(bc)
    requires Elem(P, bit)
    requires -(P - Pow2(bc.absDiffUppBitLen)) <= x - y < P - Pow2(bc.absDiffUppBitLen)
    requires Satisfied(P, IsLess(P, bc, Enc(P, x), Enc(P, y), bit).constraints)
    ensures bit == (if x < y then 1 else 0)
  {
    IsLessCandidates(P, x, y);
    if bit == 0 && x < y {
      NonNegativeIff(P, D, nd, bc, x - y);
      assert false;
    }
    if bit == 1 && x >= y {
      NonNegativeIff(P, D, nd, bc, y - x - 1);
      assert false;
    }
  }

  /** Within the bound, IsLessEq is satisfied by exactly one bit, and that bit is 1 iff x <= y. */
  lemma IsLessEqCorrect(P: Order, D: int, nd: bool, bc: BoundedComparator, x: int, y: int, bit: int)
    requires NewBoundedComparator(P, D, nd) == Success(bc)
    requires Elem(P, bit)
    requires -D <= x - y <= D
    ensures Satisfied(P, IsLessEq(P, bc, Enc(P, x), Enc(P, y), bit).constraints) <==>
              bit == (if x <= y then 1 else 0)
  {
    EncAdd(P, y, 1);
    IsLessCorrect(P, D, nd, bc, x, y + 1, bit);
  }

  /** Beyond the bound but with |x - y| < P - 2^L, a satisfied IsLessEq still returns [x <= y]. */
  lemma IsLessEqSound(P: Order, D: int, nd: bool, bc: BoundedComparator, x: int, y: int, bit: int)
    requires NewBoundedComparator(P, D, nd) == Success(bc)
    requires Elem(P, bit)
    requires -(P - Pow2(bc.absDiffUppBitLen)) < x - y < P - Pow2(bc.absDiffUppBitLen)
    requires Satisfied(P, IsLessEq(P, bc, Enc(P, x), Enc(P, y), bit).constraints)
    ensures bit == (if x <= y then 1 else 0)
  {
    EncAdd(P, y, 1);
    IsLessSound(P, D, nd, bc, x, y + 1, bit);
  }

  /** Within the bound, the true minimum is an accepted output of Min. */
  lemma MinAcceptsMinimum(P: Order, D: int, nd: bool, bc: BoundedComparator, x: int, y: int)
    requires NewBoundedComparator(P, D, nd) == Success(bc)
    requires -D <= x - y <= D
    ensures var m := Enc(P, if x <= y then x else y);
            Satisfied(P, Min(P, bc, Enc(P, x), Enc(P, y), m).constraints)
  {
    BoundBelowHalf(P, D, nd, bc);
    var a, b := Enc(P, x), Enc(P, y);
    var m := Enc(P, if x <= y then x else y);
    var aDiff, bDiff := Sub(P, a, m), Sub(P, b, m);
    EncSub(P, x, y);
    EncSub(P, y, x);
    if x <= y {
      SubZeroIffEqual(P, a, m);
      ModUnique(P, bDiff, 0, bDiff);
      NonNegativeIff(P, D, nd, bc, y - x);
    } else {
      SubZeroIffEqual(P, b, m);
      ModUnique(P, aDiff, 0, aDiff);
      NonNegativeIff(P, D, nd, bc, x - y);
    }
    assert Mul(P, aDiff, bDiff) == 0;
    SatisfiedAppend(P, [AssertIsEqual(Mul(P, aDiff, bDiff), 0)], AssertIsNonNegative(P, bc, Add(P, aDiff, bDiff)));
    SatisfiedSingle(P, AssertIsEqual(Mul(P, aDiff, bDiff), 0));
  }

  /**
    In a field without zero divisors a satisfied Min says that m is one of
    the operands and that the other operand's excess over it passes the check.
   */
  lemma MinConstraints(P: Order, bc: BoundedComparator, a: int, b: int, m: int)
    requires NoZeroDivisors(P)
    requires Elem(P, a) && Elem(P, b) && Elem(P, m)
    requires Satisfied(P, Min(P, bc, a, b, m).constraints)
    ensures || (m == a && Satisfied(P, AssertIsNonNegative(P, bc, Sub(P, b, a))))
            || (m == b && Satisfied(P, AssertIsNonNegative(P, bc, Sub(P, a, b))))
  {
    var aDiff, bDiff := Sub(P, a, m), Sub(P, b, m);
    SatisfiedAppend(P, [AssertIsEqual(Mul(P, aDiff, bDiff), 0)], AssertIsNonNegative(P, bc, Add(P, aDiff, bDiff)));
    SatisfiedSingle(P, AssertIsEqual(Mul(P, aDiff, bDiff), 0));
    assert Mul(P, aDiff, bDiff) == 0;
    SubZeroIffEqual(P, a, m);
    SubZeroIffEqual(P, b, m);
    if aDiff == 0 {
      ModUnique(P, bDiff, 0, bDiff);
      assert Add(P, aDiff, bDiff) == Sub(P, b, a);
    } else {
      ModUnique(P, aDiff, 0, aDiff);
      assert Add(P, aDiff, bDiff) == Sub(P, a, b);
    }
  }

  /**
    In a field without zero divisors, with |x - y| <= P - 2^L, the only
    output Min accepts is the minimum.
   */
  lemma MinSound(P: Order, D: int, nd: bool, bc: BoundedComparator, x: int, y: int, m: int)
    requires NoZeroDivisors(P)
    requires NewBoundedComparator(P, D, nd) == Success(bc)
    requires Elem(P, m)
    requires -(P - Pow2(bc.absDiffUppBitLen)) <= x - y <= P - Pow2(bc.absDiffUppBitLen)
    requires Satisfied(P, Min(P, bc, Enc(P, x), Enc(P, y), m).constraints)
    ensures m == Enc(P, if x <= y then x else y)
  {
    MinConstraints(P, bc, Enc(P, x), Enc(P, y), m);
    MinFromCheck(P, D, nd, bc, x, y, m);
  }

  /** If m is one operand and the other's excess over it passes the check, m is the minimum. */
  lemma MinFromCheck(P: Order, D: int, nd: bool, bc: BoundedComparator, x: int, y: int, m: int)
    requires NewBoundedComparator(P, D, nd) == Success(bc)
    requires -(P - Pow2(bc.absDiffUppBitLen)) <= x - y <= P - Pow2(bc.absDiffUppBitLen)
    requires || (m == Enc(P, x) && Satisfied(P, AssertIsNonNegative(P, bc, Sub(P, Enc(P, y), Enc(P, x)))))
             || (m == Enc(P, y) && Satisfied(P, AssertIsNonNegative(P, bc, Sub(P, Enc(P, x), Enc(P, y)))))
    ensures m == Enc(P, if x <= y then x else y)
  {
    var a, b := Enc(P, x), Enc(P, y);
    if m == a && Satisfied(P, AssertIsNonNegative(P, bc, Sub(P, b, a))) {
      if y < x {
        EncSub(P, y, x);
        NonNegativeIff(P, D, nd, bc, y - x);
        assert false;
      }
    } else {
      assert m == b && Satisfied(P, AssertIsNonNegative(P, bc, Sub(P, a, b)));
      if x < y {
        EncSub(P, x, y);
        NonNegativeIff(P, D, nd, bc, x - y);
        assert false;
      }
    }
  }

  // ---------------------------------------------------------------------------
  // Witness-time hints

  /** big.Int's Cmp. */
  function Cmp(x: int, y: int): int {
    if x < y then -1 else if x == y then 0 else 1
  }

  /**
    cmpInField: compares a and b with the raw order, except that the result
    is negated when the sign comparisons with P >> 1 multiply to -1.
   */
  function CmpInField(P: Order, a: int, b: int): (c: int)
    ensures -1 <= c <= 1
    ensures c == 0 <==> a == b
  {
    var biggestPositiveNum := P / 2;
    if Cmp(a, biggestPositiveNum) * Cmp(b, biggestPositiveNum) == -1 then -Cmp(a, b) else Cmp(a, b)
  }

  /** a and b lie strictly on opposite sides of P >> 1. */
  predicate OppositeSides(P: Order, a: int, b: int) {
    (a < P / 2 < b) || (b < P / 2 < a)
  }

  /** cmpInField is the raw comparison, negated exactly when the operands are strictly on opposite sides of P >> 1. */
  lemma CmpInFieldSides(P: Order, a: int, b: int)
    ensures CmpInField(P, a, b) == (if OppositeSides(P, a, b) then -Cmp(a, b) else Cmp(a, b))
  {
  }

  lemma CmpInFieldAntisymmetric(P: Order, a: int, b: int)
    ensures CmpInField(P, a, b) == -CmpInField(P, b, a)
  {
    CmpInFieldSides(P, a, b);
    CmpInFieldSides(P, b, a);
  }

  /**
    cmpInField agrees with the order of the signed representatives whenever
    they are less than P / 2 apart, which a valid comparator's bound ensures.
   */
  lemma CmpInFieldSigned(P: Order, a: int, b: int)
    requires Elem(P, a) && Elem(P, b)
    requires -(P as int) < 2 * (Signed(P, a) - Signed(P, b)) < P
    ensures CmpInField(P, a, b) == Cmp(Signed(P, a), Signed(P, b))
  {
    CmpInFieldSides(P, a, b);
  }

  /**
    Without the bound the agreement fails: for odd P the largest positive
    value P >> 1 compares below P >> 1 + 1, whose signed value is negative.
   */
  lemma CmpInFieldEdgeCase(P: Order)
    requires P % 2 == 1
    ensures P / 2 + 1 < P
    ensures CmpInField(P, P / 2, P / 2 + 1) == -1
    ensures Signed(P, P / 2) > Signed(P, P / 2 + 1)
  {
  }

  /** isLessOutputHint: 1 when cmpInField(a, b) is -1, and 0 otherwise. */
  function IsLessOutputHint(P: Order, a: int, b: int): (bit: int)
    ensures bit == 0 || bit == 1
    ensures bit == 1 <==> CmpInField(P, a, b) == -1
  {
    if CmpInField(P, a, b) == -1 then 1 else 0
  }

  /** minOutputHint: a when cmpInField(a, b) is -1, and b otherwise; always one of its inputs. */
  function MinOutputHint(P: Order, a: int, b: int): (m: int)
    ensures m == a || m == b
    ensures CmpInField(P, a, b) == -1 ==> m == a
  {
    if CmpInField(P, a, b) == -1 then a else b
  }

  /**
    Completeness of IsLess: for field elements whose signed values are
    within the bound, the hint's bit is the signed comparison and satisfies
    the constraints.
   */
  lemma IsLessHintComplete(P: Order, D: int, nd: bool, bc: BoundedComparator, a: int, b: int)
    requires NewBoundedComparator(P, D, nd) == Success(bc)
    requires Elem(P, a) && Elem(P, b)
    requires -D <= Signed(P, a) - Signed(P, b) <= D
    ensures IsLessOutputHint(P, a, b) == (if Signed(P, a) < Signed(P, b) then 1 else 0)
    ensures Satisfied(P, IsLess(P, bc, a, b, IsLessOutputHint(P, a, b)).constraints)
  {
    BoundBelowHalf(P, D, nd, bc);
    CmpInFieldSigned(P, a, b);
    IsLessCorrect(P, D, nd, bc, Signed(P, a), Signed(P, b), IsLessOutputHint(P, a, b));
  }

  /**
    Completeness of Min: for field elements whose signed values are within
    the bound, the hint returns the one with the smaller signed value and
    that output satisfies the constraints.
   */
  lemma MinHintComplete(P: Order, D: int, nd: bool, bc: BoundedComparator, a: int, b: int)
    requires NewBoundedComparator(P, D, nd) == Success(bc)
    requires Elem(P, a) && Elem(P, b)
    requires -D <= Signed(P, a) - Signed(P, b) <= D
    ensures MinOutputHint(P, a, b) == (if Signed(P, a) <= Signed(P, b) then a else b)
    ensures Satisfied(P, Min(P, bc, a, b, MinOutputHint(P, a, b)).constraints)
  {
    BoundBelowHalf(P, D, nd, bc);
    CmpInFieldSigned(P, a, b);
    MinAcceptsMinimum(P, D, nd, bc, Signed(P, a), Signed(P, b));
  }

  // ---------------------------------------------------------------------------
  // IsLessEq's witness

  /**
    The witness IsLessEq produces: IsLess(a, b + 1) asks the isLess hint
    about a and the field element b + 1.
   */
  function IsLessEqAsWrittenHint(P: Order, a: int, b: int): (bit: int)
    ensures bit == 0 || bit == 1
    ensures bit == 1 <==> CmpInField(P, a, (b + 1) % P) == -1
  {
    IsLessOutputHint(P, a, Add(P, b, 1))
  }

  /**
    For odd P and operands within the bound, that witness satisfies IsLessEq
    exactly unless b is the largest positive value P >> 1 and a != b: there
    b + 1 wraps to the most negative value and the hint answers 0 although a < b.
   */
  lemma IsLessEqAsWritten(P: Order, D: int, nd: bool, bc: BoundedComparator, a: int, b: int)
    requires NewBoundedComparator(P, D, nd) == Success(bc)
    requires P % 2 == 1
    requires Elem(P, a) && Elem(P, b)
    requires -D <= Signed(P, a) - Signed(P, b) <= D
    ensures Satisfied(P, IsLessEq(P, bc, a, b, IsLessEqAsWrittenHint(P, a, b)).constraints) <==>
              !(b == P / 2 && a != b)
  {
    BoundBelowHalf(P, D, nd, bc);
    OddIsNotEven(P, D + 1);
    var x, y := Signed(P, a), Signed(P, b);
    var bit := IsLessEqAsWrittenHint(P, a, b);
    assert Enc(P, x) == a && Enc(P, y) == b;
    IsLessEqCorrect(P, D, nd, bc, x, y, bit);
    if b == P / 2 {
      AsWrittenHintAtLargest(P, a, b);
      assert bit == (if x <= y then 1 else 0) <==> !(b == P / 2 && a != b);
    } else {
      AsWrittenHintBelowLargest(P, a, b);
    }
  }

  /**
    At b == P >> 1 every a within half the field is at most b in the signed
    order, yet the as-written witness is 1 only for a == b.
   */
  lemma AsWrittenHintAtLargest(P: Order, a: int, b: int)
    requires P % 2 == 1
    requires Elem(P, a) && b == P / 2
    requires -(P as int) < 2 * (Signed(P, a) - Signed(P, b)) < P
    ensures Signed(P, a) <= Signed(P, b)
    ensures IsLessEqAsWrittenHint(P, a, b) == (if a == b then 1 else 0)
  {
    assert Signed(P, b) == b;
    assert a <= b;
    ModUnique(P, b + 1, 0, b + 1);
    assert Add(P, b, 1) == P / 2 + 1;
  }

  lemma OddIsNotEven(n: int, k: int)
    requires n % 2 == 1
    ensures n != 2 * k
  {
    if n == 2 * k {
      ModUnique(2, n, k, 0);
      assert false;
    }
  }

  /** Below P >> 1 the as-written witness is the signed a <= b. */
  lemma AsWrittenHintBelowLargest(P: Order, a: int, b: int)
    requires P % 2 == 1
    requires Elem(P, a) && Elem(P, b) && b != P / 2
    requires -(P as int) < 2 * (Signed(P, a) - Signed(P, b) - 1) < P
    ensures IsLessEqAsWrittenHint(P, a, b) == (if Signed(P, a) <= Signed(P, b) then 1 else 0)
  {
    SuccessorSigned(P, b);
    CmpInFieldSigned(P, a, Add(P, b, 1));
  }

  /** Below the largest positive value, adding one in the field adds one to the signed value. */
  lemma SuccessorSigned(P: Order, b: int)
    requires P % 2 == 1
    requires Elem(P, b) && b != P / 2
    ensures Signed(P, Add(P, b, 1)) == Signed(P, b) + 1
  {
    if b + 1 < P {
      ModUnique(P, b + 1, 0, b + 1);
    } else {
      ModUnique(P, b + 1, 1, 0);
    }
  }

  /**
    The witness IsLessEq needs, computed from a and b themselves: 1 when a
    is not above b in cmpInField's order.
   */
  function IsLessEqOutputHint(P: Order, a: int, b: int): (bit: int)
    ensures bit == 0 || bit == 1
    ensures bit == 1 <==> CmpInField(P, a, b) != 1
  {
    if CmpInField(P, a, b) == 1 then 0 else 1
  }

  /**
    Completeness of IsLessEq with that witness: for field elements whose
    signed values are within the bound, the bit is the signed a <= b and it
    satisfies the constraints, the largest positive b included.
   */
  lemma IsLessEqHintComplete(P: Order, D: int, nd: bool, bc: BoundedComparator, a: int, b: int)
    requires NewBoundedComparator(P, D, nd) == Success(bc)
    requires Elem(P, a) && Elem(P, b)
    requires -D <= Signed(P, a) - Signed(P, b) <= D
    ensures IsLessEqOutputHint(P, a, b) == (if Signed(P, a) <= Signed(P, b) then 1 else 0)
    ensures Satisfied(P, IsLessEq(P, bc, a, b, IsLessEqOutputHint(P, a, b)).constraints)
  {
    BoundBelowHalf(P, D, nd, bc);
    CmpInFieldSigned(P, a, b);
    IsLessEqCorrect(P, D, nd, bc, Signed(P, a), Signed(P, b), IsLessEqOutputHint(P, a, b));
  }
}
