/**
  Arithmetic of a prime field of order P, as the gadgets see it.

  A field element is represented by its canonical residue in [0, P). An
  integer x (for instance a signed operand of the comparator) is encoded as
  the element Enc(P, x) == x % P; Dafny's `%` is Euclidean, so the residue of
  a negative integer is P minus its magnitude, which is the field's negative.
  Primality of P is not built in: the results that need it take
  NoZeroDivisors(P) as an explicit precondition.
 */
module Field {

  /** The order of the underlying field (what the runtime's FieldOrder returns). */
  type Order = p: int | 2 <= p witness 2

  /** x is the canonical representative of a field element. */
  predicate Elem(P: Order, x: int) {
    0 <= x < P
  }

  predicate Elems(P: Order, s: seq<int>) {
    forall i :: 0 <= i < |s| ==> Elem(P, s[i])
  }

  /** The field element that represents the integer x. */
  function Enc(P: Order, x: int): (r: int)
    ensures Elem(P, r)
    ensures Elem(P, x) ==> r == x
  {
    x % P
  }

  /** Field addition, subtraction and multiplication on representatives. */
  function Add(P: Order, x: int, y: int): (r: int)
    ensures Elem(P, r)
  {
    (x + y) % P
  }

  function Sub(P: Order, x: int, y: int): (r: int)
    ensures Elem(P, r)
  {
    (x - y) % P
  }

  function Mul(P: Order, x: int, y: int): (r: int)
    ensures Elem(P, r)
  {
    (x * y) % P
  }

  /** The field has no zero divisors; this holds exactly when P is prime. */
  ghost predicate NoZeroDivisors(P: Order) {
    forall x, y :: Elem(P, x) && Elem(P, y) && Mul(P, x, y) == 0 ==> x == 0 || y == 0
  }

  // ---------------------------------------------------------------------------
  // Residues

  /** A residue is determined by any quotient/remainder decomposition. */
  lemma ModUnique(P: Order, z: int, q: int, r: int)
    requires 0 <= r < P
    requires z == q * P + r
    ensures z % P == r
  {
    var q0 := z / P;
    assert z == q0 * P + z % P;
    assert (q - q0) * P == z % P - r;
    MultipleBelowOrder(P, q - q0);
  }

  lemma MultipleBelowOrder(P: Order, d: int)
    requires -(P as int) < d * P < P
    ensures d == 0
  {
  }

  /** Adding a multiple of P does not change the residue. */
  lemma ModShift(P: Order, x: int, k: int)
    ensures (x + k * P) % P == x % P
  {
    ModUnique(P, x + k * P, x / P + k, x % P);
  }

  lemma ModAddLeft(P: Order, x: int, y: int)
    ensures (x % P + y) % P == (x + y) % P
  {
    assert x == (x / P) * P + x % P;
    ModShift(P, x % P + y, x / P);
  }

  lemma ModAddRight(P: Order, x: int, y: int)
    ensures (x + y % P) % P == (x + y) % P
  {
    assert y == (y / P) * P + y % P;
    ModShift(P, x + y % P, y / P);
  }

  lemma ModSubRight(P: Order, x: int, y: int)
    ensures (x - y % P) % P == (x - y) % P
  {
    assert y == (y / P) * P + y % P;
    ModShift(P, x - y % P, -(y / P));
  }

  lemma ModSubLeft(P: Order, x: int, y: int)
    ensures (x % P - y) % P == (x - y) % P
  {
    assert x == (x / P) * P + x % P;
    ModShift(P, x % P - y, x / P);
  }

  lemma ModMulLeft(P: Order, x: int, y: int)
    ensures ((x % P) * y) % P == (x * y) % P
  {
    var q := x / P;
    assert x * y == (x % P) * y + (q * y) * P;
    ModShift(P, (x % P) * y, q * y);
  }

  lemma ModMulRight(P: Order, x: int, y: int)
    ensures (x * (y % P)) % P == (x * y) % P
  {
    assert x * (y % P) == (y % P) * x;
    assert x * y == y * x;
    ModMulLeft(P, y, x);
  }

  /** Encoding commutes with the field operations. */
  lemma EncSub(P: Order, x: int, y: int)
    ensures Sub(P, Enc(P, x), Enc(P, y)) == Enc(P, x - y)
  {
    ModSubLeft(P, x, y % P);
    ModSubRight(P, x, y);
  }

  lemma EncAdd(P: Order, x: int, y: int)
    ensures Add(P, Enc(P, x), Enc(P, y)) == Enc(P, x + y)
  {
    ModAddLeft(P, x, y % P);
    ModAddRight(P, x, y);
  }

  /** Two representatives differ by a multiple of P only when they are equal. */
  lemma SubZeroIffEqual(P: Order, x: int, y: int)
    requires Elem(P, x) && Elem(P, y)
    ensures Sub(P, x, y) == 0 <==> x == y
  {
    if x < y {
      ModUnique(P, x - y, -1, x - y + P);
    } else {
      ModUnique(P, x - y, 0, x - y);
    }
  }

  /** Two integers differ by a multiple of P exactly when they encode to the same element. */
  lemma SubZeroIffSameEnc(P: Order, x: int, y: int)
    ensures Sub(P, x, y) == 0 <==> Enc(P, x) == Enc(P, y)
  {
    EncSub(P, x, y);
    SubZeroIffEqual(P, Enc(P, x), Enc(P, y));
  }

  /** The elements that the integers of s stand for, as a hint receives them. */
  function EncAll(P: Order, s: seq<int>): (r: seq<int>)
    ensures |r| == |s| && Elems(P, r)
    ensures forall i :: 0 <= i < |s| ==> r[i] == Enc(P, s[i])
  {
    seq(|s|, i requires 0 <= i < |s| => Enc(P, s[i]))
  }

  // ---------------------------------------------------------------------------
  // Powers of two and bit length

  function Pow2(n: nat): (r: nat)
    ensures r >= 1
  {
    if n == 0 then 1 else 2 * Pow2(n - 1)
  }

  lemma {:induction false} Pow2Monotone(m: nat, n: nat)
    requires m <= n
    ensures Pow2(m) <= Pow2(n)
  {
    if m < n {
      Pow2Monotone(m, n - 1);
    }
  }

  /**
    The length of the binary representation of x, as big.Int's BitLen
    computes it: the least n with x < 2^n (so BitLen(0) == 0).
   */
  function BitLen(x: nat): (n: nat)
    ensures x < Pow2(n)
    ensures n == 0 || Pow2(n - 1) <= x
  {
    if x == 0 then 0 else 1 + BitLen(x / 2)
  }

  /** x fits in n bits exactly when its bit length is at most n. */
  lemma BitLenAtMost(x: nat, n: nat)
    ensures x < Pow2(n) <==> BitLen(x) <= n
  {
    if BitLen(x) <= n {
      Pow2Monotone(BitLen(x), n);
    } else {
      Pow2Monotone(n, BitLen(x) - 1);
    }
  }

  // ---------------------------------------------------------------------------
  // Signed interpretation

  /**
    The canonical signed representative of a field element: v itself when
    v <= (P-1)/2, and v - P otherwise.
   */
  function Signed(P: Order, v: int): (s: int)
    requires Elem(P, v)
    ensures Enc(P, s) == v
    ensures -(P / 2) <= s <= (P - 1) / 2
  {
    SignedFacts(P, v);
    if v <= (P - 1) / 2 then v else v - P
  }

  lemma SignedFacts(P: Order, v: int)
    requires Elem(P, v)
    ensures v > (P - 1) / 2 ==> Enc(P, v - P) == v && -(P / 2) <= v - P
  {
    if v > (P - 1) / 2 {
      Halves(P);
      assert v >= P - P / 2;
      ModUnique(P, v - P, -1, v);
    }
  }

  /** The two halves around the middle of the field add up to P - 1. */
  lemma Halves(P: Order)
    ensures P / 2 + (P - 1) / 2 == P - 1
  {
    if P % 2 == 0 {
      ModUnique(2, P - 1, P / 2 - 1, 1);
    } else {
      ModUnique(2, P - 1, P / 2, 0);
    }
  }

  /** Signed and Enc are inverse on the signed range. */
  lemma SignedEnc(P: Order, s: int)
    requires -(P / 2) <= s <= (P - 1) / 2
    ensures Signed(P, Enc(P, s)) == s
  {
    if s >= 0 {
      ModUnique(P, s, 0, s);
    } else {
      ModUnique(P, s, -1, s + P);
    }
  }
}
