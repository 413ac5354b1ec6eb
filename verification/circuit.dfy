/**
  The part of the constraint-system interface the gadgets use.

  A gadget call is modelled in two phases. At circuit-build time it emits a
  list of constraints over its inputs and over the outputs of the hints it
  requests. At witness time those hint outputs receive concrete values; here
  they are an explicit argument of each gadget, so that one and the same
  gadget can be evaluated on the honest hint's values and on any other
  witness a prover might supply. A witness is accepted when every emitted
  constraint holds.
 */
module Circuit {
  import opened Field

  datatype Constraint =
    | AssertIsEqual(lhs: int, rhs: int)   // api.AssertIsEqual
    | AssertIsBoolean(v: int)             // the boolean check inside api.Select
    | AssertBitLen(bitLen: nat, v: int)   // convert.AssertBitLen: v has at most bitLen binary digits

  predicate Holds(P: Order, c: Constraint) {
    match c
    case AssertIsEqual(lhs, rhs) => Enc(P, lhs) == Enc(P, rhs)
    case AssertIsBoolean(v) => Enc(P, v) == 0 || Enc(P, v) == 1
    case AssertBitLen(n, v) => Enc(P, v) < Pow2(n)
  }

  /** A witness satisfies a constraint list when every constraint holds. */
  predicate Satisfied(P: Order, cs: seq<Constraint>) {
    forall i :: 0 <= i < |cs| ==> Holds(P, cs[i])
  }

  lemma SatisfiedAppend(P: Order, a: seq<Constraint>, b: seq<Constraint>)
    ensures Satisfied(P, a + b) <==> Satisfied(P, a) && Satisfied(P, b)
  {
    if Satisfied(P, a) && Satisfied(P, b) {
      forall i | 0 <= i < |a + b|
        ensures Holds(P, (a + b)[i])
      {
        if i >= |a| {
          assert (a + b)[i] == b[i - |a|];
        }
      }
    }
    if Satisfied(P, a + b) {
      forall i | 0 <= i < |a|
        ensures Holds(P, a[i])
      {
        assert (a + b)[i] == a[i];
      }
      forall i | 0 <= i < |b|
        ensures Holds(P, b[i])
      {
        assert (a + b)[|a| + i] == b[i];
      }
    }
  }

  lemma SatisfiedSingle(P: Order, c: Constraint)
    ensures Satisfied(P, [c]) <==> Holds(P, c)
  {
    assert [c][0] == c;
  }

  /** The output variable of a gadget together with the constraints it emits. */
  datatype Gadget = Gadget(out: int, constraints: seq<Constraint>)

  datatype Result<+T, +E> = Success(value: T) | Failure(error: E)

  /**
    api.Select(cond, whenOne, whenZero): a boolean constraint on cond and the
    output whenZero + cond * (whenOne - whenZero).
   */
  function Select(P: Order, cond: int, whenOne: int, whenZero: int): (g: Gadget)
    ensures Satisfied(P, g.constraints) <==> Enc(P, cond) == 0 || Enc(P, cond) == 1
    ensures Enc(P, cond) == 0 ==> g.out == Enc(P, whenZero)
    ensures Enc(P, cond) == 1 ==> g.out == Enc(P, whenOne)
  {
    var diff := Sub(P, whenOne, whenZero);
    SelectOutput(P, cond, whenOne, whenZero);
    SatisfiedSingle(P, AssertIsBoolean(cond));
    Gadget(Add(P, whenZero, Mul(P, cond, diff)), [AssertIsBoolean(cond)])
  }

  lemma SelectOutput(P: Order, cond: int, whenOne: int, whenZero: int)
    ensures Enc(P, cond) == 0 ==> Add(P, whenZero, Mul(P, cond, Sub(P, whenOne, whenZero))) == Enc(P, whenZero)
    ensures Enc(P, cond) == 1 ==> Add(P, whenZero, Mul(P, cond, Sub(P, whenOne, whenZero))) == Enc(P, whenOne)
  {
    var diff := Sub(P, whenOne, whenZero);
    ModMulLeft(P, cond, diff);
    if cond % P == 0 {
      assert (cond % P) * diff == 0;
      assert Mul(P, cond, diff) == 0;
    } else if cond % P == 1 {
      assert (cond % P) * diff == diff;
      ModUnique(P, diff, 0, diff);
      assert Mul(P, cond, diff) == diff;
      ModAddRight(P, whenZero, whenOne - whenZero);
      assert Add(P, whenZero, diff) == (whenZero + (whenOne - whenZero)) % P;
    }
  }
}
