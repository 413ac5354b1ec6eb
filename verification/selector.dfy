/**
  The selector gadgets: Map (lookup by key) and Mux (lookup by index). Both
  are built by GenerateSelector from an indicator vector that a hint supplies
  at witness time; the circuit only constrains that vector:
    indicator[i] * (sel - key_i) == 0 for every i, and  Σ indicator == 1,
  and outputs Σ indicator[i] * values[i].
 */
module Selector {
  import opened Field
  import opened Circuit

  /**
    What generateSelector returns: the output variable, the indicator
    variables (empty where generateSelector returns nil) and the constraints emitted.
   */
  datatype Selection = Selection(out: int, indicators: seq<int>, constraints: seq<Constraint>)

  datatype SelectorError = KeysValuesLengthMismatch

  function Sum(s: seq<int>): int
  {
    if |s| == 0 then 0 else s[0] + Sum(s[1..])
  }

  /** Σ w[i] * v[i] over the indices of w. */
  function Dot(w: seq<int>, v: seq<int>): int
    requires |w| <= |v|
  {
    if |w| == 0 then 0 else w[0] * v[0] + Dot(w[1..], v[1..])
  }

  /** w is 1 at index k and 0 at every other index. */
  predicate IsOneHot(w: seq<int>, k: int) {
    0 <= k < |w| && forall i :: 0 <= i < |w| ==> w[i] == (if i == k then 1 else 0)
  }

  predicate Distinct(s: seq<int>) {
    forall i, j :: 0 <= i < j < |s| ==> s[i] != s[j]
  }

  /** The candidate keys of a multiplexer: the indices 0 .. n-1. */
  function Indices(n: nat): (ks: seq<int>)
    ensures |ks| == n
    ensures forall i :: 0 <= i < n ==> ks[i] == i
  {
    seq(n, i => i)
  }

  // ---------------------------------------------------------------------------
  // Sums of vectors that vanish outside one index

  lemma {:induction false} SumZeroOutside(w: seq<int>, k: int)
    requires forall i :: 0 <= i < |w| && i != k ==> w[i] == 0
    ensures Sum(w) == (if 0 <= k < |w| then w[k] else 0)
  {
    if |w| > 0 {
      forall i | 0 <= i < |w[1..]| && i != k - 1
        ensures w[1..][i] == 0
      {
        assert w[1..][i] == w[i + 1];
      }
      SumZeroOutside(w[1..], k - 1);
    }
  }

  lemma {:induction false} DotZeroOutside(w: seq<int>, v: seq<int>, k: int)
    requires |w| <= |v|
    requires forall i :: 0 <= i < |w| && i != k ==> w[i] == 0
    ensures Dot(w, v) == (if 0 <= k < |w| then w[k] * v[k] else 0)
  {
    if |w| > 0 {
      forall i | 0 <= i < |w[1..]| && i != k - 1
        ensures w[1..][i] == 0
      {
        assert w[1..][i] == w[i + 1];
      }
      DotZeroOutside(w[1..], v[1..], k - 1);
    }
  }

  /** The dot product only reads v where w is non-zero. */
  lemma {:induction false} DotAgree(w: seq<int>, v: seq<int>, v': seq<int>)
    requires |w| <= |v| && |w| <= |v'|
    requires forall i :: 0 <= i < |w| && w[i] != 0 ==> v[i] == v'[i]
    ensures Dot(w, v) == Dot(w, v')
  {
    if |w| > 0 {
      forall i | 0 <= i < |w[1..]| && w[1..][i] != 0
        ensures v[1..][i] == v'[1..][i]
      {
        assert w[1..][i] == w[i + 1];
      }
      DotAgree(w[1..], v[1..], v'[1..]);
    }
  }

  // ---------------------------------------------------------------------------
  // Hints

  /**
    muxIndicators: all n result slots are written, slot i with 1 when sel
    equals i and with 0 otherwise.
   */
  function MuxIndicators(sel: int, n: nat): (r: seq<int>)
    ensures |r| == n
    ensures forall i :: 0 <= i < n ==> (r[i] == 0 || r[i] == 1) && (r[i] == 1 <==> sel == i)
  {
    seq(n, i => if sel == i then 1 else 0)
  }

  /** The mux hint is one-hot, at sel, exactly when sel is an index; otherwise it is all zero. */
  lemma MuxIndicatorsOneHot(sel: int, n: nat)
    ensures IsOneHot(MuxIndicators(sel, n), sel) <==> 0 <= sel < n
    ensures Sum(MuxIndicators(sel, n)) == (if 0 <= sel < n then 1 else 0)
  {
    SumZeroOutside(MuxIndicators(sel, n), sel);
  }

  /**
    mapIndicators: the query key is the last input; all n result slots are
    written, slot i with 1 when inputs[i] equals the query key and 0 otherwise.
   */
  function MapIndicators(inputs: seq<int>, n: nat): (r: seq<int>)
    requires 1 <= |inputs| && n <= |inputs|
    ensures |r| == n
    ensures forall i :: 0 <= i < n ==>
              (r[i] == 0 || r[i] == 1) && (r[i] == 1 <==> inputs[i] == inputs[|inputs| - 1])
  {
    var key := inputs[|inputs| - 1];
    seq(n, i requires 0 <= i < n => if key == inputs[i] then 1 else 0)
  }

  /**
    With the hint inputs laid out as keys ++ [queryKey] (as Map does), slot i
    is 1 exactly when keys[i] == queryKey, and the vector is one-hot at k
    exactly when k is the only index holding queryKey.
   */
  lemma MapIndicatorsOneHot(keys: seq<int>, queryKey: int, k: int)
    ensures forall i :: 0 <= i < |keys| ==>
              (MapIndicators(keys + [queryKey], |keys|)[i] == 1 <==> keys[i] == queryKey)
    ensures IsOneHot(MapIndicators(keys + [queryKey], |keys|), k) <==>
              0 <= k < |keys| && keys[k] == queryKey
              && forall i :: 0 <= i < |keys| && i != k ==> keys[i] != queryKey
  {
    var inputs := keys + [queryKey];
    assert inputs[|inputs| - 1] == queryKey;
    assert forall i :: 0 <= i < |keys| ==> inputs[i] == keys[i];
  }

  // ---------------------------------------------------------------------------
  // The shared engine

  /** Every zero-product constraint indicator[i] * (sel - key_i) == 0 holds. */
  predicate ZeroProducts(P: Order, sel: int, ks: seq<int>, w: seq<int>)
    requires |ks| == |w|
  {
    forall i :: 0 <= i < |w| ==> Mul(P, w[i], Sub(P, sel, ks[i])) == 0
  }

  /**
    The constraints of the loop of generateSelector followed by the sum check,
    for candidate keys ks and indicator witness w.
   */
  function IndicatorConstraints(P: Order, sel: int, ks: seq<int>, w: seq<int>): (cs: seq<Constraint>)
    requires |ks| == |w|
    ensures Satisfied(P, cs) <==> ZeroProducts(P, sel, ks, w) && Enc(P, Sum(w)) == 1
  {
    var products := seq(|w|, i requires 0 <= i < |w| => AssertIsEqual(Mul(P, w[i], Sub(P, sel, ks[i])), 0));
    var sumIsOne := AssertIsEqual(Sum(w), 1);
    SatisfiedAppend(P, products, [sumIsOne]);
    SatisfiedSingle(P, sumIsOne);
    assert Satisfied(P, products) <==> ZeroProducts(P, sel, ks, w) by {
      assert forall i :: 0 <= i < |w| ==> (Holds(P, products[i]) <==> Mul(P, w[i], Sub(P, sel, ks[i])) == 0);
    }
    products + [sumIsOne]
  }

  /** The number of indicator variables requested from the hint (none on the two-input Mux path). */
  function IndicatorCount(wantMux: bool, keys: seq<int>, values: seq<int>): nat {
    if wantMux then (if |values| == 2 then 0 else |values|) else |keys|
  }

  /** key_i of the zero-product constraints: the index i for a Mux, keys[i] for a Map. */
  function CandidateKeys(wantMux: bool, keys: seq<int>, values: seq<int>): seq<int> {
    if wantMux then Indices(|values|) else keys
  }

  /**
    generateSelector. A Mux with exactly two inputs is a single Select and has
    no indicators; every other call takes its indicators from the witness w,
    emits the indicator constraints and outputs Σ w[i] * values[i] (the
    running field sums of generateSelector reduce to one reduction of that sum).
   */
  function GenerateSelector(P: Order, wantMux: bool, sel: int, keys: seq<int>, values: seq<int>, w: seq<int>): (r: Selection)
    requires !wantMux ==> |keys| <= |values|
    requires |w| == IndicatorCount(wantMux, keys, values)
    ensures wantMux && |values| == 2 ==>
              && r.indicators == []
              && (Satisfied(P, r.constraints) <==> Enc(P, sel) == 0 || Enc(P, sel) == 1)
              && (Enc(P, sel) == 0 ==> r.out == Enc(P, values[0]))
              && (Enc(P, sel) == 1 ==> r.out == Enc(P, values[1]))
    ensures !(wantMux && |values| == 2) ==>
              && r.indicators == w
              && (Satisfied(P, r.constraints) <==>
                    ZeroProducts(P, sel, CandidateKeys(wantMux, keys, values), w) && Enc(P, Sum(w)) == 1)
              && r.out == Enc(P, Dot(w, values))
  {
    if wantMux && |values| == 2 then
      var g := Select(P, sel, values[1], values[0]);
      Selection(g.out, [], g.constraints)
    else
      Selection(Enc(P, Dot(w, values)), w, IndicatorConstraints(P, sel, CandidateKeys(wantMux, keys, values), w))
  }

  /** Mux: an n-to-1 multiplexer, out = inputs[sel]. */
  function Mux(P: Order, sel: int, inputs: seq<int>, w: seq<int>): (r: Selection)
    requires |w| == IndicatorCount(true, [], inputs)
    ensures |inputs| == 2 ==> r.indicators == []
    ensures |inputs| != 2 ==> r.indicators == w
    ensures |inputs| != 2 && IsOneHot(w, sel) ==>
              Satisfied(P, r.constraints) && r.out == Enc(P, inputs[sel])
  {
    OneHotAtSel(P, sel, inputs, w);
    GenerateSelector(P, true, sel, [], inputs, w)
  }

  /** An indicator witness that is one-hot at sel passes the mux constraints and picks inputs[sel]. */
  lemma OneHotAtSel(P: Order, sel: int, inputs: seq<int>, w: seq<int>)
    requires |w| <= |inputs|
    ensures |w| == |inputs| && IsOneHot(w, sel) ==>
              ZeroProducts(P, sel, Indices(|inputs|), w) && Enc(P, Sum(w)) == 1 && Dot(w, inputs) == inputs[sel]
  {
    if |w| == |inputs| && IsOneHot(w, sel) {
      OneHotComplete(P, sel, Indices(|inputs|), w, inputs, sel);
    }
  }

  /** Map: out = values[i] for the i with keys[i] == queryKey; fails before emitting anything when the lengths differ. */
  function Map(P: Order, queryKey: int, keys: seq<int>, values: seq<int>, w: seq<int>): (r: Result<Selection, SelectorError>)
    requires |w| == |keys|
    ensures r.Failure? <==> |keys| != |values|
    ensures r.Success? ==> r.value.indicators == w
  {
    if |keys| != |values| then Failure(KeysValuesLengthMismatch)
    else Success(GenerateSelector(P, false, queryKey, keys, values, w))
  }

  // ---------------------------------------------------------------------------
  // Completeness and soundness of the indicator constraints

  /** A one-hot witness at a candidate whose key is sel in the field satisfies the constraints and selects values[k]. */
  lemma OneHotComplete(P: Order, sel: int, ks: seq<int>, w: seq<int>, values: seq<int>, k: int)
    requires |ks| == |w| <= |values|
    requires IsOneHot(w, k) && Enc(P, ks[k]) == Enc(P, sel)
    ensures ZeroProducts(P, sel, ks, w) && Enc(P, Sum(w)) == 1
    ensures Dot(w, values) == values[k]
  {
    SubZeroIffSameEnc(P, sel, ks[k]);
    forall i | 0 <= i < |w|
      ensures Mul(P, w[i], Sub(P, sel, ks[i])) == 0
    {
      if i == k {
        assert Sub(P, sel, ks[k]) == 0;
        assert w[i] * Sub(P, sel, ks[i]) == 0;
      } else {
        assert w[i] == 0;
        assert w[i] * Sub(P, sel, ks[i]) == 0;
      }
    }
    SumZeroOutside(w, k);
    DotZeroOutside(w, values, k);
  }

  /** In a field without zero divisors a satisfying witness is 0 at every candidate whose key differs from sel. */
  lemma ForcedZero(P: Order, sel: int, ks: seq<int>, w: seq<int>)
    requires NoZeroDivisors(P)
    requires Elem(P, sel) && Elems(P, ks) && Elems(P, w) && |ks| == |w|
    requires ZeroProducts(P, sel, ks, w)
    ensures forall i :: 0 <= i < |w| && ks[i] != sel ==> w[i] == 0
  {
    forall i | 0 <= i < |w| && ks[i] != sel
      ensures w[i] == 0
    {
      SubZeroIffEqual(P, sel, ks[i]);
      assert Mul(P, w[i], Sub(P, sel, ks[i])) == 0;
    }
  }

  /** When exactly one candidate key equals sel, the only satisfying witness is one-hot there. */
  lemma UniqueMatchSound(P: Order, sel: int, ks: seq<int>, w: seq<int>, values: seq<int>, k: int)
    requires NoZeroDivisors(P)
    requires Elem(P, sel) && Elems(P, ks) && Elems(P, w) && |ks| == |w| <= |values|
    requires 0 <= k < |ks| && ks[k] == sel
    requires forall i :: 0 <= i < |ks| && i != k ==> ks[i] != sel
    requires ZeroProducts(P, sel, ks, w) && Enc(P, Sum(w)) == 1
    ensures IsOneHot(w, k)
    ensures Dot(w, values) == values[k]
  {
    ForcedZero(P, sel, ks, w);
    SumZeroOutside(w, k);
    DotZeroOutside(w, values, k);
  }

  /** When no candidate key equals sel, no witness satisfies the constraints. */
  lemma NoMatchUnsat(P: Order, sel: int, ks: seq<int>, w: seq<int>)
    requires NoZeroDivisors(P)
    requires Elem(P, sel) && Elems(P, ks) && Elems(P, w) && |ks| == |w|
    requires forall i :: 0 <= i < |ks| ==> ks[i] != sel
    ensures !(ZeroProducts(P, sel, ks, w) && Enc(P, Sum(w)) == 1)
  {
    if ZeroProducts(P, sel, ks, w) {
      ForcedZero(P, sel, ks, w);
      SumZeroOutside(w, -1);
    }
  }

  // ---------------------------------------------------------------------------
  // Mux

  /** With two inputs Mux is one Select: sel must be 0 or 1 and picks that input; no indicators are returned. */
  lemma MuxTwoInputs(P: Order, sel: int, inputs: seq<int>)
    requires |inputs| == 2 && Elem(P, sel) && Elems(P, inputs)
    ensures Mux(P, sel, inputs, []).indicators == []
    ensures Satisfied(P, Mux(P, sel, inputs, []).constraints) <==> sel == 0 || sel == 1
    ensures sel == 0 || sel == 1 ==> Mux(P, sel, inputs, []).out == inputs[sel]
  {
  }

  /**
    The mux hint, run on the element sel stands for, satisfies the
    constraints whenever that element is an index, and selects the input there.
   */
  lemma MuxComplete(P: Order, sel: int, inputs: seq<int>)
    requires |inputs| != 2 && 0 <= Enc(P, sel) < |inputs| && Elems(P, inputs)
    ensures var r := Mux(P, sel, inputs, MuxIndicators(Enc(P, sel), |inputs|));
            && Satisfied(P, r.constraints)
            && IsOneHot(r.indicators, Enc(P, sel))
            && r.out == inputs[Enc(P, sel)]
  {
    var k := Enc(P, sel);
    MuxIndicatorsOneHot(k, |inputs|);
    OneHotComplete(P, sel, Indices(|inputs|), MuxIndicators(k, |inputs|), inputs, k);
  }

  /**
    In a field without zero divisors and with at most P inputs, any satisfying
    witness has sel in range, is one-hot at sel, and the output is inputs[sel].
   */
  lemma MuxSound(P: Order, sel: int, inputs: seq<int>, w: seq<int>)
    requires NoZeroDivisors(P)
    requires |inputs| != 2 && |inputs| <= P
    requires Elem(P, sel) && Elems(P, inputs) && Elems(P, w) && |w| == |inputs|
    requires Satisfied(P, Mux(P, sel, inputs, w).constraints)
    ensures 0 <= sel < |inputs|
    ensures IsOneHot(w, sel)
    ensures Mux(P, sel, inputs, w).out == inputs[sel]
  {
    var ks := Indices(|inputs|);
    assert Elems(P, ks);
    if sel >= |inputs| {
      NoMatchUnsat(P, sel, ks, w);
      assert false;
    }
    UniqueMatchSound(P, sel, ks, w, inputs, sel);
  }

  /** An out-of-range sel (including any sel when there are no inputs) admits no witness. */
  lemma MuxOutOfRangeUnsat(P: Order, sel: int, inputs: seq<int>, w: seq<int>)
    requires NoZeroDivisors(P)
    requires |inputs| != 2 && |inputs| <= P
    requires Elem(P, sel) && Elems(P, w) && |w| == |inputs|
    requires sel >= |inputs|
    ensures !Satisfied(P, Mux(P, sel, inputs, w).constraints)
  {
    var ks := Indices(|inputs|);
    assert Elems(P, ks);
    NoMatchUnsat(P, sel, ks, w);
  }

  // ---------------------------------------------------------------------------
  // Map

  /**
    The map hint, run on the elements the keys and queryKey stand for,
    satisfies the constraints when exactly one key, at k, is queryKey in the
    field, and selects values[k].
   */
  lemma MapComplete(P: Order, queryKey: int, keys: seq<int>, values: seq<int>, k: int)
    requires |keys| == |values| && Elems(P, values)
    requires 0 <= k < |keys| && Enc(P, keys[k]) == Enc(P, queryKey)
    requires forall i :: 0 <= i < |keys| && i != k ==> Enc(P, keys[i]) != Enc(P, queryKey)
    ensures var r := Map(P, queryKey, keys, values, MapIndicators(EncAll(P, keys) + [Enc(P, queryKey)], |keys|));
            && r.Success? && Satisfied(P, r.value.constraints)
            && IsOneHot(r.value.indicators, k) && r.value.out == values[k]
  {
    var w := MapIndicators(EncAll(P, keys) + [Enc(P, queryKey)], |keys|);
    MapIndicatorsOneHot(EncAll(P, keys), Enc(P, queryKey), k);
    OneHotComplete(P, queryKey, keys, w, values, k);
  }

  /**
    In a field without zero divisors and with pairwise-distinct keys, any
    satisfying witness is one-hot at the index of queryKey, which therefore
    occurs in keys, and the output is the value stored there.
   */
  lemma MapSound(P: Order, queryKey: int, keys: seq<int>, values: seq<int>, w: seq<int>)
    requires NoZeroDivisors(P)
    requires Elem(P, queryKey) && Elems(P, keys) && Elems(P, values) && Elems(P, w)
    requires |keys| == |values| == |w| && Distinct(keys)
    requires Satisfied(P, Map(P, queryKey, keys, values, w).value.constraints)
    ensures queryKey in keys
    ensures forall k :: 0 <= k < |keys| && keys[k] == queryKey ==>
              IsOneHot(w, k) && Map(P, queryKey, keys, values, w).value.out == values[k]
  {
    if queryKey !in keys {
      NoMatchUnsat(P, queryKey, keys, w);
      assert false;
    }
    forall k | 0 <= k < |keys| && keys[k] == queryKey
      ensures IsOneHot(w, k) && Map(P, queryKey, keys, values, w).value.out == values[k]
    {
      UniqueMatchSound(P, queryKey, keys, w, values, k);
    }
  }

  /** A query key that is absent from keys admits no witness. */
  lemma MapAbsentUnsat(P: Order, queryKey: int, keys: seq<int>, values: seq<int>, w: seq<int>)
    requires NoZeroDivisors(P)
    requires Elem(P, queryKey) && Elems(P, keys) && Elems(P, w)
    requires |keys| == |values| == |w| && queryKey !in keys
    ensures !Satisfied(P, Map(P, queryKey, keys, values, w).value.constraints)
  {
    NoMatchUnsat(P, queryKey, keys, w);
  }

  /**
    Duplicate keys: a satisfying witness is non-zero only at indices holding
    queryKey, its entries sum to 1, and the output is unchanged by any edit of
    the values stored at the other indices, so it is a combination of the
    values whose key matches.
   */
  lemma MapOutputFromMatchingKeys(P: Order, queryKey: int, keys: seq<int>, values: seq<int>, values': seq<int>, w: seq<int>)
    requires NoZeroDivisors(P)
    requires Elem(P, queryKey) && Elems(P, keys) && Elems(P, w)
    requires |keys| == |values| == |values'| == |w|
    requires forall i :: 0 <= i < |keys| && keys[i] == queryKey ==> values[i] == values'[i]
    requires Satisfied(P, Map(P, queryKey, keys, values, w).value.constraints)
    ensures forall i :: 0 <= i < |w| && w[i] != 0 ==> keys[i] == queryKey
    ensures Enc(P, Sum(w)) == 1
    ensures Satisfied(P, Map(P, queryKey, keys, values', w).value.constraints)
    ensures Map(P, queryKey, keys, values', w).value.out == Map(P, queryKey, keys, values, w).value.out
  {
    ForcedZero(P, queryKey, keys, w);
    DotAgree(w, values, values');
  }
}
