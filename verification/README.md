# Bounded comparator and selector gadgets, modelled in Dafny

This project models two circuit gadgets from the csgo library. Both are
written against gnark's constraint-system API.

- **The bounded signed comparator** (`transpiled/cmp/bounded.go`). It compares
  two signed integers a and b that live in a prime field of order P, given an
  upper bound absDiffUpp on |a - b|. Each of its operations reduces to one
  "is non-negative" check. That check decomposes a field element into
  absDiffUppBitLen = BitLen(absDiffUpp) bits. The encoding of a small
  non-negative number passes it. The encoding P - d of a small negative
  number -d does not. The constructor `NewBoundedComparator` validates the
  bound. The model also covers the five operations (AssertIsLessEq,
  AssertIsLess, IsLess, IsLessEq, Min), the signed comparison `cmpInField` and
  the two witness-time hints `isLessOutputHint` and `minOutputHint`.
- **The selector** (`transpiled/selector/multiplexer.go`):
  - `Mux` is an n-to-1 multiplexer: out = inputs[sel].
  - `Map` is a key/value lookup: out = values[i] where keys[i] == queryKey.
  - Both are built by `generateSelector`. It takes an indicator vector that a
    hint (`muxIndicators`, `mapIndicators`) supplies at witness time. It
    constrains indicator[i] * (sel - key_i) == 0 for every i and
    Σ indicator == 1, and outputs Σ indicator[i] * values[i].

Modules:

- `Field` (`field.dfy`) covers field elements and their encoding:
  - an element is its canonical residue in [0, P), and an integer x is
    encoded as `Enc(P, x) == x % P`;
  - Dafny's `%` is Euclidean, so a negative integer's residue is its field
    negative;
  - `BitLen` models big.Int's BitLen;
  - `Signed` gives the canonical signed representative.
- `Circuit` (`circuit.dfy`) covers the constraint kinds the gadgets emit, what
  it means for a witness to satisfy them, and gnark's `Select`.
- `Selector` (`selector.dfy`) covers the selector gadgets, their hints, and
  their completeness and soundness.
- `Bounded` (`bounded.dfy`) covers the comparator, its hints, and its
  completeness and soundness.
- `Scenarios` (`scenarios.dfy`) holds concrete instances over the primes 101
  and 13.

A gadget call is modelled in two phases. At circuit-build time the gadget
emits a list of constraints. At witness time its hints receive values. In the
model those hint outputs are an explicit argument of each gadget, such as the
indicator vector `w` or the bit or minimum of the comparator. This lets one
gadget be evaluated both on the honest hint's output (completeness) and on
any value a prover might supply (soundness). Panics of the source become a
`Result` failure (`NewBoundedComparator`, `Map`). A panic on a shape the
runtime guarantees becomes a `requires`, such as the hint's result count.

Primality of P is stated as `Field.NoZeroDivisors(P)`. Only the soundness
results that need it take it as a precondition.

The code differs from the doc comment of `Mux`. The comment at
`transpiled/selector/multiplexer.go:35-37` says indicators are nil whenever
there are fewer than 3 inputs. The code only short-circuits exactly 2 inputs
(lines 52-53). With one input the hint path is used and returns one
indicator. With zero inputs the sum check 0 == 1 cannot be satisfied. The
model follows the code: `Selector.Mux` returns the witness as indicators
whenever |inputs| != 2, and `Selector.MuxOutOfRangeUnsat` covers the empty
case.

## Model

| member | source | states |
|---|---|---|
| Field.BitLen | transpiled/cmp/bounded.go:109 | big.Int's BitLen: x < 2^n, and 2^(n-1) <= x when n > 0, so n is the least length that holds x |
| Field.BitLenAtMost | transpiled/cmp/bounded.go:110 | "BitLen(x) <= n" is the same test as "x fits in n bits" (x < 2^n), in both directions |
| Field.Signed | transpiled/cmp/bounded.go:23-25 | the signed integer a field element stands for: it encodes back to the element and lies in [-(P/2), (P-1)/2] |
| Field.SignedEnc | transpiled/cmp/bounded.go:23-25 | encoding a signed integer of that range and reading it back gives the same integer (round trip) |
| Circuit.Select | transpiled/selector/multiplexer.go:53 | api.Select: satisfiable exactly when cond is 0 or 1; with cond 0 the output is whenZero, with cond 1 it is whenOne |
| Selector.MuxIndicators | transpiled/selector/multiplexer.go:80-92 | muxIndicators writes all n slots, each 0 or 1, and slot i is 1 exactly when sel == i |
| Selector.MuxIndicatorsOneHot | transpiled/selector/multiplexer.go:80-92 | the mux hint is one-hot at sel exactly when 0 <= sel < n; its sum is 1 in range and 0 outside |
| Selector.MapIndicators | transpiled/selector/multiplexer.go:96-107 | mapIndicators takes the last input as the key and writes all n slots, each 0 or 1, slot i being 1 exactly when inputs[i] equals the key |
| Selector.MapIndicatorsOneHot | transpiled/selector/multiplexer.go:57 | with the inputs laid out as keys followed by queryKey, slot i is 1 iff keys[i] == queryKey; the vector is one-hot at k iff k is the only index holding queryKey |
| Selector.IndicatorConstraints | transpiled/selector/multiplexer.go:61-74 | the loop and sum constraints are satisfied exactly when every indicator[i] * (sel - key_i) is 0 and the indicators sum to 1 in the field |
| Selector.GenerateSelector | transpiled/selector/multiplexer.go:49-76 | two-input Mux: no indicators, sel must be boolean and picks values[sel]; otherwise the indicators are the hint's outputs, the constraints are the zero-product and sum checks, and the output is Σ indicator[i] * values[i] in the field |
| Selector.Mux | transpiled/selector/multiplexer.go:32-43 | indicators are nil for exactly two inputs and are the hint's outputs otherwise; with any other number of inputs, an indicator witness that is one-hot at sel satisfies every constraint and the output is inputs[sel] |
| Selector.Map | transpiled/selector/multiplexer.go:22-30 | fails exactly when keys and values differ in length; otherwise returns the hint's indicators |
| Selector.OneHotComplete | transpiled/selector/multiplexer.go:61-74 | a witness that is one-hot at a candidate whose key is sel satisfies every constraint and selects that candidate's value |
| Selector.ForcedZero | transpiled/selector/multiplexer.go:62-67 | with no zero divisors, a satisfying witness is 0 at every candidate whose key differs from sel |
| Selector.UniqueMatchSound | transpiled/selector/multiplexer.go:72-74 | when exactly one key equals sel, the only satisfying witness is one-hot there and the output is that value |
| Selector.NoMatchUnsat | transpiled/selector/multiplexer.go:72-74 | when no key equals sel, no witness satisfies the constraints |
| Selector.MuxTwoInputs | transpiled/selector/multiplexer.go:52-53 | a two-input Mux has no indicators, is satisfiable exactly when sel is 0 or 1, and then outputs inputs[sel] |
| Selector.MuxComplete | transpiled/selector/multiplexer.go:32-35 | for every sel whose field element k = sel mod P is an index, the mux hint run on k satisfies the constraints, is one-hot at k, and the output is inputs[k] |
| Selector.MuxSound | transpiled/selector/multiplexer.go:32-40 | any satisfying witness forces sel into [0, n), is one-hot at sel and makes the output inputs[sel] |
| Selector.MuxOutOfRangeUnsat | transpiled/selector/multiplexer.go:39-40 | sel outside [0, n) admits no proof, including any sel when there are no inputs |
| Selector.MapComplete | transpiled/selector/multiplexer.go:12-14 | when exactly one key, at k, equals queryKey as a field element, the map hint run on the field elements of keys and queryKey satisfies the constraints, is one-hot at k, and the output is values[k] |
| Selector.MapSound | transpiled/selector/multiplexer.go:12-16 | with distinct keys, a satisfying witness implies queryKey occurs in keys, is one-hot at its index, and the output is the value stored there |
| Selector.MapAbsentUnsat | transpiled/selector/multiplexer.go:16 | a queryKey absent from keys admits no proof |
| Selector.MapOutputFromMatchingKeys | transpiled/selector/multiplexer.go:16-19 | with duplicate keys the witness is non-zero only at matching keys and sums to 1; changing the values at non-matching keys changes neither satisfiability nor the output, so the output is a combination of the matching values |
| Bounded.NewBoundedComparator | transpiled/cmp/bounded.go:102-124 | fails with the "not positive or too big" error exactly when absDiffUpp is not in (0, P); succeeds exactly when also 2^L <= P - absDiffUpp - 1 and, unless non-determinism is allowed, 2^(L+1) + 1 <= P; on success the stored L is absDiffUpp's bit length |
| Bounded.TooHighIff | transpiled/cmp/bounded.go:107-112 | the "too high" error is raised exactly when absDiffUpp is in range and P - absDiffUpp - 1 is not longer in binary than absDiffUpp |
| Bounded.StoresBitLen | transpiled/cmp/bounded.go:109-124 | an accepted bound is positive and the comparator stores exactly its bit length |
| Bounded.DeterministicIsValid | transpiled/cmp/bounded.go:114-122 | any bound accepted with determinism required is also accepted, with the same comparator, when non-determinism is allowed |
| Bounded.DeterminismArgument | transpiled/cmp/bounded.go:98-101 | with determinism required, if P - d <= 2^L then d - 1 >= 2^L: the negative and positive candidates cannot both pass |
| Bounded.BoundBelowHalf | transpiled/cmp/bounded.go:85-90 | a valid bound satisfies 2 * absDiffUpp + 2 <= P and absDiffUpp + 1 <= P - 2^L |
| Bounded.AssertIsNonNegative | transpiled/cmp/bounded.go:127-129 | the check is satisfied exactly when the field element x fits in absDiffUppBitLen bits |
| Bounded.AssertIsLessEq | transpiled/cmp/bounded.go:131-136 | satisfied exactly when (b - a) mod P fits in absDiffUppBitLen bits |
| Bounded.AssertIsLess | transpiled/cmp/bounded.go:138-142 | satisfied exactly when (b - 1 - a) mod P fits in absDiffUppBitLen bits |
| Bounded.NonNegativeIff | transpiled/cmp/bounded.go:127-129 | the bit-length check accepts Enc(t) exactly when t >= 0, for every t in [-(P - 2^L), 2^L) |
| Bounded.AssertIsLessEqCorrect | transpiled/cmp/bounded.go:131-136 | within the bound, AssertIsLessEq(x, y) is satisfiable exactly when x <= y |
| Bounded.AssertIsLessEqSound | transpiled/cmp/bounded.go:52-53 | if x - y <= P - 2^L, a satisfied AssertIsLessEq implies x <= y |
| Bounded.AssertIsLessCorrect | transpiled/cmp/bounded.go:138-142 | within the bound, AssertIsLess(x, y) is satisfiable exactly when x < y |
| Bounded.AssertIsLessSound | transpiled/cmp/bounded.go:52-53 | if x - y < P - 2^L, a satisfied AssertIsLess implies x < y |
| Bounded.IsLess | transpiled/cmp/bounded.go:144-153 | the output is the hint's bit; the constraints hold exactly when bit is 0 and a - b passes the check, or bit is 1 and b - a - 1 passes |
| Bounded.IsLessCorrect | transpiled/cmp/bounded.go:144-153 | for -(absDiffUpp + 1) <= x - y <= absDiffUpp, exactly one bit satisfies IsLess, and it is 1 iff x < y |
| Bounded.IsLessSound | transpiled/cmp/bounded.go:52-53 | if \|x - y\| stays below P - 2^L, a satisfying bit equals [x < y] |
| Bounded.IsLessEqCorrect | transpiled/cmp/bounded.go:155-159 | within the bound, exactly one bit satisfies IsLessEq, and it is 1 iff x <= y |
| Bounded.IsLessEqSound | transpiled/cmp/bounded.go:52-53 | if \|x - y\| < P - 2^L, a satisfying bit equals [x <= y] |
| Bounded.IsLessEq | transpiled/cmp/bounded.go:155-159 | the output is the hint's bit; the constraints hold exactly when bit is 0 and (a - b - 1) mod P fits in absDiffUppBitLen bits, or bit is 1 and (b - a) mod P does |
| Bounded.Min | transpiled/cmp/bounded.go:161-176 | the output is the hint's m; the constraints hold exactly when (a - m)(b - m) is 0 mod P and (a + b - 2m) mod P fits in absDiffUppBitLen bits |
| Bounded.MinAcceptsMinimum | transpiled/cmp/bounded.go:161-176 | within the bound, the true minimum satisfies Min's constraints |
| Bounded.MinConstraints | transpiled/cmp/bounded.go:167-173 | with no zero divisors, a satisfied Min means m is a or b, and the other operand minus m passes the check |
| Bounded.MinSound | transpiled/cmp/bounded.go:161-176 | with no zero divisors and \|x - y\| <= P - 2^L, the only output Min accepts is the minimum |
| Bounded.CmpInField | transpiled/cmp/bounded.go:178-185 | the result is -1, 0 or 1, and 0 exactly when a == b |
| Bounded.CmpInFieldSides | transpiled/cmp/bounded.go:179-185 | cmpInField is the raw comparison, negated exactly when a and b lie strictly on opposite sides of P >> 1 |
| Bounded.CmpInFieldAntisymmetric | transpiled/cmp/bounded.go:179-185 | cmpInField(a, b) == -cmpInField(b, a) |
| Bounded.CmpInFieldSigned | transpiled/cmp/bounded.go:178-185 | cmpInField agrees with the order of the signed representatives when they are less than P / 2 apart |
| Bounded.CmpInFieldEdgeCase | transpiled/cmp/bounded.go:180-184 | for odd P, cmpInField(P >> 1, P >> 1 + 1) is -1 while the signed value of P >> 1 is greater than the signed value of P >> 1 + 1 |
| Bounded.IsLessOutputHint | transpiled/cmp/bounded.go:202-215 | the bit is 0 or 1, and 1 exactly when cmpInField(a, b) == -1 |
| Bounded.MinOutputHint | transpiled/cmp/bounded.go:187-200 | the result is one of a and b, and it is a when cmpInField(a, b) == -1 |
| Bounded.IsLessHintComplete | transpiled/cmp/bounded.go:145-152 | within the bound, the isLess hint's bit is the signed a < b, and it satisfies IsLess's constraints |
| Bounded.MinHintComplete | transpiled/cmp/bounded.go:162-175 | within the bound, the min hint returns the operand with the smaller signed value, and it satisfies Min's constraints |
| Bounded.IsLessEqAsWritten | transpiled/cmp/bounded.go:155-159 | for odd P within the bound, the witness IsLessEq computes (the isLess hint on a and b + 1) satisfies its constraints exactly unless b == P >> 1 and a != b |
| Bounded.AsWrittenHintAtLargest | transpiled/cmp/bounded.go:156-158 | for odd P, b == P >> 1 and any other a within half the field, the isLess hint on a and b + 1 answers 0 |
| Bounded.AsWrittenHintBelowLargest | transpiled/cmp/bounded.go:156-158 | for odd P, b != P >> 1 and signed values of a and b + 1 less than half the field apart, the isLess hint on a and b + 1 answers the signed a <= b |
| Bounded.IsLessEqAsWrittenHint | transpiled/cmp/bounded.go:156-158 | the witness IsLessEq obtains is 0 or 1, and 1 exactly when cmpInField(a, (b + 1) mod P) is -1 |
| Bounded.IsLessEqOutputHint | transpiled/cmp/bounded.go:155-159 | the corrected witness is 0 or 1, and 1 exactly when cmpInField(a, b) != 1 |
| Bounded.IsLessEqHintComplete | transpiled/cmp/bounded.go:155-159 | within the bound, the corrected witness is the signed a <= b and satisfies IsLessEq's constraints, including b == P >> 1 |
| Scenarios.MuxScenario | transpiled/selector/multiplexer.go:41-43 | over P = 101, Mux with sel 1 over [10, 20, 30] outputs 20 with indicators [0, 1, 0] and is satisfied |
| Scenarios.MapScenario | transpiled/selector/multiplexer.go:22-30 | over P = 101, Map(7, [3, 7, 9], [30, 70, 90]) outputs 70 with indicators [0, 1, 0] and is satisfied |
| Scenarios.ToyComparator | transpiled/cmp/bounded.go:102-124 | over P = 13, absDiffUpp = 2 is accepted with determinism required, and L is 2 |
| Scenarios.IsLessScenario | transpiled/cmp/bounded.go:144-153 | over P = 13, IsLess(5, 6) is 1 and is satisfied |
| Scenarios.MinScenario | transpiled/cmp/bounded.go:161-176 | over P = 13, Min(5, 6) is 5 and is satisfied |
| Scenarios.AssertIsLessEqScenario | transpiled/cmp/bounded.go:131-136 | over P = 13, AssertIsLessEq(5, 6) holds and AssertIsLessEq(6, 5) does not |
| Scenarios.IsLessEqAsWrittenCounterexample | transpiled/cmp/bounded.go:155-159 | over P = 13 with absDiffUpp = 2, IsLessEq(5, 6) with the isLess hint on 5 and 7 gets bit 0 and is unsatisfied, although 5 <= 6 |
| Scenarios.IsLessEqScenario | transpiled/cmp/bounded.go:155-159 | with the corrected witness, IsLessEq(5, 6) is 1 and is satisfied |

## Left out

- Hint registration (the `init` functions) and the prover runtime are not modelled. A hint's outputs are an argument of the gadget, and the hints are modelled as pure functions of canonical field elements: the completeness lemmas run them on the elements their integer arguments stand for.
- `convert.AssertBitLen` (`transpiled/convert/binary.go:12-16`) is modelled as the range predicate Enc(x) < 2^bitLen. gnark's `bits.ToBinary` is not modelled. Its doc comment says "less than bitLen bits", but a decomposition into bitLen digits allows exactly bitLen bits, and the model uses that.
- gnark's `api.Select` is modelled by its arithmetization: a boolean constraint on cond and the output whenZero + cond * (whenOne - whenZero). Its internals are not part of this model.
- The running sums `indicatorsSum` and `out` of `generateSelector` are modelled as one reduction of the integer sums. This equals the field sum because reduction commutes with addition.
- The field is any order P >= 2. Primality is only assumed, as `NoZeroDivisors`, by the soundness results that need it (ForcedZero and the Map/Mux/Min soundness lemmas).
- The source has two regimes for |a - b| >= P - 2^L, described at `transpiled/cmp/bounded.go:55-62`. Without allowNonDeterminism there are "reversed but deterministic results". With it there are multiple solutions. Neither regime is modelled beyond `Bounded.DeterminismArgument`.
- big.Int mechanics (shared big.Int values, `Set` into a result slot) and the aliasing `append(keys, sel)` may cause on the caller's keys slice are not modelled.
- Proof generation, constraint-system compilation and the circuit-variable type are not modelled. A variable is its field value.
- Selector.MuxSound: assumes at most P inputs, because with more than P inputs indices i and i + P denote the same field element and a witness may split between them.
- Selector.MapSound: assumes pairwise-distinct keys, because the source leaves the output undefined for duplicate keys; that case is covered by Selector.MapOutputFromMatchingKeys instead.
- Bounded.IsLessEqAsWritten: characterizes the as-written witness only for odd P. For even P, b + 1 can only wrap onto P >> 1 itself, and cmpInField compares that value without the sign flip; that case is not stated here.

## Findings

| source | as written | input that shows it | evidently intended | confidence | as-written member | corrected member |
|---|---|---|---|---|---|---|
| transpiled/cmp/bounded.go:155-159 | IsLessEq(a, b) calls IsLess(a, b + 1), so its hint compares a with the field element b + 1; when b is the largest positive value P >> 1 (odd P), b + 1 wraps to the most negative value and the hint answers 0 although a <= b, leaving the honest prover without a witness | P = 13, absDiffUpp = 2, a = 5, b = 6: the hint compares 5 with 7 (signed -6) and returns 0, and bit 0 fails the check since 5 - 7 encodes to 11 >= 4 | IsLessEq returns 1 for every a <= b within the bound, including b == P >> 1; the witness should come from cmpInField(a, b) != 1 instead of isLess on b + 1 | not executed; proved in the model | Scenarios.IsLessEqAsWrittenCounterexample | Bounded.IsLessEqHintComplete |
