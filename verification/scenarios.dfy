/**
  Concrete runs of the gadgets with honest hints, on small fields: the
  selector over the prime 101, the comparator over the prime 13 with bound 2.
 */
module Scenarios {
  import opened Field
  import opened Circuit
  import opened Selector
  import opened Bounded

  /** Mux(1, [10, 20, 30]) outputs 20 with indicators [0, 1, 0]. */
  lemma MuxScenario()
    ensures var r := Mux(101, 1, [10, 20, 30], MuxIndicators(1, 3));
            Satisfied(101, r.constraints) && r.out == 20 && r.indicators == [0, 1, 0]
  {
    assert Enc(101, 1) == 1;
    MuxComplete(101, 1, [10, 20, 30]);
    assert MuxIndicators(1, 3) == [0, 1, 0];
  }

  /** Map(7, [3, 7, 9], [30, 70, 90]) outputs 70 with indicators [0, 1, 0]. */
  lemma MapScenario()
    ensures var r := Map(101, 7, [3, 7, 9], [30, 70, 90], MapIndicators([3, 7, 9, 7], 3));
            r.Success? && Satisfied(101, r.value.constraints) && r.value.out == 70
            && r.value.indicators == [0, 1, 0]
  {
    assert EncAll(101, [3, 7, 9]) + [Enc(101, 7)] == [3, 7, 9, 7];
    MapComplete(101, 7, [3, 7, 9], [30, 70, 90], 1);
    assert MapIndicators([3, 7, 9, 7], 3) == [0, 1, 0];
  }

  /** With P = 13, absDiffUpp = 2 is accepted: its bit length is 2 and 13 - 2 - 1 = 10 has bit length 4. */
  lemma ToyComparator()
    ensures NewBoundedComparator(13, 2, false) == Success(BoundedComparator(2))
  {
    assert BitLen(2) == 2 by {
      assert BitLen(1) == 1;
    }
    assert BitLen(10) == 4 by {
      assert BitLen(5) == 3 by {
        assert BitLen(2) == 2 by {
          assert BitLen(1) == 1;
        }
      }
    }
  }

  /** IsLess(5, 6) is 1 and its hint's witness is accepted. */
  lemma IsLessScenario()
    ensures IsLessOutputHint(13, 5, 6) == 1
    ensures Satisfied(13, IsLess(13, BoundedComparator(2), 5, 6, IsLessOutputHint(13, 5, 6)).constraints)
  {
    ToyComparator();
    IsLessHintComplete(13, 2, false, BoundedComparator(2), 5, 6);
  }

  /** Min(5, 6) is 5 and its hint's witness is accepted. */
  lemma MinScenario()
    ensures MinOutputHint(13, 5, 6) == 5
    ensures Satisfied(13, Min(13, BoundedComparator(2), 5, 6, MinOutputHint(13, 5, 6)).constraints)
  {
    ToyComparator();
    MinHintComplete(13, 2, false, BoundedComparator(2), 5, 6);
  }

  /** AssertIsLessEq(5, 6) holds and AssertIsLessEq(6, 5) does not. */
  lemma AssertIsLessEqScenario()
    ensures Satisfied(13, AssertIsLessEq(13, BoundedComparator(2), 5, 6))
    ensures !Satisfied(13, AssertIsLessEq(13, BoundedComparator(2), 6, 5))
  {
    ToyComparator();
    AssertIsLessEqCorrect(13, 2, false, BoundedComparator(2), 5, 6);
    AssertIsLessEqCorrect(13, 2, false, BoundedComparator(2), 6, 5);
  }

  /**
    IsLessEq(5, 6) with the witness IsLessEq computes (the isLess hint on
    5 and 6 + 1 = 7): 7 is the most negative value of the field, the hint
    answers 0, and no proof exists although 5 <= 6 and |5 - 6| <= 2.
   */
  lemma IsLessEqAsWrittenCounterexample()
    ensures Signed(13, 5) == 5 && Signed(13, 6) == 6
    ensures IsLessEqAsWrittenHint(13, 5, 6) == 0
    ensures !Satisfied(13, IsLessEq(13, BoundedComparator(2), 5, 6, IsLessEqAsWrittenHint(13, 5, 6)).constraints)
  {
    ToyComparator();
    IsLessEqAsWritten(13, 2, false, BoundedComparator(2), 5, 6);
  }

  /** With the corrected witness IsLessEq(5, 6) is 1 and is accepted. */
  lemma IsLessEqScenario()
    ensures IsLessEqOutputHint(13, 5, 6) == 1
    ensures Satisfied(13, IsLessEq(13, BoundedComparator(2), 5, 6, IsLessEqOutputHint(13, 5, 6)).constraints)
  {
    ToyComparator();
    IsLessEqHintComplete(13, 2, false, BoundedComparator(2), 5, 6);
  }
}
