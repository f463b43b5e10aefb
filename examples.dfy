/** Concrete cases: those asserted by TP7/tests/test_fraction.py and
    TP9/tests/test_fraction.py, those printed by the demo TP7/main.py, and a
    few of the model's own (unit fractions, a negative mixed number). */
module Examples {
  import opened Fractions
  import opened Rendering

  /** 4/8 is stored as 1/2; a zero denominator is refused. */
  lemma ConstructorCases()
    ensures Make(4, 8) == Ok(Frac(1, 2))
    ensures Make(1, 0) == Err(ZeroDenominator)
  {
  }

  /** 5/2 prints as "5/2"; 2/4 prints as "1/2". */
  lemma StrCases()
    ensures ToString(Frac(5, 2)) == "5/2"
    ensures Make(2, 4) == Ok(Frac(1, 2)) && ToString(Frac(1, 2)) == "1/2"
  {
    NormalizeOfValue(2, 4, Frac(1, 2));
  }

  /** 5/2 is the mixed number "2 1/2" and 9/4 is "2 1/4". */
  lemma MixedNumberCases()
    ensures AsMixedNumber(Frac(5, 2)) == "2 1/2"
    ensures AsMixedNumber(Frac(9, 4)) == "2 1/4"
  {
  }

  /** 1/2 + 1/3 == 5/6. */
  lemma AdditionCases()
    ensures Add(Frac(1, 2), Frac(1, 3)) == Frac(5, 6)
  {
  }

  /** 1/2 ÷ 1/4 == 2/1, printed "2"; dividing by 0/1 is refused. */
  lemma DivisionCases()
    ensures Div(Frac(1, 2), Frac(1, 4)) == Ok(Frac(2, 1))
    ensures ToString(Frac(2, 1)) == "2"
    ensures Div(Frac(1, 2), Zero) == Err(DivisionByZero)
  {
  }

  /** The sign moves into the numerator: 1/-2 and -1/2 are both -1/2, -1/-2 is 1/2. */
  lemma NegativeCases()
    ensures Make(-1, 2) == Ok(Frac(-1, 2)) && Make(1, -2) == Ok(Frac(-1, 2))
    ensures Make(-1, -2) == Ok(Frac(1, 2))
  {
    NormalizeOfValue(-1, 2, Frac(-1, 2));
    NormalizeOfValue(1, -2, Frac(-1, 2));
    NormalizeOfValue(-1, -2, Frac(1, 2));
  }

  /** -1/2 prints as "-1/2" and 1/2 as "1/2". */
  lemma NegativeStrCases()
    ensures ToString(Frac(-1, 2)) == "-1/2" && ToString(Frac(1, 2)) == "1/2"
  {
  }

  /** 1/2 == 2/4 and 1/2 != 3/4. */
  lemma EqualityCases()
    ensures Make(2, 4).Ok? && Equals(Frac(1, 2), Make(2, 4).value)
    ensures !Equals(Frac(1, 2), Frac(3, 4))
  {
  }

  /** 6/2 is an integer and 5/2 is not; 3/4 is proper and 5/4 is not. */
  lemma PredicateCases()
    ensures Make(6, 2).Ok? && IsInteger(Make(6, 2).value) && !IsInteger(Frac(5, 2))
    ensures IsProper(Frac(3, 4)) && !IsProper(Frac(5, 4))
  {
  }

  /** 1/2 is adjacent to 2/3 but not to 3/4, although 3/4 - 1/2 is the unit
      fraction 1/4: adjacency is the cross-product test, not "the difference
      is a unit fraction". */
  lemma AdjacencyCases()
    ensures IsAdjacentTo(Frac(1, 2), Frac(2, 3))
    ensures !IsAdjacentTo(Frac(1, 2), Frac(3, 4))
    ensures IsUnit(Sub(Frac(3, 4), Frac(1, 2)))
  {
  }

  /** The demo's operands 1/2 and 3/4 give the sum 5/4 and the
      difference -1/4. */
  lemma DemoSumCases()
    ensures Add(Frac(1, 2), Frac(3, 4)) == Frac(5, 4)
    ensures Sub(Frac(1, 2), Frac(3, 4)) == Frac(-1, 4)
  {
    NormalizeOfValue(10, 8, Frac(5, 4));
    NormalizeOfValue(-2, 8, Frac(-1, 4));
  }

  /** The demo's operands 1/2 and 3/4 give the product 3/8 and the
      quotient 2/3. */
  lemma DemoProductCases()
    ensures Mul(Frac(1, 2), Frac(3, 4)) == Frac(3, 8)
    ensures Div(Frac(1, 2), Frac(3, 4)) == Ok(Frac(2, 3))
  {
  }

  /** The demo shows 7/3 as "2 1/3" and finds 1/2 == 2/4. */
  lemma DemoMixedAndEqualityCases()
    ensures AsMixedNumber(Frac(7, 3)) == "2 1/3"
    ensures Make(2, 4).Ok? && Equals(Frac(1, 2), Make(2, 4).value)
  {
  }

  /** 1/2 and 1/1 are unit fractions; -1/2 and 2/3 are not. */
  lemma UnitCases()
    ensures IsUnit(Frac(1, 2)) && IsUnit(One)
    ensures !IsUnit(Frac(-1, 2)) && !IsUnit(Frac(2, 3))
  {
  }

  /** A negative improper value gets the floor quotient: -5/2 shows as
      "-3 1/2", whose parts -3 and 1/2 add up to -5/2. */
  lemma NegativeMixedNumber()
    ensures AsMixedNumber(Frac(-5, 2)) == "-3 1/2"
  {
  }
}
