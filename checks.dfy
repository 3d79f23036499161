/** The equalities the program's `main` prints, each stated as a fact about
    the model. */
module RationalChecks {
  import opened Exceptions
  import opened IntMath
  import opened Decimal
  import opened Rationals

  /** `1 divBy 2`, `1 divBy 3` and `2 divBy 3` are already in lowest terms. */
  lemma SmallFractions()
    ensures DivBy(1, 2) == Ok(Rational(1, 2))
    ensures DivBy(1, 3) == Ok(Rational(1, 3))
    ensures DivBy(2, 3) == Ok(Rational(2, 3))
  {
    assert Gcd(1, 2) == 1 && Gcd(1, 3) == 1 && Gcd(2, 3) == 1;
    DivByNormalised(Rational(1, 2));
    DivByNormalised(Rational(1, 3));
    DivByNormalised(Rational(2, 3));
  }

  /** half + third == 5/6, half - third == 1/6, half * third == 1/6,
      half / third == 3/2. */
  lemma ArithmeticOnHalfAndThird()
    ensures DivBy(1, 2).Ok? && DivBy(1, 3).Ok?
    ensures Plus(DivBy(1, 2).value, DivBy(1, 3).value) == DivBy(5, 6)
    ensures Minus(DivBy(1, 2).value, DivBy(1, 3).value) == DivBy(1, 6)
    ensures Times(DivBy(1, 2).value, DivBy(1, 3).value) == DivBy(1, 6)
    ensures Div(DivBy(1, 2).value, DivBy(1, 3).value) == DivBy(3, 2)
  {
    SmallFractions();
  }

  /** -half == -1 divBy 2. */
  lemma NegationOfHalf()
    ensures DivBy(1, 2).Ok? && DivBy(-1, 2) == Ok(Neg(DivBy(1, 2).value))
  {
    SmallFractions();
  }

  /** (2 divBy 1) prints as "2" and (-2 divBy 4) as "-1/2". */
  lemma Printing()
    ensures DivBy(2, 1).Ok? && ToString(DivBy(2, 1).value) == "2"
    ensures DivBy(-2, 4).Ok? && ToString(DivBy(-2, 4).value) == "-1/2"
  {
    assert Gcd(2, 1) == 1 && Gcd(1, 2) == 1;
    DivByNormalised(Rational(2, 1));
    DivByScale(-1, 2, 2);
    DivByNormalised(Rational(-1, 2));
    assert IntToString(2) == "2" && IntToString(-1) == "-1";
  }

  /** "117/1098" parses to 13/122 ... */
  lemma ParsingReduces()
    ensures ToRational("117/1098") == Ok(Rational(13, 122))
  {
    var a, b := IntToString(117), IntToString(1098);
    FractionText();
    NoSlash(117);
    NoSlash(1098);
    IntRoundTrip(117);
    IntRoundTrip(1098);
    SplitAt(a, '/', b);
    SplitNone(b, '/');
    assert ToRational(a + "/" + b) == DivBy(117, 1098);
    DivByScale(13, 122, 9);
    assert Gcd(13, 122) == 1;
    DivByNormalised(Rational(13, 122));
  }

  /** ... which prints as "13/122". */
  lemma PrintingReduced()
    ensures ToString(Rational(13, 122)) == "13/122"
  {
    assert IntToString(13) == "13" && IntToString(122) == "122";
  }

  lemma FractionText()
    ensures "117/1098" == IntToString(117) + "/" + IntToString(1098)
  {
    assert IntToString(117) == "117" && IntToString(1098) == "1098";
  }

  /** half < twoThirds, and half lies in third..twoThirds. */
  lemma Ordering()
    ensures DivBy(1, 2).Ok? && DivBy(1, 3).Ok? && DivBy(2, 3).Ok?
    ensures CompareTo(DivBy(1, 2).value, DivBy(2, 3).value) < 0
    ensures InRange(DivBy(1, 2).value, DivBy(1, 3).value, DivBy(2, 3).value)
  {
    SmallFractions();
  }

  /** Large operands reduce to 1/2 as well. */
  lemma LargeReductions()
    ensures DivBy(2000000000, 4000000000) == DivBy(1, 2)
    ensures DivBy(912016490186296920119201192141970416029,
                  1824032980372593840238402384283940832058) == DivBy(1, 2)
  {
    DivByScale(1, 2, 2000000000);
    DivByScale(1, 2, 912016490186296920119201192141970416029);
  }
}
