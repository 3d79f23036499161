/** Exact rational numbers over arbitrary-precision integers: the `Rational`
    data class, the normalising constructor `divBy`, the arithmetic
    operators, `compareTo`, `toString` and `String.toRational`. */
module Rationals {
  import opened Exceptions
  import opened IntMath
  import opened Decimal

  /** A numerator/denominator pair. The data-class constructor checks
      nothing, so a value need not be normalised; `divBy` and the binary
      operators only ever return normalised ones. Equality is structural. */
  datatype Rational = Rational(n: int, d: int)

  /** Lowest terms with the sign in the numerator. */
  predicate Normalised(r: Rational) {
    r.d > 0 && Gcd(Abs(r.n), r.d) == 1
  }

  /** The number a pair with a non-zero denominator stands for. */
  ghost function Value(r: Rational): real
    requires r.d != 0
  {
    r.n as real / r.d as real
  }

  /** Two pairs stand for the same number exactly when their cross products
      agree. */
  lemma SameValue(a: Rational, b: Rational)
    requires a.d != 0 && b.d != 0
    ensures Value(a) == Value(b) <==> a.n * b.d == b.n * a.d
  {
    var an, ad, bn, bd := a.n as real, a.d as real, b.n as real, b.d as real;
    assert (a.n * b.d) as real == an * bd && (b.n * a.d) as real == bn * ad;
    assert Value(a) * (ad * bd) == an * bd;
    assert Value(b) * (ad * bd) == bn * ad;
  }

  /** `divBy`: fails on a zero denominator; otherwise divides both parts by
      their gcd and moves the sign into the numerator. The result is in
      lowest terms, has a positive denominator and stands for `nu / de`. */
  function DivBy(nu: int, de: int): (r: Result<Rational>)
    ensures r.Err? <==> de == 0
    ensures r.Err? ==> r.error == IllegalArgument
    ensures r.Ok? ==> Normalised(r.value) && r.value.n * de == nu * r.value.d
  {
    if de == 0 then Err(IllegalArgument)
    else
      ReduceFacts(nu, de);
      var g := Gcd(Abs(nu), Abs(de));
      var numerator := Quot(nu, g);
      var denominator := Quot(de, g);
      if denominator < 0 then
        assert -numerator * de == nu * -denominator;
        Ok(Rational(-numerator, -denominator))
      else Ok(Rational(numerator, denominator))
  }

  /** What dividing by the gcd achieves: exact quotients, coprime in
      magnitude, with the denominator's quotient non-zero. */
  lemma ReduceFacts(nu: int, de: int)
    requires de != 0
    ensures var g := Gcd(Abs(nu), Abs(de));
      g > 0 && var num, den := Quot(nu, g), Quot(de, g);
      nu == g * num && de == g * den && den != 0 && Gcd(Abs(num), Abs(den)) == 1
      && num * de == nu * den
  {
    var g := Gcd(Abs(nu), Abs(de));
    GcdPositive(Abs(nu), Abs(de));
    var p, q := GcdDivides(Abs(nu), Abs(de));
    ReducedCoprime(Abs(nu), Abs(de), p, q);
    var sn: int := if nu < 0 then -(p as int) else p;
    var sd: int := if de < 0 then -(q as int) else q;
    assert nu == g * sn && de == g * sd;
    QuotExact(nu, g, sn);
    QuotExact(de, g, sd);
    assert Abs(sn) == p && Abs(sd) == q;
    MulRotate(g, sn, sd);
  }

  /** Two normalised pairs that stand for the same number are the same pair:
      normal form is unique, so structural equality is numeric equality. */
  lemma CanonicalUnique(a: Rational, b: Rational)
    requires Normalised(a) && Normalised(b)
    requires a.n * b.d == b.n * a.d
    ensures a == b
  {
    AbsCross(a, b);
    MutualMultiples(a.d, b.d, Abs(a.n), Abs(b.n));
    CancelFactor(a.d, a.n, b.n);
  }

  /** Cross products agree in magnitude too. */
  lemma AbsCross(a: Rational, b: Rational)
    requires a.d > 0 && b.d > 0 && a.n * b.d == b.n * a.d
    ensures Abs(a.n) * b.d == a.d * Abs(b.n)
  {
    SignMatches(a, b);
    if a.n < 0 {
      assert (-a.n) * b.d == a.d * (-b.n);
    }
  }

  /** Two denominators, each coprime with its numerator, whose cross
      products agree, are equal. */
  lemma MutualMultiples(d1: nat, d2: nat, n1: nat, n2: nat)
    requires d1 > 0 && d2 > 0 && Gcd(n1, d1) == 1 && Gcd(n2, d2) == 1
    requires n1 * d2 == d1 * n2
    ensures d1 == d2
  {
    var w1 := Euclid(n1, d1, d2, n2);
    assert n2 * d1 == d2 * n1;
    var w2 := Euclid(n2, d2, d1, n1);
    MutualDivisors(d1, d2, w1, w2);
  }

  /** Cross products of pairs with positive denominators agree only when the
      numerators have the same sign. */
  lemma SignMatches(a: Rational, b: Rational)
    requires a.d > 0 && b.d > 0 && a.n * b.d == b.n * a.d
    ensures (a.n < 0) == (b.n < 0) && (a.n == 0) == (b.n == 0)
  {
    ScaleBounds(b.d, a.n);
    ScaleBounds(a.d, b.n);
  }

  /** Normalised pairs that stand for the same number are equal. */
  lemma EqualByValue(a: Rational, b: Rational)
    requires Normalised(a) && Normalised(b) && Value(a) == Value(b)
    ensures a == b
  {
    SameValue(a, b);
    CanonicalUnique(a, b);
  }

  /** `divBy` keeps the value of the fraction it is given. */
  lemma DivByValue(nu: int, de: int)
    requires de != 0
    ensures DivBy(nu, de).Ok? && Value(DivBy(nu, de).value) == Value(Rational(nu, de))
  {
    SameValue(DivBy(nu, de).value, Rational(nu, de));
  }

  /** Any two fractions with the same value give the same result. */
  lemma DivBySameValue(n1: int, d1: int, n2: int, d2: int)
    requires d1 != 0 && d2 != 0 && n1 * d2 == n2 * d1
    ensures DivBy(n1, d1) == DivBy(n2, d2)
  {
    DivByValue(n1, d1);
    DivByValue(n2, d2);
    SameValue(Rational(n1, d1), Rational(n2, d2));
    EqualByValue(DivBy(n1, d1).value, DivBy(n2, d2).value);
  }

  /** Scaling both parts by the same non-zero factor changes nothing. */
  lemma DivByScale(n: int, d: int, k: int)
    requires d != 0 && k != 0
    ensures DivBy(k * n, k * d) == DivBy(n, d)
  {
    MulRotate(k, n, d);
    DivBySameValue(k * n, k * d, n, d);
  }

  /** A zero numerator always gives the canonical zero `0/1`. */
  lemma DivByZeroNumerator(d: int)
    requires d != 0
    ensures DivBy(0, d) == Ok(Rational(0, 1))
  {
    var r := DivBy(0, d).value;
    assert r.n * d == 0;
    ScaleBounds(r.d, 0);
    assert r.n == 0 by {
      if d > 0 { ScaleBounds(d, r.n); } else { ScaleBounds(-d, r.n); }
    }
    assert Gcd(0, r.d) == r.d;
  }

  /** A normalised pair is its own normal form. */
  lemma DivByNormalised(r: Rational)
    requires Normalised(r)
    ensures DivBy(r.n, r.d) == Ok(r)
  {
    CanonicalUnique(DivBy(r.n, r.d).value, r);
  }

  // ----- Arithmetic operators -----

  /** `plus`: the raw sum `(n * r.d + r.n * d) / (r.d * d)` through `divBy`. */
  function Plus(a: Rational, b: Rational): (r: Result<Rational>)
    ensures r.Err? <==> a.d == 0 || b.d == 0
    ensures r.Err? ==> r.error == IllegalArgument
    ensures r.Ok? ==> Normalised(r.value) && Value(r.value) == Value(a) + Value(b)
  {
    var res := DivBy(a.n * b.d + b.n * a.d, b.d * a.d);
    if res.Ok? then SumValue(a, b); res else res
  }

  /** `minus`: the raw difference `(n * r.d - r.n * d) / (r.d * d)` through `divBy`. */
  function Minus(a: Rational, b: Rational): (r: Result<Rational>)
    ensures r.Err? <==> a.d == 0 || b.d == 0
    ensures r.Err? ==> r.error == IllegalArgument
    ensures r.Ok? ==> Normalised(r.value) && Value(r.value) == Value(a) - Value(b)
  {
    var res := DivBy(a.n * b.d - b.n * a.d, b.d * a.d);
    if res.Ok? then DifferenceValue(a, b); res else res
  }

  /** `times`: the raw product `(n * r.n) / (r.d * d)` through `divBy`. */
  function Times(a: Rational, b: Rational): (r: Result<Rational>)
    ensures r.Err? <==> a.d == 0 || b.d == 0
    ensures r.Err? ==> r.error == IllegalArgument
    ensures r.Ok? ==> Normalised(r.value) && Value(r.value) == Value(a) * Value(b)
  {
    var res := DivBy(a.n * b.n, b.d * a.d);
    if res.Ok? then ProductValue(a, b); res else res
  }

  /** `div`: the raw quotient `(n * r.d) / (d * r.n)` through `divBy`; it
      fails exactly when that denominator is zero, in particular whenever
      the divisor's numerator is zero. */
  function Div(a: Rational, b: Rational): (r: Result<Rational>)
    ensures r.Err? <==> a.d == 0 || b.n == 0
    ensures r.Err? ==> r.error == IllegalArgument
    ensures r.Ok? ==> Normalised(r.value)
    ensures r.Ok? && b.d != 0 ==> Value(r.value) == Value(a) / Value(b)
  {
    var res := DivBy(a.n * b.d, a.d * b.n);
    if res.Ok? && b.d != 0 then QuotientValue(a, b); res else res
  }

  /** `unaryMinus`: negates the numerator directly, without `divBy`. On a
      normalised value this is what `divBy` would give. */
  function Neg(a: Rational): (r: Rational)
    ensures r.d == a.d
    ensures a.d != 0 ==> Value(r) == -Value(a)
    ensures Normalised(a) ==> Normalised(r) && DivBy(-a.n, a.d) == Ok(r)
  {
    var r := Rational(-a.n, a.d);
    NegFacts(a);
    r
  }

  lemma NegFacts(a: Rational)
    ensures a.d != 0 ==> Value(Rational(-a.n, a.d)) == -Value(a)
    ensures Normalised(a) ==> Normalised(Rational(-a.n, a.d)) && DivBy(-a.n, a.d) == Ok(Rational(-a.n, a.d))
  {
    if a.d != 0 {
      RealNegate(a.n as real, a.d as real);
    }
    if Normalised(a) {
      assert Abs(-a.n) == Abs(a.n);
      DivByNormalised(Rational(-a.n, a.d));
    }
  }

  lemma SumValue(a: Rational, b: Rational)
    requires a.d != 0 && b.d != 0
    ensures var r := DivBy(a.n * b.d + b.n * a.d, b.d * a.d);
      r.Ok? && Value(r.value) == Value(a) + Value(b)
  {
    DivByValue(a.n * b.d + b.n * a.d, b.d * a.d);
    RawSumValue(a, b);
  }

  lemma RawSumValue(a: Rational, b: Rational)
    requires a.d != 0 && b.d != 0
    ensures Value(Rational(a.n * b.d + b.n * a.d, b.d * a.d)) == Value(a) + Value(b)
  {
    CastMul(a.n, b.d);
    CastMul(b.n, a.d);
    CastMul(b.d, a.d);
    RealSum(a.n as real, a.d as real, b.n as real, b.d as real);
  }

  lemma DifferenceValue(a: Rational, b: Rational)
    requires a.d != 0 && b.d != 0
    ensures var r := DivBy(a.n * b.d - b.n * a.d, b.d * a.d);
      r.Ok? && Value(r.value) == Value(a) - Value(b)
  {
    DivByValue(a.n * b.d - b.n * a.d, b.d * a.d);
    RawDifferenceValue(a, b);
  }

  lemma RawDifferenceValue(a: Rational, b: Rational)
    requires a.d != 0 && b.d != 0
    ensures Value(Rational(a.n * b.d - b.n * a.d, b.d * a.d)) == Value(a) - Value(b)
  {
    CastMul(a.n, b.d);
    CastMul(b.n, a.d);
    CastMul(b.d, a.d);
    RealSum(a.n as real, a.d as real, -(b.n as real), b.d as real);
  }

  lemma ProductValue(a: Rational, b: Rational)
    requires a.d != 0 && b.d != 0
    ensures var r := DivBy(a.n * b.n, b.d * a.d);
      r.Ok? && Value(r.value) == Value(a) * Value(b)
  {
    DivByValue(a.n * b.n, b.d * a.d);
    RawProductValue(a, b);
  }

  lemma RawProductValue(a: Rational, b: Rational)
    requires a.d != 0 && b.d != 0
    ensures Value(Rational(a.n * b.n, b.d * a.d)) == Value(a) * Value(b)
  {
    CastMul(a.n, b.n);
    CastMul(b.d, a.d);
    RealProduct(a.n as real, a.d as real, b.n as real, b.d as real);
  }

  lemma QuotientValue(a: Rational, b: Rational)
    requires a.d != 0 && b.d != 0 && b.n != 0
    ensures var r := DivBy(a.n * b.d, a.d * b.n);
      r.Ok? && Value(r.value) == Value(a) / Value(b)
  {
    DivByValue(a.n * b.d, a.d * b.n);
    RawQuotientValue(a, b);
  }

  lemma RawQuotientValue(a: Rational, b: Rational)
    requires a.d != 0 && b.d != 0 && b.n != 0
    ensures Value(Rational(a.n * b.d, a.d * b.n)) == Value(a) / Value(b)
  {
    CastMul(a.n, b.d);
    CastMul(a.d, b.n);
    RealQuotient(a.n as real, a.d as real, b.n as real, b.d as real);
  }

  // ----- Algebraic laws the operators obey -----

  /** `minus` undoes `plus`. */
  lemma MinusUndoesPlus(a: Rational, b: Rational)
    requires Normalised(a) && b.d != 0
    ensures Plus(a, b).Ok? && Minus(Plus(a, b).value, b) == Ok(a)
  {
    var s := Plus(a, b).value;
    EqualByValue(Minus(s, b).value, a);
  }

  /** `times` undoes `div` by a non-zero divisor. */
  lemma TimesUndoesDiv(a: Rational, b: Rational)
    requires Normalised(a) && b.d != 0 && b.n != 0
    ensures Div(a, b).Ok? && Times(Div(a, b).value, b) == Ok(a)
  {
    var q := Div(a, b).value;
    assert Value(b) != 0.0 by { RealNonZero(b.n as real, b.d as real); }
    RealCancel(Value(a), Value(b));
    EqualByValue(Times(q, b).value, a);
  }

  /** Adding the negation gives the canonical zero, for any pair with a
      non-zero denominator, normalised or not. */
  lemma PlusNegIsZero(a: Rational)
    requires a.d != 0
    ensures Plus(a, Neg(a)) == Ok(Rational(0, 1))
  {
    assert a.n * a.d + (-a.n) * a.d == 0;
    DivByZeroNumerator(a.d * a.d);
  }

  /** `plus` is associative on pairs with non-zero denominators. */
  lemma PlusAssociative(a: Rational, b: Rational, c: Rational)
    requires a.d != 0 && b.d != 0 && c.d != 0
    ensures Plus(a, b).Ok? && Plus(b, c).Ok?
    ensures Plus(Plus(a, b).value, c) == Plus(a, Plus(b, c).value)
  {
    var ab, bc := Plus(a, b).value, Plus(b, c).value;
    EqualByValue(Plus(ab, c).value, Plus(a, bc).value);
  }

  // ----- Comparison -----

  /** `compareTo`: cross-multiplies and compares, `n * other.d` against
      `d * other.n`. The answer means "less, equal, greater" only when both
      denominators are positive, as they are for normalised values. */
  function CompareTo(a: Rational, b: Rational): (c: int)
    ensures c == -1 || c == 0 || c == 1
    ensures a.d > 0 && b.d > 0 ==>
      (c < 0 <==> Value(a) < Value(b)) && (c == 0 <==> Value(a) == Value(b))
  {
    ValueOrder(a, b);
    Compare(a.n * b.d, a.d * b.n)
  }

  /** Kotlin's `lo..hi` range test on comparables: `lo <= x && x <= hi`. */
  predicate InRange(x: Rational, lo: Rational, hi: Rational) {
    CompareTo(lo, x) <= 0 && CompareTo(x, hi) <= 0
  }

  /** On normalised values `compareTo` returns 0 exactly for equal pairs. */
  lemma CompareZeroIffEqual(a: Rational, b: Rational)
    requires Normalised(a) && Normalised(b)
    ensures CompareTo(a, b) == 0 <==> a == b
  {
    if CompareTo(a, b) == 0 {
      EqualByValue(a, b);
    }
  }

  /** On pairs with positive denominators, `compareTo` has the sign of the
      numerator of the difference. */
  lemma CompareAgreesWithMinus(a: Rational, b: Rational)
    requires a.d > 0 && b.d > 0
    ensures Minus(a, b).Ok? && CompareTo(a, b) == Compare(Minus(a, b).value.n, 0)
  {
    var m := Minus(a, b).value;
    ValueSign(m);
  }

  /** `compareTo` is a total order on pairs with positive denominators. */
  lemma CompareTotalOrder(a: Rational, b: Rational, c: Rational)
    requires a.d > 0 && b.d > 0 && c.d > 0
    ensures CompareTo(a, b) == -CompareTo(b, a)
    ensures CompareTo(a, b) <= 0 && CompareTo(b, c) <= 0 ==> CompareTo(a, c) <= 0
  {
  }

  /** With positive denominators, the cross products order the values. */
  lemma ValueOrder(a: Rational, b: Rational)
    ensures a.d > 0 && b.d > 0 ==>
      (Value(a) < Value(b) <==> a.n * b.d < a.d * b.n) &&
      (Value(a) == Value(b) <==> a.n * b.d == a.d * b.n)
  {
    if a.d > 0 && b.d > 0 {
      CastMul(a.n, b.d);
      CastMul(a.d, b.n);
      RealLess(a.n as real, a.d as real, b.n as real, b.d as real);
      SameValue(a, b);
    }
  }

  /** A fraction with a positive denominator has its numerator's sign. */
  lemma ValueSign(r: Rational)
    requires r.d > 0
    ensures Value(r) < 0.0 <==> r.n < 0
    ensures Value(r) == 0.0 <==> r.n == 0
  {
    RealLess(r.n as real, r.d as real, 0.0, 1.0);
    RealNonZero(r.n as real, r.d as real);
  }

  // ----- Display and parsing -----

  /** `toString`: `"n"` when the denominator prints as `"1"`, else `"n/d"`. */
  function ToString(r: Rational): (s: string)
    ensures r.d == 1 ==> s == IntToString(r.n)
    ensures r.d != 1 ==> s == IntToString(r.n) + "/" + IntToString(r.d)
  {
    assert IntToString(1) == "1";
    if IntToString(r.d) == "1" then
      IntToStringInjective(r.d, 1);
      IntToString(r.n)
    else
      IntToString(r.n) + "/" + IntToString(r.d)
  }

  /** `String.toRational`: split on every `/`; one segment is a whole number,
      otherwise the first two segments are numerator and denominator and the
      rest are ignored. Both go through `divBy`. */
  function ToRational(s: string): (r: Result<Rational>)
    ensures r.Ok? ==> Normalised(r.value)
  {
    var parts := Split(s, '/');
    if |parts| == 1 then
      var n :- ParseInt(parts[0]);
      DivBy(n, 1)
    else
      var n :- ParseInt(parts[0]);
      var d :- ParseInt(parts[1]);
      DivBy(n, d)
  }

  /** Text without `/` parses as a whole number `n/1`. */
  lemma ParseWhole(a: string)
    requires '/' !in a
    ensures ToRational(a) == if WellFormed(a) then Ok(Rational(ParseInt(a).value, 1)) else Err(NumberFormat)
  {
    SplitNone(a, '/');
    if WellFormed(a) {
      var n := ParseInt(a).value;
      assert Gcd(Abs(n), 1) == 1 by { assert Gcd(1, Abs(n) % 1) == 1; }
      DivByNormalised(Rational(n, 1));
    }
  }

  /** `"a/b"` parses to the normal form of `a / b`: a malformed part is a
      number-format failure, a zero denominator an illegal argument. */
  lemma ParseFraction(a: string, b: string)
    requires '/' !in a && '/' !in b
    ensures var r := ToRational(a + "/" + b);
      if !WellFormed(a) || !WellFormed(b) then r == Err(NumberFormat)
      else if ParseInt(b).value == 0 then r == Err(IllegalArgument)
      else r.Ok? && Value(r.value) == Value(Rational(ParseInt(a).value, ParseInt(b).value))
  {
    SplitAt(a, '/', b);
    SplitNone(b, '/');
    if WellFormed(a) && WellFormed(b) && ParseInt(b).value != 0 {
      DivByValue(ParseInt(a).value, ParseInt(b).value);
    }
  }

  /** Segments after the second are never looked at. */
  lemma ParseIgnoresExtraSegments(a: string, b: string, t: string)
    requires '/' !in a && '/' !in b
    ensures ToRational(a + "/" + b + "/" + t) == ToRational(a + "/" + b)
  {
    SplitAt(a, '/', b + "/" + t);
    assert a + "/" + b + "/" + t == a + ['/'] + (b + "/" + t);
    SplitAt(b, '/', t);
    SplitAt(a, '/', b);
    SplitNone(b, '/');
  }

  /** Printing a normalised value and parsing the text gives it back. */
  lemma RoundTrip(r: Rational)
    requires Normalised(r)
    ensures ToRational(ToString(r)) == Ok(r)
  {
    NoSlash(r.n);
    NoSlash(r.d);
    IntRoundTrip(r.n);
    IntRoundTrip(r.d);
    DivByNormalised(r);
    if r.d == 1 {
      SplitNone(IntToString(r.n), '/');
    } else {
      SplitAt(IntToString(r.n), '/', IntToString(r.d));
      SplitNone(IntToString(r.d), '/');
    }
  }

  /** Normalised values print differently exactly when they differ. */
  lemma ToStringInjective(a: Rational, b: Rational)
    requires Normalised(a) && Normalised(b) && ToString(a) == ToString(b)
    ensures a == b
  {
    RoundTrip(a);
    RoundTrip(b);
  }

  // ----- Identities of real fractions behind the operators -----

  lemma CastMul(a: int, b: int)
    ensures (a * b) as real == a as real * b as real
  {
  }

  lemma RealSum(an: real, ad: real, bn: real, bd: real)
    requires ad != 0.0 && bd != 0.0
    ensures (an * bd + bn * ad) / (bd * ad) == an / ad + bn / bd
  {
    var x, y := an / ad, bn / bd;
    assert an == x * ad && bn == y * bd;
    assert an * bd + bn * ad == (x + y) * (bd * ad);
  }

  lemma RealNegate(n: real, d: real)
    requires d != 0.0
    ensures -n / d == -(n / d)
  {
  }

  lemma RealNonZero(n: real, d: real)
    requires d != 0.0
    ensures n / d == 0.0 <==> n == 0.0
  {
    if n / d == 0.0 { assert n == (n / d) * d; }
  }

  lemma RealLess(an: real, ad: real, bn: real, bd: real)
    requires ad > 0.0 && bd > 0.0
    ensures an / ad < bn / bd <==> an * bd < ad * bn
  {
    var x, y := an / ad, bn / bd;
    assert an == x * ad && bn == y * bd;
    assert an * bd == x * (ad * bd) && ad * bn == y * (ad * bd);
  }

  lemma RealCancel(x: real, y: real)
    requires y != 0.0
    ensures (x / y) * y == x
  {
  }

  lemma RealProduct(an: real, ad: real, bn: real, bd: real)
    requires ad != 0.0 && bd != 0.0
    ensures (an * bn) / (bd * ad) == (an / ad) * (bn / bd)
  {
    var x, y := an / ad, bn / bd;
    assert an == x * ad && bn == y * bd;
    assert an * bn == (x * y) * (bd * ad);
  }

  lemma RealQuotient(an: real, ad: real, bn: real, bd: real)
    requires ad != 0.0 && bd != 0.0 && bn != 0.0
    ensures (an * bd) / (ad * bn) == (an / ad) / (bn / bd)
  {
    var x, y := an / ad, bn / bd;
    assert an == x * ad && bn == y * bd;
    assert y != 0.0;
    assert an * bd == (x / y) * (ad * bn);
  }
}
