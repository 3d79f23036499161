# Exact rationals over arbitrary-precision integers

A Dafny model of the Kotlin `Rational` value type in
`Rationals/Task/src/rationals/Rational.kt`. The type is a data class of two
`BigInteger`s, a numerator `n` and a denominator `d`. The model covers:

- the infix constructor `divBy`. It rejects a zero denominator, divides both
  parts by their gcd and moves the sign into the numerator;
- the operators `plus`, `minus`, `times` and `div`, which send the textbook
  cross-product pair through `divBy`, and `unaryMinus`, which negates the
  numerator directly;
- `compareTo`, which compares by cross-multiplication;
- `toString`, which prints `n` or `n/d`;
- `String.toRational`, which splits on `/` and calls `divBy`;
- the equalities that `main` prints, restated as lemmas.

Everything in the source is pure, so the model is pure too: datatypes,
functions and lemmas. `BigInteger` is Dafny's unbounded `int`. The thrown
exceptions become `Result` values (`Err(IllegalArgument)` from `divBy`,
`Err(NumberFormat)` from the decimal parser). The number a pair stands for is
the ghost function `Value(r) = n / d` over `real`, and the arithmetic
contracts are stated against it.

Modules:

- `Exceptions` (exceptions.dfy): the error kinds and `Result`.
- `IntMath` (intmath.dfy): the `BigInteger` operations `divBy` uses. These
  are absolute value, truncating division `Quot`, `compareTo` as `Compare`,
  and Euclid's `Gcd`. It also holds the facts about them: the gcd divides
  both arguments, Bezout's identity, coprimality after reduction, and
  Euclid's lemma.
- `Decimal` (decimal.dfy): `BigInteger.toString()`, the `BigInteger(String)`
  constructor, and Kotlin's `split` on one character.
- `Rationals` (rational.dfy): the data class and the operations above.
- `RationalChecks` (checks.dfy): `main`'s checks.

In three places the code does something other than what a reader of the
type's intent might expect. The model follows the code each time:

- Parsing does not stop at the first `/`. The code splits on every `/`, uses
  the first two segments and ignores the rest, so `"1/2/junk"` parses as 1/2
  (`ParseIgnoresExtraSegments`).
- Not every `Rational` is normalised. The public data-class constructor
  checks nothing. So the model proves normal form for what
  `divBy` and the binary operators return, and assumes it as a precondition
  only where a property needs it: `CanonicalUnique`, `EqualByValue` and
  `DivByNormalised` (which are about normal form itself), the normalised
  half of `Neg`'s contract, `MinusUndoesPlus`, `TimesUndoesDiv`,
  `CompareZeroIffEqual`, `RoundTrip` and `ToStringInjective`. The other
  properties of `compareTo` (`CompareTo`'s ordering clause,
  `CompareAgreesWithMinus`, `CompareTotalOrder`) assume only positive
  denominators.
- `unaryMinus` does not go through `divBy`. The code builds
  `Rational(-n, d)` directly. `Neg` does the same, and proves that for
  a normalised input this equals what `divBy` gives.

The two sign-fixing branches of `divBy` (lines 27-32) have identical bodies,
so they are modelled as one rule. The comments "return 0 if ..." on lines 21
and 27 describe no behaviour: the code throws, and so does the model.

## Model

| member | source | states |
|---|---|---|
| IntMath.GcdDivides | Rationals/Task/src/rationals/Rational.kt:23 | the gcd divides both arguments, with explicit cofactors |
| IntMath.Bezout | Rationals/Task/src/rationals/Rational.kt:23 | the gcd is an integer combination of the two arguments |
| IntMath.GcdPositive | Rationals/Task/src/rationals/Rational.kt:21-23 | the gcd is positive once one argument is non-zero, so after the zero-denominator check the divisions on lines 24-25 are defined |
| IntMath.ReducedCoprime | Rationals/Task/src/rationals/Rational.kt:23-25 | the cofactors left after dividing by the gcd have gcd 1 |
| IntMath.QuotExact | Rationals/Task/src/rationals/Rational.kt:24-25 | truncating `BigInteger` division of an exact multiple returns the exact cofactor |
| IntMath.Euclid | Rationals/Task/src/rationals/Rational.kt:23-36 | a number coprime with `a` that divides `a * c` divides `c` (the key step for uniqueness of normal form) |
| Decimal.ParseInt | Rationals/Task/src/rationals/Rational.kt:44-48 | the decimal constructor succeeds exactly on an optional sign followed by one or more digits, and fails with `NumberFormat` otherwise |
| Decimal.IntRoundTrip | Rationals/Task/src/rationals/Rational.kt:15 | parsing the decimal text of any integer gives back that integer |
| Decimal.IntToStringInjective | Rationals/Task/src/rationals/Rational.kt:15 | two integers with the same decimal text are equal, so the test `d.toString() == "1"` means `d == 1` |
| Decimal.SplitJoin | Rationals/Task/src/rationals/Rational.kt:43-48 | splitting on `/` loses nothing (joining the segments gives the input back) and no segment contains `/` |
| Decimal.SplitNone | Rationals/Task/src/rationals/Rational.kt:43-45 | text without `/` splits into exactly one segment |
| Decimal.SplitAt | Rationals/Task/src/rationals/Rational.kt:46-48 | the first `/` ends the first segment |
| Decimal.NoSlash | Rationals/Task/src/rationals/Rational.kt:15 | the decimal text of an integer never contains `/` |
| Rationals.DivBy | Rationals/Task/src/rationals/Rational.kt:18-38 | fails with `IllegalArgument` iff the denominator is zero; otherwise the result has a positive denominator, is in lowest terms, and has the same cross product as the input pair |
| Rationals.ReduceFacts | Rationals/Task/src/rationals/Rational.kt:23-25 | both quotients by the gcd are exact, the denominator's is non-zero, and they are coprime in magnitude |
| Rationals.CanonicalUnique | Rationals/Task/src/rationals/Rational.kt:5 | two normalised pairs with equal cross products are the same pair, so data-class equality is numeric equality |
| Rationals.EqualByValue | Rationals/Task/src/rationals/Rational.kt:5 | two normalised pairs that stand for the same number are equal |
| Rationals.SameValue | Rationals/Task/src/rationals/Rational.kt:7 | two pairs stand for the same number exactly when their cross products agree |
| Rationals.DivByValue | Rationals/Task/src/rationals/Rational.kt:23-36 | `divBy` keeps the value `nu / de` |
| Rationals.DivBySameValue | Rationals/Task/src/rationals/Rational.kt:18-38 | any two input pairs with the same value give the same result |
| Rationals.DivByScale | Rationals/Task/src/rationals/Rational.kt:23-36 | `divBy(k*n, k*d) == divBy(n, d)` for every non-zero `k` |
| Rationals.DivByZeroNumerator | Rationals/Task/src/rationals/Rational.kt:23-36 | a zero numerator always gives `0/1` |
| Rationals.DivByNormalised | Rationals/Task/src/rationals/Rational.kt:18-38 | a normalised pair is its own `divBy` result |
| Rationals.Plus | Rationals/Task/src/rationals/Rational.kt:9 | fails with `IllegalArgument` iff a denominator is zero; otherwise the result is normalised and its value is the sum of the values |
| Rationals.Minus | Rationals/Task/src/rationals/Rational.kt:10 | fails with `IllegalArgument` iff a denominator is zero; otherwise the result is normalised and its value is the difference of the values |
| Rationals.Times | Rationals/Task/src/rationals/Rational.kt:11 | fails with `IllegalArgument` iff a denominator is zero; otherwise the result is normalised and its value is the product of the values |
| Rationals.Div | Rationals/Task/src/rationals/Rational.kt:12 | fails with `IllegalArgument` iff the dividend's denominator or the divisor's numerator is zero; otherwise the result is normalised and its value is the quotient of the values |
| Rationals.Neg | Rationals/Task/src/rationals/Rational.kt:13 | keeps the denominator and negates the value; on a normalised input the result is normalised and equals `-n divBy d` |
| Rationals.MinusUndoesPlus | Rationals/Task/src/rationals/Rational.kt:9-10 | `(a + b) - b == a` for normalised `a` |
| Rationals.TimesUndoesDiv | Rationals/Task/src/rationals/Rational.kt:11-12 | `(a / b) * b == a` for normalised `a` and non-zero `b` |
| Rationals.PlusNegIsZero | Rationals/Task/src/rationals/Rational.kt:9-13 | `a + (-a)` is `0/1` for every pair with a non-zero denominator, normalised or not |
| Rationals.PlusAssociative | Rationals/Task/src/rationals/Rational.kt:9 | `(a + b) + c == a + (b + c)` |
| Rationals.CompareTo | Rationals/Task/src/rationals/Rational.kt:7 | returns -1, 0 or 1; with positive denominators it is negative, zero or positive as the first value is less than, equal to or greater than the second |
| Rationals.CompareZeroIffEqual | Rationals/Task/src/rationals/Rational.kt:7 | on normalised values `compareTo` is 0 exactly when the pairs are equal |
| Rationals.CompareAgreesWithMinus | Rationals/Task/src/rationals/Rational.kt:7-10 | with positive denominators, `compareTo(a, b)` is the sign of the numerator of `a - b` |
| Rationals.CompareTotalOrder | Rationals/Task/src/rationals/Rational.kt:7 | with positive denominators, `compareTo` is antisymmetric and transitive |
| Rationals.ValueOrder | Rationals/Task/src/rationals/Rational.kt:7 | with positive denominators, comparing the cross products orders the values |
| Rationals.ValueSign | Rationals/Task/src/rationals/Rational.kt:7 | with a positive denominator, the value has the numerator's sign |
| Rationals.ToString | Rationals/Task/src/rationals/Rational.kt:15 | prints `n` exactly when `d == 1` and `n/d` otherwise |
| Rationals.ToRational | Rationals/Task/src/rationals/Rational.kt:40-51 | every successful parse is normalised |
| Rationals.ParseWhole | Rationals/Task/src/rationals/Rational.kt:43-50 | text without `/` parses as `n/1`, or fails with `NumberFormat` when it is not a decimal integer |
| Rationals.ParseFraction | Rationals/Task/src/rationals/Rational.kt:46-50 | `"a/b"` fails with `NumberFormat` on a malformed part and with `IllegalArgument` when `b` is zero; otherwise it gives the normal form of the value `a / b` |
| Rationals.ParseIgnoresExtraSegments | Rationals/Task/src/rationals/Rational.kt:47-48 | segments after the second `/` have no effect |
| Rationals.RoundTrip | Rationals/Task/src/rationals/Rational.kt:40-50 | parsing the printed form of a normalised value gives that value back |
| Rationals.ToStringInjective | Rationals/Task/src/rationals/Rational.kt:15 | distinct normalised values print differently |
| RationalChecks.SmallFractions | Rationals/Task/src/rationals/Rational.kt:54-55 | `1 divBy 2`, `1 divBy 3` and `2 divBy 3` are `1/2`, `1/3` and `2/3` |
| RationalChecks.ArithmeticOnHalfAndThird | Rationals/Task/src/rationals/Rational.kt:57-68 | 1/2 + 1/3 = 5/6, 1/2 - 1/3 = 1/6, 1/2 * 1/3 = 1/6, (1/2) / (1/3) = 3/2 |
| RationalChecks.NegationOfHalf | Rationals/Task/src/rationals/Rational.kt:70-71 | `-half == -1 divBy 2` |
| RationalChecks.Printing | Rationals/Task/src/rationals/Rational.kt:73-74 | `2 divBy 1` prints as `"2"` and `-2 divBy 4` as `"-1/2"` |
| RationalChecks.ParsingReduces | Rationals/Task/src/rationals/Rational.kt:75 | `"117/1098"` parses to 13/122 |
| RationalChecks.PrintingReduced | Rationals/Task/src/rationals/Rational.kt:75 | 13/122 prints as `"13/122"` |
| RationalChecks.Ordering | Rationals/Task/src/rationals/Rational.kt:77-80 | `half < twoThirds` and `half in third..twoThirds` |
| RationalChecks.LargeReductions | Rationals/Task/src/rationals/Rational.kt:82-85 | `2000000000 divBy 4000000000` and the 39-digit pair both equal `1 divBy 2` |

## Left out

- Inputs to `divBy` are widened by printing a `Number` and re-reading it as a
  `BigInteger` (lines 19-20). The model takes `int` arguments directly. For
  `Double` or `Float` inputs that text path throws, and floating point is not
  modelled.
- The `BigInteger(String)` constructor also accepts non-ASCII Unicode decimal
  digits. `Decimal.ParseInt` accepts only `0`-`9`.
- Exceptions are values of `Result`, not control flow. The error kind is
  kept (`IllegalArgument` or `NumberFormat`), but the exception message is
  not.
- The console output of `main` is not modelled. Only the equalities it
  prints are kept, as the lemmas of `RationalChecks`.
- The data-class members `hashCode`, `copy` and `componentN` are not
  modelled. `equals` is Dafny's structural equality of the datatype.
- Rationals.Neg: proves normal form and equality with `-n divBy d` only for
  a normalised input, because the unchecked data-class constructor allows
  any pair and `unaryMinus` does not normalise.
- Rationals.CompareTo: states what the result means only when both
  denominators are positive, because the cross-multiplication is not an
  order otherwise.
