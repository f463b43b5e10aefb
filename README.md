# Exact fractions (TP7/fraction.py), modelled and proved in Dafny

The repository's core is the Python class `Fraction` of `TP7/fraction.py`: an
exact rational number stored as an integer numerator `num` and denominator
`den`. The constructor refuses a zero denominator, then `_simplify` divides
both fields by `math.gcd` and moves the sign into the numerator. Every operator
(`+ - * / **`) builds its result through that constructor. Equality, the
classification predicates and the two text renderings only read the fields.

## Layout

- `arithmetic.dfy` (module `Arithmetic`): absolute value, exact division,
  `math.gcd` (`Gcd`, non-negative, with `Gcd(0, d) == |d|`), and `**` on
  integers (`IntPow`). It proves the gcd facts normalisation needs: the gcd
  divides both arguments, every common divisor divides it, it scales
  (`gcd(k·a, k·b) == k·gcd(a, b)`), dividing by it leaves coprime values, and
  Euclid's lemma holds.
- `fraction.dfy` (module `Fractions`): the fields as `datatype Frac(num, den)`.
  The subset type `Fraction` holds the pairs with `den > 0` and
  `gcd(|num|, den) == 1`. A Python `Fraction` object is only ever made by its
  constructor and nothing reassigns its fields, so every object satisfies this
  invariant.
  - Construction: `Normalize`/`Make` are the pure definitions. The methods
    `Simplify` (`_simplify`) and `New` (`__init__`) make the same in-place
    updates on local variables and are proved equal to them.
  - Operators and predicates are functions on values. The accessors
    `numerator`/`denominator` are the fields `num`/`den`, and `Fraction()`
    with its default arguments is `Zero`, that is 0/1.
  - Errors are values: `ZeroDenominator` stands for the `ValueError` and
    `DivisionByZero` for the `ZeroDivisionError`.
  - The source re-checks `den == 0` inside operators and predicates. These
    checks are kept as branches closed by `assert false`, so the verifier
    proves them unreachable.
- `rendering.dfy` (module `Rendering`): `__str__` and `as_mixed_number`. Each
  picks a shape (`Whole q`, `Simple n d` or `Mixed q r d`), and `Render` prints
  the shape using `IntToString`, which is Python's `str(int)` (without
  CPython's limit on the number of digits, see "Left out"). A reader
  (`ParseDisplay`, `ReadBack`) is the partner of the printer.
- `examples.dfy` (module `Examples`): the concrete cases asserted by the two
  test files, the values printed by the demo `TP7/main.py`, and a few cases
  of the model's own (unit fractions, and the negative mixed number -5/2).

The central result is `Canonical`: two reduced fractions with the same value
(`a·d == c·b`) are the same pair. It follows from Euclid's lemma. From it come
`NormalizeOfValue` (normalisation yields *the* reduced fraction with the
input's value), `MakeScale` (`Fraction(k·n, k·d)` has the same fields as
`Fraction(n, d)`), the contract of `Equals`, and the algebraic identities.

Notes on behaviour that the model keeps as written:
- `x ** n` with a zero base and `n < 0` reaches `Fraction(den^|n|, 0)`. It
  therefore fails with the constructor's zero-denominator `ValueError`
  (`ZeroDenominator`), not with a division error.
- In `as_mixed_number` the quotient is Python's floor division, so -5/2 is
  shown as "-3 1/2". Its parts add up to the value, -3 + 1/2. The remainder
  `num % den` is never negative when `den > 0`, so the `abs` around it never
  changes anything.
- `is_adjacent_to` is the cross-product test `|a·d − c·b| == 1`. It holds
  exactly when the fractions differ by a unit fraction whose denominator is
  the product `b·d` of theirs (`IsAdjacentTo`), not whenever they differ by
  some unit fraction: 1/2 and 3/4 differ by 1/4 yet are not adjacent
  (`AdjacencyCases`). The method's docstring suggests the looser reading. The
  code and the tests do not.
- `is_unit` requires `num == 1` exactly, so -1/2 is not a unit.

## Model

| member | source | states |
|---|---|---|
| `Arithmetic.Gcd` | TP7/fraction.py:37 | `math.gcd`: unless both arguments are 0, a positive divisor of both; gcd(0, b) == abs(b) |
| `Arithmetic.GcdDivides` | TP7/fraction.py:37-39 | `math.gcd` of two values, not both zero, is positive and divides both, so the `//=` divisions of `_simplify` are exact |
| `Arithmetic.GcdGreatest` | TP7/fraction.py:37 | every positive common divisor of the two arguments divides their gcd |
| `Arithmetic.GcdScale` | TP7/fraction.py:37 | gcd(k·a, k·b) == k·gcd(a, b) for k > 0 |
| `Arithmetic.DivideByGcdCoprime` | TP7/fraction.py:37-39 | after dividing both fields by their gcd, the quotients have gcd 1 |
| `Arithmetic.EuclidLemma` | TP7/fraction.py:37-39 | if b divides a·c and gcd(a, b) == 1 then b divides c (what makes the reduced form unique) |
| `Arithmetic.ExactDivision` | TP7/fraction.py:38-39 | Python's `//` by a positive divisor of abs(n) is exact for either sign of n and gives abs(n)/g in magnitude |
| `Arithmetic.IntPow` | TP7/fraction.py:259-263 | `b ** e` is positive for a positive base, and zero exactly when the base is 0 and e > 0 (0 ** 0 == 1) |
| `Arithmetic.IntPowMul` | TP7/fraction.py:259-263 | (a·b) ** e == a ** e · b ** e |
| `Fractions.GcdStep` | TP7/fraction.py:37-39 | for den != 0 the gcd is positive, both divisions are exact, the new denominator is nonzero and the quotients are coprime |
| `Fractions.Normalize` | TP7/fraction.py:29-44 | the simplified pair is reduced (positive denominator, gcd 1) and denotes the same number as (num, den) |
| `Fractions.Make` | TP7/fraction.py:12-27 | construction fails with the zero-denominator error exactly when den == 0, otherwise yields a reduced fraction of the same value |
| `Fractions.Simplify` | TP7/fraction.py:29-44 | the in-place steps (divide both by the gcd, negate both if den < 0) leave den > 0, gcd(num, den) == 1, the same value, and exactly `Normalize(num, den)` |
| `Fractions.New` | TP7/fraction.py:12-27 | `__init__` (zero-denominator check, then store and simplify) returns exactly `Make(num, den)` |
| `Fractions.Canonical` | TP7/fraction.py:29-44 | two reduced fractions denoting the same number have identical fields: the normal form is unique |
| `Fractions.NormalizeOfValue` | TP7/fraction.py:21-44 | normalising (num, den) yields the one reduced fraction whose value is num/den |
| `Fractions.NormalizeReduced` | TP7/fraction.py:29-44 | simplifying an already reduced fraction leaves it unchanged (idempotence) |
| `Fractions.MakeScale` | TP7/fraction.py:21-44 | Fraction(k·n, k·d) == Fraction(n, d) for every nonzero k and d |
| `Fractions.NormalFormShape` | TP7/fraction.py:41-44 | the normal form has a positive denominator and gcd 1, and is 0/1 exactly when num == 0 |
| `Fractions.Add` | TP7/fraction.py:109-137 | the sum is a reduced fraction with value (a·d + c·b)/(b·d) |
| `Fractions.Sub` | TP7/fraction.py:139-167 | the difference is a reduced fraction with value (a·d − c·b)/(b·d) |
| `Fractions.Mul` | TP7/fraction.py:169-196 | the product is a reduced fraction with value (a·c)/(b·d) |
| `Fractions.Div` | TP7/fraction.py:198-231 | fails with the division-by-zero error exactly when the divisor's numerator is 0, otherwise the value is (a·d)/(b·c) |
| `Fractions.Pow` | TP7/fraction.py:233-263 | fails with the zero-denominator error exactly for a zero base with n < 0; otherwise the value is num^n/den^n for n >= 0 and den^abs(n)/num^abs(n) for n < 0 |
| `Fractions.AddZero` | TP7/fraction.py:134-137 | x + 0/1 == x |
| `Fractions.SubThenAdd` | TP7/fraction.py:164-167 | (x − y) + y == x |
| `Fractions.SubSelf` | TP7/fraction.py:164-167 | x − x is the zero fraction 0/1 |
| `Fractions.MulOne` | TP7/fraction.py:193-196 | x · 1/1 == x |
| `Fractions.DivThenMul` | TP7/fraction.py:220-231 | for a nonzero divisor y, (x / y) · y == x |
| `Fractions.PowZero` | TP7/fraction.py:259-260 | x ** 0 == 1/1 for every x, zero included |
| `Fractions.PowSucc` | TP7/fraction.py:259-260 | x ** (n+1) == (x ** n) · x for n >= 0 |
| `Fractions.PowNegative` | TP7/fraction.py:261-263 | for nonzero x and n > 0, x ** −n == (x ** −1) ** n: a negative exponent inverts first |
| `Fractions.PowMinusOneInverse` | TP7/fraction.py:261-263 | x · x ** −1 == 1/1 for nonzero x |
| `Fractions.Equals` | TP7/fraction.py:265-285 | `__eq__`, the cross-product test `a·d == b·c`, holds exactly when the two fractions have identical fields (so it is reflexive, symmetric and transitive) |
| `Fractions.IsZero` | TP7/fraction.py:309-324 | `is_zero` holds exactly for the fraction 0/1 |
| `Fractions.DivisibleIffDenOne` | TP7/fraction.py:342 | for a reduced fraction, `num % den == 0` holds exactly when den == 1 |
| `Fractions.IsInteger` | TP7/fraction.py:326-342 | `is_integer` holds exactly when the reduced denominator is 1 |
| `Fractions.IsProper` | TP7/fraction.py:344-362 | `is_proper` (abs(num) < abs(den)) holds exactly when −den < num < den |
| `Fractions.ProperIntegerIsZero` | TP7/fraction.py:326-362 | the only fraction both proper and an integer is 0 |
| `Fractions.IsUnit` | TP7/fraction.py:364-381 | `is_unit` (num == 1) holds exactly when the fraction times its denominator is 1/1; a unit fraction is nonzero and proper unless it is 1/1 |
| `Fractions.UnitFromProduct` | TP7/fraction.py:381 | a fraction whose product with its denominator is 1/1 has numerator 1 |
| `Fractions.IsAdjacentTo` | TP7/fraction.py:383-415 | `is_adjacent_to` (abs(a·d − c·b) == 1) holds exactly when the reduced difference is ±1/(b·d) |
| `Fractions.AdjacentDifference` | TP7/fraction.py:411-415 | when abs(a·d − c·b) == 1 the two fractions differ by ±1/(b·d), already in lowest terms |
| `Fractions.AdjacentFromDifference` | TP7/fraction.py:411-415 | conversely, a reduced difference of ±1/(b·d) means abs(a·d − c·b) == 1 |
| `Fractions.AdjacentSymmetric` | TP7/fraction.py:383-415 | `is_adjacent_to` is symmetric |
| `Rendering.NoLeadingZero` | TP7/fraction.py:82 | the digits of `str(n)` for n >= 10 do not start with 0 |
| `Rendering.IntToString` | TP7/fraction.py:82 | `str(int)` is nonempty and made of digits and '-' only |
| `Rendering.IntRoundTrip` | TP7/fraction.py:82 | the text of `str(int)` reads back as the same integer |
| `Rendering.RenderRoundTrip` | TP7/fraction.py:81-105 | every printed shape ("q", "n/d", "q r/d") reads back as that shape |
| `Rendering.StrForm` | TP7/fraction.py:81-83 | `__str__` shows the bare numerator exactly when den == 1, otherwise num over den; either way the shape denotes the fraction's own fields |
| `Rendering.SlashIffNotWhole` | TP7/fraction.py:81-83 | printed text contains '/' exactly when the shape is not a whole number |
| `Rendering.ToString` | TP7/fraction.py:69-83 | the text of `__str__` contains '/' exactly when den != 1, parses back as the shape `StrForm` chose, and so reads back as the fraction's own fields |
| `Rendering.MixedForm` | TP7/fraction.py:98-105 | the shape `as_mixed_number` picks (plain form, whole quotient, or floor quotient with remainder) denotes the fraction's own fields: q·den + r over den is num/den |
| `Rendering.AsMixedNumber` | TP7/fraction.py:85-105 | the text of `as_mixed_number` reads back as the fraction's own fields |
| `Rendering.MixedNumberProper` | TP7/fraction.py:98-99 | a proper fraction's mixed form is its `__str__` text |
| `Rendering.MixedNumberWhole` | TP7/fraction.py:100-101 | a whole, improper fraction has den == 1 and is shown as its integer value |
| `Rendering.MixedNumberParts` | TP7/fraction.py:102-105 | otherwise the shown parts are the floor quotient q and remainder r with 0 < r < den and q·den + r == num |
| `Examples.ConstructorCases` | TP7/tests/test_fraction.py:8-16 | Fraction(4, 8) is 1/2; Fraction(1, 0) fails with the zero-denominator error |
| `Examples.StrCases` | TP9/tests/test_fraction.py:21-27 | 5/2 prints "5/2"; Fraction(2, 4) is 1/2 and prints "1/2" |
| `Examples.MixedNumberCases` | TP9/tests/test_fraction.py:30-34 | 5/2 is shown as "2 1/2" and 9/4 as "2 1/4" |
| `Examples.AdditionCases` | TP7/tests/test_fraction.py:29-34 | 1/2 + 1/3 == 5/6 |
| `Examples.DivisionCases` | TP7/tests/test_fraction.py:37-46 | 1/2 ÷ 1/4 == 2/1 and dividing by 0/1 fails with the division-by-zero error; that 2/1 prints as "2" is a case of the model's own |
| `Examples.NegativeCases` | TP7/tests/test_fraction.py:49-57 | -1/2 and 1/-2 both give -1/2, and -1/-2 gives 1/2 |
| `Examples.NegativeStrCases` | TP7/tests/test_fraction.py:49-57 | -1/2 prints "-1/2" and 1/2 prints "1/2" |
| `Examples.EqualityCases` | TP7/tests/test_fraction.py:61-67 | 1/2 == 2/4 and 1/2 != 3/4 |
| `Examples.PredicateCases` | TP7/tests/test_fraction.py:70-83 | 6/2 is an integer and 5/2 is not; 3/4 is proper and 5/4 is not |
| `Examples.AdjacencyCases` | TP7/tests/test_fraction.py:86-92 | 1/2 is adjacent to 2/3 but not to 3/4, although 3/4 − 1/2 is the unit fraction 1/4 (the last fact is the model's own) |
| `Examples.DemoSumCases` | TP7/main.py:5-14 | 1/2 + 3/4 == 5/4 and 1/2 − 3/4 == −1/4 |
| `Examples.DemoProductCases` | TP7/main.py:5-20 | 1/2 · 3/4 == 3/8 and 1/2 ÷ 3/4 == 2/3 |
| `Examples.DemoMixedAndEqualityCases` | TP7/main.py:23-28 | 7/3 is shown as "2 1/3", and 1/2 == 2/4 |
| `Examples.UnitCases` | TP7/fraction.py:364-381 | a case of the model's own: 1/2 and 1/1 are unit fractions, -1/2 and 2/3 are not |
| `Examples.NegativeMixedNumber` | TP7/fraction.py:102-105 | a case of the model's own: -5/2 is shown as "-3 1/2" (floor quotient) |

## Left out

- `__float__` (TP7/fraction.py:287-303): a floating-point conversion, with no exact counterpart here.
- The `isinstance` checks that raise `TypeError` (for example TP7/fraction.py:126-128 and 252-253): Dafny's static types rule these inputs out, so the exponent is always an `int` and the operands are always fractions.
- Ordering operators: the source has only a TODO comment for them (TP7/fraction.py:305).
- Exception messages: only the kind of error is modelled (`ZeroDenominator` for `ValueError`, `DivisionByZero` for `ZeroDivisionError`).
- Object identity and aliasing: fractions are values here. That the operators leave their operands unchanged (their docstrings promise it) therefore holds by construction and is not stated separately.
- `Rendering.IntToString` (and with it `Rendering.ToString` and `Rendering.AsMixedNumber`): CPython refuses to convert an integer of more than 4300 decimal digits to text by default (a `ValueError` from `str()` and f-strings, since Python 3.11 and in the 3.7–3.10 security releases); the model's printers are total and do not model that limit, which is an interpreter setting rather than part of the class.
- TP7/main.py (a demo that only prints), traceroute.py (a command-line wrapper around `tracert`), `UML en.py`, and the unittest/pandas harness of the test files are not part of this model; the test files and the demo serve only as the sources of the cases in `Examples`.
