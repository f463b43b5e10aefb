/** The exact-fraction value type of TP7/fraction.py.

    A Python `Fraction` object holds two integer fields, `num` and `den`. Its
    only constructor rejects a zero denominator and then normalises the pair
    (divide both by their gcd, move the sign into the numerator), and nothing
    else ever assigns the fields. So every `Fraction` value that exists is
    reduced; here that is the subset type `Fraction`, and the operators, which
    all build a new object through the constructor, are functions on values.
    The source's repeated `den == 0` guards inside operators and predicates
    are kept as branches closed by `assert false`: the type proves them dead. */
module Fractions {
  import opened Arithmetic

  /** The two fields of a fraction object, before any invariant. */
  datatype Frac = Frac(num: int, den: int)

  /** Lowest terms with a positive denominator (so zero can only be 0/1). */
  predicate Reduced(f: Frac) {
    f.den > 0 && Gcd(f.num, f.den) == 1
  }

  /** Every fraction object, as left by its constructor. */
  type Fraction = f: Frac | Reduced(f) witness Frac(0, 1)

  /** `ValueError` for a zero denominator, `ZeroDivisionError` for division by
      a fraction whose numerator is zero. */
  datatype FractionError = ZeroDenominator | DivisionByZero

  datatype Result<+T> = Ok(value: T) | Err(error: FractionError)

  /** The default `Fraction()` (0/1) and the unit 1/1. */
  const Zero: Fraction := Frac(0, 1)
  const One: Fraction := Frac(1, 1)

  /** The two pairs denote the same rational number. */
  predicate SameValue(n1: int, d1: int, n2: int, d2: int) {
    n1 * d2 == n2 * d1
  }

  /** Denoting the same number is transitive through a nonzero denominator. */
  lemma SameValueTrans(n1: int, d1: int, n2: int, d2: int, n3: int, d3: int)
    requires d2 != 0 && SameValue(n1, d1, n2, d2) && SameValue(n3, d3, n2, d2)
    ensures SameValue(n1, d1, n3, d3)
  {
    assert (n1 * d3) * d2 == (n3 * d1) * d2 by {
      calc {
        (n1 * d3) * d2;
        == (n1 * d2) * d3;
        == (n2 * d1) * d3;
        == (n2 * d3) * d1;
        == (n3 * d2) * d1;
        == (n3 * d1) * d2;
      }
    }
    CancelFactor(n1 * d3, n3 * d1, d2);
  }

  /** Multiplying numerator and denominator by the same factors keeps equal values equal. */
  lemma SameValueMul(n1: int, d1: int, n2: int, d2: int, c: int, e: int)
    requires SameValue(n1, d1, n2, d2)
    ensures SameValue(n1 * c, d1 * e, n2 * c, d2 * e)
  {
    calc {
      (n1 * c) * (d2 * e);
      == (n1 * d2) * (c * e);
      == (n2 * d1) * (c * e);
      == (n2 * c) * (d1 * e);
    }
  }

  // ---------------------------------------------------------------------------
  // Construction and normalisation
  // ---------------------------------------------------------------------------

  /** What the gcd step of `_simplify` relies on: the gcd is positive, both
      divisions are exact, and the quotients are coprime. */
  lemma GcdStep(num: int, den: int)
    requires den != 0
    ensures Gcd(num, den) > 0
    ensures num == (num / Gcd(num, den)) * Gcd(num, den)
    ensures den == (den / Gcd(num, den)) * Gcd(num, den)
    ensures den / Gcd(num, den) != 0
    ensures Gcd(num / Gcd(num, den), den / Gcd(num, den)) == 1
  {
    var a, b := Abs(num), Abs(den);
    GcdDivides(a, b);
    var g := GcdNat(a, b);
    ExactDivision(num, g);
    ExactDivision(den, g);
    DivideByGcdCoprime(a, b, g, a / g, b / g);
  }

  /** Dividing both fields by a common factor, and negating both, keeps
      the value. */
  lemma QuotientSameValue(n: int, d: int, g: int, num: int, den: int)
    requires num == n * g && den == d * g
    ensures SameValue(n, d, num, den) && SameValue(-n, -d, num, den)
  {
    assert n * (d * g) == (n * g) * d;
  }

  /** The fraction `_simplify` leaves behind for the pair (num, den): it is
      reduced and denotes the same number. */
  function Normalize(num: int, den: int): (f: Fraction)
    requires den != 0
    ensures SameValue(f.num, f.den, num, den)
  {
    GcdStep(num, den);
    var g := Gcd(num, den);
    var n, d := num / g, den / g;
    QuotientSameValue(n, d, g, num, den);
    if d < 0 then Frac(-n, -d) else Frac(n, d)
  }

  /** `Fraction(num, den)`: the constructor. */
  function Make(num: int, den: int): (r: Result<Fraction>)
    ensures r.Err? <==> den == 0
    ensures r.Err? ==> r.error == ZeroDenominator
    ensures r.Ok? ==> SameValue(r.value.num, r.value.den, num, den)
  {
    if den == 0 then Err(ZeroDenominator) else Ok(Normalize(num, den))
  }

  /** `_simplify`, step by step on the two fields: divide both by their gcd,
      then negate both if the denominator is negative. */
  method Simplify(num: int, den: int) returns (n: int, d: int)
    requires den != 0
    ensures d > 0 && Gcd(n, d) == 1
    ensures SameValue(n, d, num, den)
    ensures Frac(n, d) == Normalize(num, den)
  {
    GcdStep(num, den);
    n, d := num, den;
    var pgcd := Gcd(n, d);
    n := n / pgcd;
    d := d / pgcd;
    if d < 0 {
      n := -n;
      d := -d;
    }
  }

  /** `__init__`: reject a zero denominator, otherwise store and simplify. */
  method New(num: int, den: int) returns (r: Result<Fraction>)
    ensures r == Make(num, den)
  {
    if den == 0 {
      return Err(ZeroDenominator);
    }
    var n, d := Simplify(num, den);
    return Ok(Frac(n, d));
  }

  /** Two reduced fractions that denote the same number are the same pair:
      the reduced form is unique. */
  lemma Canonical(f: Fraction, h: Fraction)
    requires SameValue(f.num, f.den, h.num, h.den)
    ensures f == h
  {
    var p, q, p', q' := f.num, f.den, h.num, h.den;
    AbsMul(p, q');
    AbsMul(p', q);
    assert Abs(p) * q' == Abs(p') * q;
    MultipleMod(Abs(p'), q);
    EuclidLemma(Abs(p), q, q');
    MultipleMod(Abs(p), q');
    assert (Abs(p') * q) % q' == 0;
    EuclidLemma(Abs(p'), q', q);
    DivisorBound(q', q);
    DivisorBound(q, q');
    assert q == q';
    CancelFactor(p, p', q);
  }

  /** Normalisation yields THE reduced fraction with the pair's value. */
  lemma NormalizeOfValue(num: int, den: int, f: Fraction)
    requires den != 0 && SameValue(f.num, f.den, num, den)
    ensures Normalize(num, den) == f
  {
    var r := Normalize(num, den);
    SameValueTrans(r.num, r.den, num, den, f.num, f.den);
    Canonical(r, f);
  }

  /** A reduced fraction is its own normal form: simplifying is idempotent. */
  lemma NormalizeReduced(f: Fraction)
    ensures Normalize(f.num, f.den) == f
  {
    NormalizeOfValue(f.num, f.den, f);
  }

  /** Construction fails exactly on a zero denominator; otherwise it yields
      the unique reduced fraction with the pair's value, so scaling both
      fields by any nonzero k gives identical fields. */
  lemma MakeScale(num: int, den: int, k: int)
    requires den != 0 && k != 0
    ensures Make(k * num, k * den) == Make(num, den)
  {
    var f := Normalize(num, den);
    assert k * den != 0;
    assert SameValue(k * num, k * den, num, den);
    SameValueTrans(f.num, f.den, num, den, k * num, k * den);
    NormalizeOfValue(k * num, k * den, f);
  }

  /** The normal form has a positive denominator and, for zero, is 0/1. */
  lemma NormalFormShape(num: int, den: int)
    requires den != 0
    ensures Normalize(num, den).den > 0
    ensures num == 0 <==> Normalize(num, den) == Zero
    ensures Gcd(Normalize(num, den).num, Normalize(num, den).den) == 1
  {
    if num == 0 {
      NormalizeOfValue(num, den, Zero);
    }
  }

  // ---------------------------------------------------------------------------
  // Arithmetic operators
  // ---------------------------------------------------------------------------

  lemma PositiveProduct(x: int, y: int)
    requires x > 0 && y > 0
    ensures x * y > 0
  {
    MulAtLeast(x, y);
  }

  /** `__add__`: a/b + c/d == (a·d + c·b)/(b·d), re-normalised. */
  function Add(x: Fraction, y: Fraction): (r: Fraction)
    ensures SameValue(r.num, r.den, x.num * y.den + y.num * x.den, x.den * y.den)
  {
    if x.den == 0 || y.den == 0 then assert false; Zero
    else
      PositiveProduct(x.den, y.den);
      Normalize(x.num * y.den + y.num * x.den, x.den * y.den)
  }

  /** `__sub__`: a/b - c/d == (a·d - c·b)/(b·d), re-normalised. */
  function Sub(x: Fraction, y: Fraction): (r: Fraction)
    ensures SameValue(r.num, r.den, x.num * y.den - y.num * x.den, x.den * y.den)
  {
    if x.den == 0 || y.den == 0 then assert false; Zero
    else
      PositiveProduct(x.den, y.den);
      Normalize(x.num * y.den - y.num * x.den, x.den * y.den)
  }

  /** `__mul__`: (a·c)/(b·d), re-normalised. */
  function Mul(x: Fraction, y: Fraction): (r: Fraction)
    ensures SameValue(r.num, r.den, x.num * y.num, x.den * y.den)
  {
    if x.den == 0 || y.den == 0 then assert false; Zero
    else
      PositiveProduct(x.den, y.den);
      Normalize(x.num * y.num, x.den * y.den)
  }

  /** `__truediv__`: a zero divisor is refused first; otherwise (a·d)/(b·c)
      goes through the constructor, which then cannot fail. */
  function Div(x: Fraction, y: Fraction): (r: Result<Fraction>)
    ensures r.Err? <==> y.num == 0
    ensures r.Err? ==> r.error == DivisionByZero
    ensures r.Ok? ==> SameValue(r.value.num, r.value.den, x.num * y.den, x.den * y.num)
  {
    if y.num == 0 then Err(DivisionByZero)
    else if x.den == 0 || y.den == 0 then assert false; Err(ZeroDenominator)
    else
      assert x.den * y.num != 0;
      Make(x.num * y.den, x.den * y.num)
  }

  /** `__pow__`: num^n/den^n for n >= 0; den^|n|/num^|n| for n < 0. A zero
      base with a negative exponent reaches the constructor with a zero
      denominator and fails there. */
  function Pow(x: Fraction, n: int): (r: Result<Fraction>)
    ensures r.Err? <==> n < 0 && x.num == 0
    ensures r.Err? ==> r.error == ZeroDenominator
    ensures r.Ok? && n >= 0 ==> SameValue(r.value.num, r.value.den, IntPow(x.num, n), IntPow(x.den, n))
    ensures r.Ok? && n < 0 ==> SameValue(r.value.num, r.value.den, IntPow(x.den, -n), IntPow(x.num, -n))
  {
    if x.den == 0 then assert false; Err(ZeroDenominator)
    else if n >= 0 then Make(IntPow(x.num, n), IntPow(x.den, n))
    else Make(IntPow(x.den, -n), IntPow(x.num, -n))
  }

  /** Adding zero changes nothing. */
  lemma AddZero(x: Fraction)
    ensures Add(x, Zero) == x
  {
    NormalizeOfValue(x.num * 1 + 0 * x.den, x.den * 1, x);
  }

  lemma AddBackValue(a: int, b: int, c: int, e: int, p: int, q: int)
    requires SameValue(p, q, a * e - c * b, b * e)
    ensures SameValue(a, b, p * e + c * q, q * e)
  {
    calc {
      (p * e + c * q) * b;
      == p * (b * e) + c * q * b;
      == (a * e - c * b) * q + c * q * b;
      == a * (q * e);
    }
  }

  /** Addition undoes subtraction. */
  lemma SubThenAdd(x: Fraction, y: Fraction)
    ensures Add(Sub(x, y), y) == x
  {
    var s := Sub(x, y);
    PositiveProduct(s.den, y.den);
    AddBackValue(x.num, x.den, y.num, y.den, s.num, s.den);
    NormalizeOfValue(s.num * y.den + y.num * s.den, s.den * y.den, x);
  }

  /** Subtracting a fraction from itself gives the zero fraction 0/1. */
  lemma SubSelf(x: Fraction)
    ensures Sub(x, x) == Zero
  {
    PositiveProduct(x.den, x.den);
    NormalizeOfValue(x.num * x.den - x.num * x.den, x.den * x.den, Zero);
  }

  /** Multiplying by one changes nothing. */
  lemma MulOne(x: Fraction)
    ensures Mul(x, One) == x
  {
    NormalizeOfValue(x.num * 1, x.den * 1, x);
  }

  lemma MulBackValue(a: int, b: int, c: int, e: int, p: int, q: int)
    requires SameValue(p, q, a * e, b * c)
    ensures SameValue(a, b, p * c, q * e)
  {
    calc {
      (p * c) * b;
      == p * (b * c);
      == (a * e) * q;
      == a * (q * e);
    }
  }

  /** Multiplication undoes division by a nonzero fraction. */
  lemma DivThenMul(x: Fraction, y: Fraction)
    requires y.num != 0
    ensures Div(x, y).Ok? && Mul(Div(x, y).value, y) == x
  {
    var q := Div(x, y).value;
    PositiveProduct(q.den, y.den);
    MulBackValue(x.num, x.den, y.num, y.den, q.num, q.den);
    NormalizeOfValue(q.num * y.num, q.den * y.den, x);
  }

  /** x ** 0 is 1/1 for every x, including zero. */
  lemma PowZero(x: Fraction)
    ensures Pow(x, 0) == Ok(One)
  {
    NormalizeReduced(One);
  }

  /** x ** (n + 1) == (x ** n) * x for n >= 0. */
  lemma PowSucc(x: Fraction, n: nat)
    ensures Pow(x, n).Ok? && Pow(x, n + 1).Ok?
    ensures Pow(x, n + 1).value == Mul(Pow(x, n).value, x)
  {
    var p := Pow(x, n).value;
    var a, b := IntPow(x.num, n), IntPow(x.den, n);
    assert IntPow(x.num, n + 1) == x.num * a;
    assert IntPow(x.den, n + 1) == x.den * b;
    var m := Mul(p, x);
    PositiveProduct(p.den, x.den);
    SameValueMul(p.num, p.den, a, b, x.num, x.den);
    SameValueTrans(m.num, m.den, p.num * x.num, p.den * x.den, a * x.num, b * x.den);
    NormalizeOfValue(x.num * a, x.den * b, m);
  }

  lemma PowCross(a: int, b: int, c: int, d: int, n: nat)
    requires a * b == c * d
    ensures IntPow(a, n) * IntPow(b, n) == IntPow(c, n) * IntPow(d, n)
  {
    IntPowMul(a, b, n);
    IntPowMul(c, d, n);
  }

  /** A negative exponent inverts first: x ** -n == (x ** -1) ** n. */
  lemma PowNegative(x: Fraction, n: int)
    requires x.num != 0 && n > 0
    ensures Pow(x, -1).Ok? && Pow(x, -n).Ok? && Pow(Pow(x, -1).value, n).Ok?
    ensures Pow(x, -n).value == Pow(Pow(x, -1).value, n).value
  {
    var y := Pow(x, -1).value;
    IntPowOne(x.num);
    IntPowOne(x.den);
    assert SameValue(y.num, y.den, x.den, x.num);
    var p := Pow(y, n).value;
    var A, B, C, D := IntPow(y.num, n), IntPow(x.num, n), IntPow(x.den, n), IntPow(y.den, n);
    PowCross(y.num, x.num, x.den, y.den, n);
    SameValueTrans(p.num, p.den, A, D, C, B);
    NormalizeOfValue(C, B, p);
  }

  /** x * (x ** -1) == 1 for nonzero x. */
  lemma PowMinusOneInverse(x: Fraction)
    requires x.num != 0
    ensures Pow(x, -1).Ok? && Mul(x, Pow(x, -1).value) == One
  {
    var y := Pow(x, -1).value;
    IntPowOne(x.num);
    IntPowOne(x.den);
    assert SameValue(y.num, y.den, x.den, x.num);
    PositiveProduct(x.den, y.den);
    NormalizeOfValue(x.num * y.num, x.den * y.den, One);
  }

  // ---------------------------------------------------------------------------
  // Equality
  // ---------------------------------------------------------------------------

  /** `__eq__`: the cross-product test. On fraction objects it is field-wise
      equality, hence reflexive, symmetric and transitive. */
  function Equals(x: Fraction, y: Fraction): (b: bool)
    ensures b <==> x == y
  {
    if x.num * y.den == x.den * y.num then Canonical(x, y); true
    else false
  }

  // ---------------------------------------------------------------------------
  // Predicates
  // ---------------------------------------------------------------------------

  /** `is_zero`: holds for the one zero fraction, 0/1, and no other. */
  function IsZero(x: Fraction): (b: bool)
    ensures b <==> x == Zero
  {
    if x.den == 0 then assert false; false
    else if x.num == 0 then NormalizeReduced(x); NormalFormShape(x.num, x.den); true
    else false
  }

  /** For a reduced fraction the denominator divides the numerator exactly
      when it is 1. */
  lemma DivisibleIffDenOne(x: Fraction)
    ensures x.num % x.den == 0 <==> x.den == 1
  {
    if x.num % x.den == 0 {
      ExactQuotient(x.num, x.den);
      var k := x.num / x.den;
      AbsMul(k, x.den);
      assert Abs(x.num) == Abs(k) * x.den;
      MultipleMod(Abs(k), x.den);
      MultipleMod(1, x.den);
      GcdGreatest(Abs(x.num), x.den, x.den);
      DivisorBound(1, x.den);
    }
  }

  /** `is_integer`: Python's `%` with the positive denominator; holds exactly
      when the reduced denominator is 1. */
  function IsInteger(x: Fraction): (b: bool)
    ensures b <==> x.den == 1
  {
    if x.den == 0 then assert false; false
    else DivisibleIffDenOne(x); x.num % x.den == 0
  }

  /** `is_proper`: |num| < |den|, that is, strictly between -1 and 1. */
  function IsProper(x: Fraction): (b: bool)
    ensures b <==> -x.den < x.num < x.den
  {
    if x.den == 0 then assert false; false
    else Abs(x.num) < Abs(x.den)
  }

  /** A fraction times its denominator is 1/1 only when its numerator is 1. */
  lemma UnitFromProduct(x: Fraction)
    ensures Mul(x, Frac(x.den, 1)) == One ==> x.num == 1
  {
    if Mul(x, Frac(x.den, 1)) == One {
      assert 1 * (x.den * 1) == (x.num * x.den) * 1;
      CancelFactor(x.num, 1, x.den);
    }
  }

  /** `is_unit`: the stored numerator is exactly 1 (so -1/2 is not a unit).
      That is, multiplied by its denominator it gives 1/1; a unit fraction is
      moreover nonzero and proper unless it is 1/1. */
  function IsUnit(x: Fraction): (b: bool)
    ensures b <==> Mul(x, Frac(x.den, 1)) == One
    ensures b ==> !IsZero(x) && (IsProper(x) <==> x != One)
  {
    if x.den == 0 then assert false; false
    else if x.num == 1 then
      NormalizeOfValue(x.den, x.den, One); true
    else UnitFromProduct(x); false
  }

  /** `is_adjacent_to`: the cross-multiplied difference is 1 in magnitude.
      That is, the two fractions differ by a unit fraction in magnitude whose
      denominator is x.den·y.den: their difference, reduced, has numerator 1
      or -1 and that denominator. */
  function IsAdjacentTo(x: Fraction, y: Fraction): (b: bool)
    ensures b <==> Abs(Sub(x, y).num) == 1 && Sub(x, y).den == x.den * y.den
  {
    if x.den == 0 || y.den == 0 then assert false; false
    else if Abs(x.num * y.den - y.num * x.den) == 1 then AdjacentDifference(x, y); true
    else AdjacentFromDifference(x, y); false
  }

  /** Conversely, a difference of ±1/(x.den·y.den) means the cross-multiplied
      difference is ±1. */
  lemma AdjacentFromDifference(x: Fraction, y: Fraction)
    ensures Abs(Sub(x, y).num) == 1 && Sub(x, y).den == x.den * y.den
            ==> Abs(x.num * y.den - y.num * x.den) == 1
  {
    var r, c, d := Sub(x, y), x.num * y.den - y.num * x.den, x.den * y.den;
    if r.den == d {
      PositiveProduct(x.den, y.den);
      assert r.num * d == c * d;
      CancelFactor(r.num, c, d);
    }
  }

  /** Adjacent fractions (|a·d − c·b| == 1) differ by ±1/(b·d). */
  lemma AdjacentDifference(x: Fraction, y: Fraction)
    requires Abs(x.num * y.den - y.num * x.den) == 1
    ensures Abs(Sub(x, y).num) == 1 && Sub(x, y).den == x.den * y.den
  {
    var c := x.num * y.den - y.num * x.den;
    var d := x.den * y.den;
    PositiveProduct(x.den, y.den);
    GcdOne(d);
    assert Reduced(Frac(c, d));
    NormalizeOfValue(c, d, Frac(c, d));
  }

  /** The only proper integer is 0. */
  lemma ProperIntegerIsZero(x: Fraction)
    ensures IsProper(x) && IsInteger(x) ==> IsZero(x)
  {
  }

  /** Adjacency is symmetric. */
  lemma AdjacentSymmetric(x: Fraction, y: Fraction)
    ensures IsAdjacentTo(x, y) <==> IsAdjacentTo(y, x)
  {
    assert x.num * y.den - y.num * x.den == -(y.num * x.den - x.num * y.den);
  }
}
