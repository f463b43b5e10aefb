/** Integer facts the fraction type rests on: absolute value, exact division,
    the greatest common divisor with the convention of Python's `math.gcd`,
    and integer powers (Python's `**` on an `int` base and a `nat` exponent).
    Python integers are unbounded, so Dafny's `int` models them exactly. */
module Arithmetic {

  function Abs(x: int): nat {
    if x < 0 then -x else x
  }

  lemma AbsMul(x: int, y: int)
    ensures Abs(x * y) == Abs(x) * Abs(y)
  {
    if x < 0 && y < 0 {
      assert x * y == (-x) * (-y);
    } else if x < 0 {
      assert -(x * y) == (-x) * y;
    } else if y < 0 {
      assert -(x * y) == x * (-y);
    }
  }

  // ---------------------------------------------------------------------------
  // Division with remainder (Dafny's `/` and `%` agree with Python's `//` and
  // `%` whenever the divisor is positive, which is the only case used here)
  // ---------------------------------------------------------------------------

  lemma MulAtLeast(k: int, d: int)
    requires k >= 1 && d > 0
    ensures k * d >= d
  {
    assert k * d == (k - 1) * d + d;
    assert (k - 1) * d >= 0;
  }

  /** Quotient and remainder are determined by the defining equation. */
  lemma DivModUnique(n: int, d: int, q: int, r: int)
    requires d > 0 && 0 <= r < d && n == q * d + r
    ensures n / d == q && n % d == r
  {
    var q0, r0 := n / d, n % d;
    assert (q - q0) * d == r0 - r;
    if q > q0 {
      MulAtLeast(q - q0, d);
      assert false;
    } else if q < q0 {
      MulAtLeast(q0 - q, d);
      assert false;
    }
  }

  lemma CancelFactor(x: int, y: int, k: int)
    requires k != 0 && k * x == k * y
    ensures x == y
  {
    assert k * (x - y) == 0;
  }

  /** Any integer combination of two multiples of `c` is a multiple of `c`. */
  lemma DividesCombination(c: int, x: int, y: int, m: int, n: int)
    requires c > 0 && x % c == 0 && y % c == 0
    ensures (m * x + n * y) % c == 0
  {
    var a, b := x / c, y / c;
    assert x == a * c && y == b * c;
    assert m * x + n * y == (m * a + n * b) * c;
    DivModUnique(m * x + n * y, c, m * a + n * b, 0);
  }

  lemma MultipleMod(q: int, d: int)
    requires d > 0
    ensures (q * d) % d == 0 && (q * d) / d == q
  {
    DivModUnique(q * d, d, q, 0);
  }

  lemma ExactQuotient(n: int, d: int)
    requires d > 0 && n % d == 0
    ensures d * (n / d) == n
  {
  }

  /** A positive multiple of `d` is at least `d`. */
  lemma DivisorBound(n: int, d: int)
    requires d > 0 && n > 0 && n % d == 0
    ensures n >= d
  {
    var q := n / d;
    assert n == q * d;
    assert q >= 1;
    MulAtLeast(q, d);
  }

  /** Dividing an exact multiple of `g` by `g`, whatever the sign: the Python
      `//=` of the normalisation step never rounds. */
  lemma ExactDivision(n: int, g: int)
    requires g > 0 && Abs(n) % g == 0
    ensures n == (n / g) * g && Abs(n / g) == Abs(n) / g
  {
    var m := Abs(n) / g;
    assert Abs(n) == m * g;
    if n >= 0 {
      DivModUnique(n, g, m, 0);
    } else {
      assert n == (-m) * g;
      DivModUnique(n, g, -m, 0);
    }
  }

  // ---------------------------------------------------------------------------
  // Greatest common divisor
  // ---------------------------------------------------------------------------

  /** Euclid's algorithm on natural numbers; GcdNat(a, 0) == a. */
  function GcdNat(a: nat, b: nat): nat
    decreases b
  {
    if b == 0 then a else GcdNat(b, a % b)
  }


  /** The gcd is a positive common divisor unless both arguments are 0. */
  lemma {:induction false} GcdDivides(a: nat, b: nat)
    requires a > 0 || b > 0
    ensures GcdNat(a, b) > 0 && a % GcdNat(a, b) == 0 && b % GcdNat(a, b) == 0
    decreases b
  {
    if b == 0 {
      MultipleMod(1, a);
    } else {
      GcdDivides(b, a % b);
      var g := GcdNat(a, b);
      assert a == (a / b) * b + 1 * (a % b);
      DividesCombination(g, b, a % b, a / b, 1);
    }
  }

  /** Every common divisor divides the gcd. */
  lemma {:induction false} GcdGreatest(a: nat, b: nat, c: int)
    requires c > 0 && a % c == 0 && b % c == 0
    ensures GcdNat(a, b) % c == 0
    decreases b
  {
    if b != 0 {
      assert a % b == 1 * a + (-(a / b)) * b;
      DividesCombination(c, a, b, 1, -(a / b));
      GcdGreatest(b, a % b, c);
    }
  }

  lemma ModScale(a: nat, b: nat, k: nat)
    requires b > 0 && k > 0
    ensures (k * a) % (k * b) == k * (a % b)
  {
    var q, r := a / b, a % b;
    assert k * a == q * (k * b) + k * r;
    assert k * r < k * b by { assert k * (b - r) > 0; }
    DivModUnique(k * a, k * b, q, k * r);
  }

  /** gcd(k·a, k·b) == k·gcd(a, b). */
  lemma {:induction false} GcdScale(a: nat, b: nat, k: nat)
    requires k > 0
    ensures GcdNat(k * a, k * b) == k * GcdNat(a, b)
    decreases b
  {
    if b == 0 {
      assert k * b == 0;
    } else {
      assert k * b > 0;
      ModScale(a, b, k);
      GcdScale(b, a % b, k);
    }
  }

  /** `math.gcd`: the non-negative gcd of the absolute values, gcd(0, d) == |d|;
      unless both arguments are 0 it is a positive common divisor of both
      (that it is the greatest is `GcdGreatest`). */
  function Gcd(a: int, b: int): (g: nat)
    ensures a != 0 || b != 0 ==> g > 0 && Abs(a) % g == 0 && Abs(b) % g == 0
    ensures a == 0 ==> g == Abs(b)
  {
    if a != 0 || b != 0 then GcdDivides(Abs(a), Abs(b)); GcdNat(Abs(a), Abs(b))
    else GcdNat(Abs(a), Abs(b))
  }

  lemma CoprimeQuotients(a: nat, b: nat, a': nat, b': nat, g: nat)
    requires g > 0 && a == g * a' && b == g * b' && GcdNat(a, b) == g
    ensures GcdNat(a', b') == 1
  {
    GcdScale(a', b', g);
    CancelFactor(GcdNat(a', b'), 1, g);
  }

  /** Dividing both arguments by their (positive) gcd leaves coprime values:
      the heart of the normalisation step. */
  lemma DivideByGcdCoprime(a: nat, b: nat, g: nat, a': int, b': int)
    requires g == GcdNat(a, b) && g > 0 && a' == a / g && b' == b / g
    ensures a' >= 0 && b' >= 0 && GcdNat(a', b') == 1
  {
    GcdDivides(a, b);
    ExactQuotient(a, g);
    ExactQuotient(b, g);
    CoprimeQuotients(a, b, a', b', g);
  }

  /** Euclid's lemma: if b divides a·c and a is coprime to b, then b divides c. */
  lemma EuclidLemma(a: nat, b: nat, c: nat)
    requires b > 0 && GcdNat(a, b) == 1 && (a * c) % b == 0
    ensures c % b == 0
  {
    if c > 0 {
      GcdScale(a, b, c);
      assert c * a == a * c;
      MultipleMod(c, b);
      assert (c * b) % b == 0;
      GcdGreatest(c * a, c * b, b);
    }
  }

  /** gcd(1, d) == 1. */
  lemma GcdOne(d: nat)
    ensures GcdNat(1, d) == 1
  {
    GcdDivides(1, d);
    DivisorBound(1, GcdNat(1, d));
  }

  // ---------------------------------------------------------------------------
  // Integer powers
  // ---------------------------------------------------------------------------

  /** Python's `b ** e` for a non-negative exponent (so 0 ** 0 == 1). */
  function IntPow(b: int, e: nat): (p: int)
    ensures b > 0 ==> p > 0
    ensures p == 0 <==> b == 0 && e > 0
  {
    if e == 0 then 1 else b * IntPow(b, e - 1)
  }

  lemma IntPowOne(b: int)
    ensures IntPow(b, 1) == b
  {
  }

  lemma {:induction false} IntPowMul(a: int, b: int, e: nat)
    ensures IntPow(a * b, e) == IntPow(a, e) * IntPow(b, e)
  {
    if e > 0 {
      IntPowMul(a, b, e - 1);
      var x, y := IntPow(a, e - 1), IntPow(b, e - 1);
      assert (a * b) * (x * y) == (a * x) * (b * y);
    }
  }
}
