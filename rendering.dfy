/** The two textual forms of a fraction: `__str__` ("num" or "num/den") and
    `as_mixed_number` ("q r/den", "q" or the plain form).

    Each is split into the choice of a `Display` shape and a printer for
    shapes, built on Python's `str(int)`. A reader for the printed text is
    given too, so that the lemmas can state that neither rendering loses
    anything: reading the text back yields the fraction's own fields. */
module Rendering {
  import opened Arithmetic
  import opened Fractions

  datatype Option<+T> = None | Some(value: T)

  // ---------------------------------------------------------------------------
  // Decimal text of an integer (`str(int)`) and its reader
  // ---------------------------------------------------------------------------

  predicate IsDigit(c: char) {
    '0' <= c <= '9'
  }

  predicate IsDigits(s: string) {
    forall i :: 0 <= i < |s| ==> IsDigit(s[i])
  }

  function DigitChar(d: nat): (c: char)
    requires d < 10
    ensures IsDigit(c)
  {
    (d + '0' as int) as char
  }

  function DigitValue(c: char): (d: nat)
    requires IsDigit(c)
    ensures d < 10
  {
    c as int - '0' as int
  }

  /** Decimal digits of a natural number, most significant first, no
      leading zero. */
  function NatToString(n: nat): (s: string)
    ensures |s| > 0 && IsDigits(s)
  {
    if n < 10 then [DigitChar(n)] else NatToString(n / 10) + [DigitChar(n % 10)]
  }

  /** The text of a number of two or more digits does not start with 0. */
  lemma {:induction false} NoLeadingZero(n: nat)
    requires n >= 10
    ensures NatToString(n)[0] != '0'
  {
    if n / 10 >= 10 {
      NoLeadingZero(n / 10);
    }
  }

  /** `str(i)` for a Python int: a minus sign, then the digits of |i|. */
  function IntToString(i: int): (s: string)
    ensures |s| > 0
    ensures forall k :: 0 <= k < |s| ==> IsDigit(s[k]) || s[k] == '-'
  {
    if i < 0 then "-" + NatToString(-i) else NatToString(i)
  }

  function ParseNat(s: string): nat
    requires IsDigits(s)
  {
    if s == [] then 0 else 10 * ParseNat(s[..|s| - 1]) + DigitValue(s[|s| - 1])
  }

  /** Reads an optional minus sign followed by at least one digit. */
  function ParseInt(s: string): Option<int> {
    if |s| > 1 && s[0] == '-' && IsDigits(s[1..]) then Some(0 - ParseNat(s[1..]))
    else if |s| > 0 && IsDigits(s) then Some(ParseNat(s))
    else None
  }

  lemma {:induction false} NatRoundTrip(n: nat)
    ensures ParseNat(NatToString(n)) == n
  {
    if n >= 10 {
      var s := NatToString(n);
      assert s[..|s| - 1] == NatToString(n / 10);
      NatRoundTrip(n / 10);
      assert DigitValue(s[|s| - 1]) == n % 10;
    }
  }

  /** `str(int)` loses nothing: the text reads back as the same integer. */
  lemma IntRoundTrip(i: int)
    ensures ParseInt(IntToString(i)) == Some(i)
  {
    var s := IntToString(i);
    if i < 0 {
      assert s[1..] == NatToString(-i);
      NatRoundTrip(-i);
    } else {
      assert !IsDigit('-');
      NatRoundTrip(i);
    }
  }

  // ---------------------------------------------------------------------------
  // Splitting at a separator
  // ---------------------------------------------------------------------------

  /** The text before and after the first occurrence of `c`, if any. */
  function Split(s: string, c: char): Option<(string, string)> {
    if s == [] then None
    else if s[0] == c then Some(([], s[1..]))
    else
      match Split(s[1..], c)
      case None => None
      case Some(parts) => Some(([s[0]] + parts.0, parts.1))
  }

  lemma {:induction false} SplitJoin(a: string, c: char, b: string)
    requires c !in a
    ensures Split(a + [c] + b, c) == Some((a, b))
  {
    if a != [] {
      assert (a + [c] + b)[1..] == a[1..] + [c] + b;
      SplitJoin(a[1..], c, b);
      assert [a[0]] + a[1..] == a;
    } else {
      assert a + [c] + b == [c] + b;
    }
  }

  lemma {:induction false} SplitAbsent(s: string, c: char)
    requires c !in s
    ensures Split(s, c) == None
  {
    if s != [] {
      SplitAbsent(s[1..], c);
    }
  }

  lemma IntTextHasNoSeparator(i: int)
    ensures ' ' !in IntToString(i) && '/' !in IntToString(i)
  {
    var s := IntToString(i);
    assert forall k :: 0 <= k < |s| ==> s[k] != ' ' && s[k] != '/';
  }

  // ---------------------------------------------------------------------------
  // Display shapes, their printer and their reader
  // ---------------------------------------------------------------------------

  /** "q", "n/d" or "q r/d". */
  datatype Display = Whole(q: int) | Simple(n: int, d: int) | Mixed(q: int, r: int, d: int)

  function Render(x: Display): string {
    match x
    case Whole(q) => IntToString(q)
    case Simple(n, d) => IntToString(n) + "/" + IntToString(d)
    case Mixed(q, r, d) => IntToString(q) + " " + IntToString(r) + "/" + IntToString(d)
  }

  function ParseSimple(s: string): Option<(int, int)> {
    match Split(s, '/')
    case None => None
    case Some(parts) =>
      match (ParseInt(parts.0), ParseInt(parts.1))
      case (Some(n), Some(d)) => Some((n, d))
      case _ => None
  }

  function ParseDisplay(s: string): Option<Display> {
    match Split(s, ' ')
    case Some(parts) =>
      (match (ParseInt(parts.0), ParseSimple(parts.1))
       case (Some(q), Some(rd)) => Some(Mixed(q, rd.0, rd.1))
       case _ => None)
    case None =>
      if '/' in s then
        (match ParseSimple(s)
         case Some(nd) => Some(Simple(nd.0, nd.1))
         case None => None)
      else
        (match ParseInt(s)
         case Some(q) => Some(Whole(q))
         case None => None)
  }

  lemma SimpleRoundTrip(n: int, d: int)
    ensures ParseSimple(IntToString(n) + "/" + IntToString(d)) == Some((n, d))
  {
    IntTextHasNoSeparator(n);
    SplitJoin(IntToString(n), '/', IntToString(d));
    IntRoundTrip(n);
    IntRoundTrip(d);
  }

  lemma WholeRoundTrip(q: int)
    ensures ParseDisplay(IntToString(q)) == Some(Whole(q))
  {
    IntTextHasNoSeparator(q);
    SplitAbsent(IntToString(q), ' ');
    IntRoundTrip(q);
  }

  lemma FractionTextRoundTrip(n: int, d: int)
    ensures ParseDisplay(IntToString(n) + "/" + IntToString(d)) == Some(Simple(n, d))
  {
    var s := IntToString(n) + "/" + IntToString(d);
    IntTextHasNoSeparator(n);
    IntTextHasNoSeparator(d);
    assert ' ' !in s;
    SplitAbsent(s, ' ');
    assert s[|IntToString(n)|] == '/';
    SimpleRoundTrip(n, d);
  }

  lemma MixedTextRoundTrip(q: int, r: int, d: int)
    ensures ParseDisplay(IntToString(q) + " " + IntToString(r) + "/" + IntToString(d))
            == Some(Mixed(q, r, d))
  {
    var rest := IntToString(r) + "/" + IntToString(d);
    IntTextHasNoSeparator(q);
    assert IntToString(q) + " " + IntToString(r) + "/" + IntToString(d)
           == IntToString(q) + [' '] + rest;
    SplitJoin(IntToString(q), ' ', rest);
    IntRoundTrip(q);
    SimpleRoundTrip(r, d);
  }

  /** Every shape prints to text that reads back as that shape. */
  lemma RenderRoundTrip(x: Display)
    ensures ParseDisplay(Render(x)) == Some(x)
  {
    match x
    case Whole(q) => WholeRoundTrip(q);
    case Simple(n, d) => FractionTextRoundTrip(n, d);
    case Mixed(q, r, d) => MixedTextRoundTrip(q, r, d);
  }

  /** The number a shape denotes, as a numerator/denominator pair. */
  function Denotation(x: Display): Frac {
    match x
    case Whole(q) => Frac(q, 1)
    case Simple(n, d) => Frac(n, d)
    case Mixed(q, r, d) => Frac(q * d + r, d)
  }

  /** Reads rendered text back into the pair of fields it shows. */
  function ReadBack(s: string): Option<Frac> {
    match ParseDisplay(s)
    case Some(x) => Some(Denotation(x))
    case None => None
  }

  // ---------------------------------------------------------------------------
  // `__str__` and `as_mixed_number`
  // ---------------------------------------------------------------------------

  /** Shape of `__str__`: the numerator alone exactly when the denominator
      is 1. Either way the shape denotes the fraction's own fields. */
  function StrForm(f: Fraction): (x: Display)
    ensures x.Whole? <==> f.den == 1
    ensures Denotation(x) == Frac(f.num, f.den)
  {
    if f.den == 1 then Whole(f.num) else Simple(f.num, f.den)
  }

  /** The printed text of a shape contains '/' exactly when it is not a
      whole number. */
  lemma SlashIffNotWhole(x: Display)
    ensures '/' in Render(x) <==> !x.Whole?
  {
    match x
    case Whole(q) => IntTextHasNoSeparator(q);
    case Simple(n, d) =>
      assert Render(x)[|IntToString(n)|] == '/';
    case Mixed(q, r, d) =>
      assert Render(x)[|IntToString(q)| + 1 + |IntToString(r)|] == '/';
  }

  /** `__str__`: the bare numerator when the denominator is 1, otherwise
      "num/den". Its text reads back as that shape, so it loses nothing: it
      reads back as the fraction's fields. */
  function ToString(f: Fraction): (s: string)
    ensures ('/' in s) <==> f.den != 1
    ensures ParseDisplay(s) == Some(StrForm(f))
    ensures ReadBack(s) == Some(Frac(f.num, f.den))
  {
    RenderRoundTrip(StrForm(f));
    SlashIffNotWhole(StrForm(f));
    Render(StrForm(f))
  }

  /** Shape of `as_mixed_number`: the plain form when proper, the floor
      quotient when whole, else floor quotient, |remainder| and denominator.
      With a positive denominator Python's `//` and `%` are Dafny's `/`
      and `%`, and the shown parts add up to the fraction's value. */
  function MixedForm(f: Fraction): (x: Display)
    ensures Denotation(x) == Frac(f.num, f.den)
  {
    if Abs(f.num) < f.den then StrForm(f)
    else if f.num % f.den == 0 then DivisibleIffDenOne(f); Whole(f.num / f.den)
    else Mixed(f.num / f.den, Abs(f.num % f.den), f.den)
  }

  /** `as_mixed_number`: its text loses nothing, it reads back (q·den + r
      over den) as the fraction's fields. */
  function AsMixedNumber(f: Fraction): (s: string)
    ensures ReadBack(s) == Some(Frac(f.num, f.den))
  {
    RenderRoundTrip(MixedForm(f));
    Render(MixedForm(f))
  }

  /** A proper fraction is shown as by `__str__`. */
  lemma MixedNumberProper(f: Fraction)
    requires IsProper(f)
    ensures AsMixedNumber(f) == ToString(f)
  {
  }

  /** A whole fraction that is not proper is shown as its integer value. */
  lemma MixedNumberWhole(f: Fraction)
    requires !IsProper(f) && IsInteger(f)
    ensures f.den == 1 && MixedForm(f) == Whole(f.num)
  {
  }

  /** Otherwise the floor quotient q and remainder 0 < r < den are shown,
      with q·den + r == num (so `abs` on the remainder never changes it). */
  lemma MixedNumberParts(f: Fraction)
    requires !IsProper(f) && !IsInteger(f)
    ensures MixedForm(f) == Mixed(f.num / f.den, f.num % f.den, f.den)
    ensures 0 < f.num % f.den < f.den
    ensures (f.num / f.den) * f.den + f.num % f.den == f.num
  {
  }
}
