/**
 format_float with a precision (include/spdlog/fmt/bundled/format-inl.h): Grisu
 on a scaled approximation of the value, and Dragon4 from the exact value when
 Grisu cannot decide. Either way the value is rounded half to even.
 */
module FloatFormat {
  import opened Powers
  import opened Digits
  import opened Rounding
  import opened Grisu
  import opened DoubleDigits
  import opened Dragon
  import opened Scaling
  import opened SignedPowers

  // ---- Printing ------------------------------------------------------------

  /** r is v / 10^unit, rounded half to even. */
  ghost predicate Rounded(v: Fp, unit: int, r: int)
  {
    HalfEven(Above10(v.f, v.e, unit), Below10(v.e, unit), r)
  }

  /** The digits, scaled by 10^exp, are r * 10^unit. */
  ghost predicate Denotes(digits: string, exp: int, unit: int, r: int)
  {
    AllDigits(digits)
    && if exp >= unit then r == Decimal(digits) * Pow(10, exp - unit) else r == 0 && Decimal(digits) == 0
  }

  /** The digits and the exponent are v, correctly rounded at the place 10^unit. */
  ghost predicate Prints(v: Fp, digits: string, exp: int, unit: int)
  {
    exists r :: Rounded(v, unit, r) && Denotes(digits, exp, unit, r)
  }

  datatype Formatted = Printed(digits: string, exp: int) | TooBig

  /** More digits no double has: see FinerPlace. */
  const MAX_DOUBLE_DIGITS := 767

  function Min(x: int, y: int): int
  {
    if x <= y then x else y
  }

  /** One past the decimal exponent of the first digit, as Grisu sees it. */
  function Magnitude(sc: Scaling): int
    requires sc.f >= Pow(2, sc.s)
  {
    CountDigits(ShiftRight(sc.f, sc.s)) - sc.cached
  }

  /** The place asked for: so many digits after the point, or so many in all, but at least one. */
  function Place(precision: nat, fixed: bool, magnitude: int): int
  {
    if fixed then 0 - precision else if precision > 0 then magnitude - precision else magnitude - 1
  }

  lemma CountIsSmall(f: U64, s: nat)
    requires 32 <= s <= 60 && f >= Pow(2, s)
    ensures var count := CountDigits(ShiftRight(f, s));
      1 <= count <= 10 && 0x1_0000_0000 <= Pow(10, count - 1) * Pow(2, s) <= f < Pow(10, count) * Pow(2, s)
  {
    var count := CountDigits(ShiftRight(f, s));
    DivisorFits(f, s, count - 1, count);
    OneFits(s);
    TenToTen();
    hide Pow, ShiftRight, CountDigits;
    if count > 10 {
      PowMono(10, 10, count - 1);
      MulMono(Pow(2, s), 0x1_0000_0000, Pow(10, count - 1));
    }
  }

  lemma TenToTen()
    ensures Pow(10, 10) == 10_000_000_000
  {
    assert Pow(10, 5) == 100_000;
    PowAdd(10, 5, 5);
  }

  lemma ExponentFits(f: nat, e: int, k: int)
    requires f > 0 && e >= 0 && Above10(f, e, k) < 10 * Below10(e, k)
    ensures k >= 0
  {
    if k < 0 {
      PowPos(2, e);
      PowNext(10, -k - 1);
      PowPos(10, -k - 1);
      hide Pow;
      MulPos(f, Pow(2, e));
    }
  }

  /** A one and zeros: rounding up has turned nines into them. */
  ghost predicate CarriedThrough(digits: string)
  {
    |digits| > 0 && Decimal(digits) == Pow(10, |digits| - 1)
  }

  /** Dragon4 from the exact value, after Grisu has given up. */
  method PrintExactly(v: Fp, isPredecessorCloser: bool, precision: nat, exp: int)
    returns (digits: string, exp10: int)
    requires 0 < v.f < 0x4000_0000_0000_0000 && -0x1000 < exp < 0x1000
    requires Above10(v.f, v.e, exp) < 10 * Below10(v.e, exp)
    ensures Prints(v, digits, exp10, exp + 1 - Min(precision, MAX_DOUBLE_DIGITS))
    ensures precision == 0 ==> |digits| == 1 && exp10 == exp + 1
    ensures precision > 0 ==>
      var n := Min(precision, MAX_DOUBLE_DIGITS);
      |digits| == n && (exp10 == exp + 1 - n || (exp10 == exp + 2 - n && CarriedThrough(digits)))
  {
    hide Pow, HalfEven, Above10, Below10, Decimal;
    if v.e >= 0 {
      ExponentFits(v.f, v.e, exp);
    }
    var n := if precision > MAX_DOUBLE_DIGITS then MAX_DOUBLE_DIGITS else precision;
    digits, exp10 := FormatDragon(v.f, v.e, isPredecessorCloser, n, exp);
    ghost var unit := exp + 1 - n;
    PowZero(10);
    PowOne(10);
    ghost var r := if exp10 == unit then Decimal(digits) else 10 * Decimal(digits);
    DragonRatio(v.f, v.e, exp, n - 1, r);
    NumerForms(n - 1);
    NumerForms(1 - n);
    assert Rounded(v, unit, r) && Denotes(digits, exp10, unit, r);
  }

  /** The place rounded to: by Grisu the one asked for, by Dragon4 one that depends on its number of digits. */
  function UnitOf(precision: nat, fixed: bool, magnitude: int, fast: bool): int
  {
    if fast then Place(precision, fixed, magnitude)
    else magnitude - Min(if fixed then precision + magnitude else precision, MAX_DOUBLE_DIGITS)
  }

  /**
   The digits as they are generated: as many as asked for, and at least one, so
   that the last one stands at the place rounded to. Rounding up through nines
   gives one digit more to Grisu in the fixed format, and a larger exponent
   otherwise. If Grisu sees that only zeros precede the place it gives none.
   */
  ghost predicate Generated(digits: string, exp: int, precision: nat, fixed: bool, magnitude: int, fast: bool)
  {
    var unit := UnitOf(precision, fixed, magnitude, fast);
    var asked := if fixed then precision + magnitude else precision;
    var n := if !fast then Min(asked, MAX_DOUBLE_DIGITS) else if asked > 0 then asked else 1;
    if fast && asked < 0 then digits == [] && exp == magnitude
    else if n <= 0 then |digits| == 1 && exp == unit
    else
      || (|digits| == n && exp == unit)
      || (CarriedThrough(digits)
          && if fast && fixed then |digits| == n + 1 && exp == unit else |digits| == n && exp == unit + 1)
  }

  /** Grisu as format_float uses it: on an error it leaves the exponent and the digit count for Dragon4. */
  method TryGrisu(precision: nat, fixed: bool, sc: Scaling)
    returns (outcome: Outcome, digits: string, exp: int, left: int, ghost unit: int, ghost r: int)
    requires precision <= INT_MAX && 32 <= sc.s <= 60 && sc.f >= Pow(2, sc.s)
    ensures var k := Magnitude(sc);
      outcome == NumberIsTooBig <==> fixed && k > 0 && precision > INT_MAX - k
    ensures outcome.Returned? ==> outcome.result == Done || outcome.result == Error
    ensures outcome == Returned(Done) ==>
      Denotes(digits, exp, unit, r) && NearestDecimal(sc.f, 1, sc.s, r, unit + sc.cached)
      && unit == Place(precision, fixed, Magnitude(sc))
      && Generated(digits, exp, precision, fixed, Magnitude(sc), true)
    ensures outcome == Returned(Error) ==>
      exp == Magnitude(sc) - 1
      && left == (if fixed then precision + Magnitude(sc) else precision) >= 0
    ensures outcome == Returned(Error) && !fixed && precision <= 1 ==>
      !Decidable(sc.f, sc.s, Magnitude(sc) - 1 + sc.cached)
  {
    hide Pow, Decimal, NearestDecimal, ShiftRight, CountDigits;
    unit, r := 0, 0;
    var handler := new GenDigitsHandler(precision, -sc.cached, fixed);
    outcome, exp := GrisuGenDigits(sc.f, sc.s, 1, handler);
    digits, left := handler.buf, handler.precision;
    if outcome == Returned(Done) {
      unit := exp - sc.cached - if digits == [] then left else 0;
      r := if digits == [] then 0 else handler.Read(-sc.cached);
      DecimalEmpty();
      PowZero(10);
      PowOne(10);
      exp := exp + handler.exp10;
    } else if outcome == Returned(Error) {
      exp := exp + |digits| - sc.cached - 1;
    }
  }

  /** The value is below 10^magnitude, and at least 10^(magnitude - 1), up to one part in 2^32. */
  ghost predicate OfMagnitude(v: Fp, magnitude: int)
  {
    var k := magnitude - 1;
    0xFFFF_FFFF * Below10(v.e, k) < 0x1_0000_0000 * Above10(v.f, v.e, k) && Above10(v.f, v.e, k) < 10 * Below10(v.e, k)
  }

  lemma ScaledMagnitude(v: Fp, sc: Scaling)
    requires 32 <= sc.s <= 60 && sc.f >= Pow(2, sc.s) && Scaled(v.f, v.e, sc.f, sc.s, sc.cached)
    ensures OfMagnitude(v, Magnitude(sc))
  {
    hide Pow, Scaled, ShiftRight, CountDigits, Above10, Below10;
    CountIsSmall(sc.f, sc.s);
    RestartFits(v.f, v.e, sc.f, sc.s, sc.cached, CountDigits(ShiftRight(sc.f, sc.s)));
  }

  /**
   When the first digit comes out right with precision 0 in a format that is not
   fixed: what follows it is clear of half a unit by more than the error, or the
   value is at least 9.5 times the first digit's unit and so rounds to 10 of them.
   */
  predicate FirstDigitIsSafe(v: Fp, sc: Scaling)
    requires sc.f >= Pow(2, sc.s)
  {
    var count := CountDigits(ShiftRight(sc.f, sc.s));
    PowPos(10, count - 1);
    PowPos(2, sc.s);
    MulPos(Pow(10, count - 1), Pow(2, sc.s));
    || ClearOfHalf(sc.f, Pow(10, count - 1) * Pow(2, sc.s))
    || 19 * Below10(v.e, count - sc.cached) <= 20 * Above10(v.f, v.e, count - sc.cached)
  }

  /** A result that is right one place before the first digit is right at the first digit from 9.5 of its units on. */
  lemma RightAtFirstDigit(v: Fp, digits: string, exp: int, k: int)
    requires OfMagnitude(v, k) && Prints(v, digits, exp, k)
    ensures Prints(v, digits, exp, k - 1) <==> 19 * Below10(v.e, k) <= 20 * Above10(v.f, v.e, k)
  {
    hide Rounded, Denotes, OfMagnitude, Above10, Below10, Numer;
    var r :| Rounded(v, k, r) && Denotes(digits, exp, k, r);
    FinerDenotes(digits, exp, k, k - 1, r);
    NumerTen();
    RoundedAtFirstDigit(v, k, r);
    if Prints(v, digits, exp, k - 1) {
      var q :| Rounded(v, k - 1, q) && Denotes(digits, exp, k - 1, q);
      OneMeaning(digits, exp, k - 1, q, r * 10);
    }
  }

  lemma NumerTen()
    ensures Numer(10, 1) == 10 && Numer(10, -1) == 1
  {
    PowOne(10);
  }

  lemma RoundedAtFirstDigit(v: Fp, k: int, r: int)
    requires OfMagnitude(v, k) && Rounded(v, k, r)
    ensures Rounded(v, k - 1, r * 10) <==> 19 * Below10(v.e, k) <= 20 * Above10(v.f, v.e, k)
  {
    hide Above10, Below10, HalfEven;
    var n, d, n', d' := Above10(v.f, v.e, k), Below10(v.e, k), Above10(v.f, v.e, k - 1), Below10(v.e, k - 1);
    TenTimes(v.f, v.e, k);
    HalfEvenRatio(n', d', 10 * n, d, 10 * r);
    Below(n, d, n', d');
    ZeroOrOne(n, d, r);
  }

  lemma OneMeaning(digits: string, exp: int, unit: int, q: int, r: int)
    requires Denotes(digits, exp, unit, q) && Denotes(digits, exp, unit, r)
    ensures q == r
  {}

  /** Moving to the next place multiplies the value by ten. */
  lemma TenTimes(f: nat, e: int, k: int)
    ensures Above10(f, e, k - 1) * Below10(e, k) == 10 * Above10(f, e, k) * Below10(e, k - 1)
    ensures Below10(e, k) > 0 && Below10(e, k - 1) > 0
  {
    Parts10(f, e, k);
    Parts10(f, e, k - 1);
    Balance(10, 1 - k, k, -1);
    NumerTen();
    hide Pow, Numer, Above10, Below10;
    TenParts(f, Numer(2, e), Numer(2, -e), Numer(10, 1 - k), Numer(10, k), Numer(10, -k), Numer(10, k - 1));
  }

  lemma TenParts(f: nat, a: nat, b: nat, x: nat, y: nat, x': nat, y': nat)
    requires x * y == y' * x' * 10
    ensures f * a * x * (b * y) == 10 * (f * a * x') * (b * y')
  {
    Four(f * a, x, b, y);
    Four(f * a, x', b, y');
    assert f * a * b * (y' * x' * 10) == 10 * (f * a * b * (x' * y'));
  }

  lemma Below(n: nat, d: nat, n': nat, d': nat)
    requires n' * d == 10 * n * d' && d > 0 && d' > 0
    requires 0xFFFF_FFFF * d' < 0x1_0000_0000 * n' && n' < 10 * d'
    ensures n < d && 2 * d < 21 * n
  {
    MulStrict(d, n', 10 * d');
    MulStrict(d, 0xFFFF_FFFF * d', 0x1_0000_0000 * n');
    Assoc(10, n, d');
    Assoc(10, d', d);
    Assoc(0xFFFF_FFFF, d', d);
    Assoc(0x1_0000_0000, n', d);
    assert n * d' < d' * d && 0xFFFF_FFFF * (d' * d) < 0xA_0000_0000 * (n * d');
    if d <= n {
      MulMono(d', d, n);
    }
    if 21 * n <= 2 * d {
      MulMono(d', 21 * n, 2 * d);
      Assoc(21, n, d');
      Assoc(2, d, d');
    }
  }

  lemma ZeroOrOne(n: nat, d: nat, r: int)
    requires n < d && 2 * d < 21 * n && HalfEven(n, d, r)
    ensures r == 0 || r == 1
    ensures HalfEven(10 * n, d, 10 * r) <==> 19 * d <= 20 * n
  {
    if r > 1 {
      MulMono(d, 2, r);
    } else if r < 0 {
      MulMono(d, r, -1);
    }
  }

  /** With precision 0 and no fixed format, the first digit comes out right exactly if it is safe. */
  lemma FirstDigit(v: Fp, sc: Scaling, digits: string, exp: int, fast: bool)
    requires 32 <= sc.s <= 60 && sc.f >= Pow(2, sc.s)
    requires OfMagnitude(v, Magnitude(sc)) && (fast <==> Decidable(sc.f, sc.s, Magnitude(sc) - 1 + sc.cached))
    requires Prints(v, digits, exp, if fast then Magnitude(sc) - 1 else Magnitude(sc))
    ensures Prints(v, digits, exp, Magnitude(sc) - 1) <==> FirstDigitIsSafe(v, sc)
  {
    hide Pow, CountDigits, ShiftRight, OfMagnitude, Prints, Above10, Below10, ClearOfHalf;
    CountIsSmall(sc.f, sc.s);
    var count := CountDigits(ShiftRight(sc.f, sc.s));
    DecidableIff(sc.f, sc.s, count - 1, Pow(10, count - 1) * Pow(2, sc.s));
    if !fast {
      RightAtFirstDigit(v, digits, exp, Magnitude(sc));
    }
  }

  /** Everything after scaling: Grisu, or Dragon4 if Grisu cannot decide. `fast` tells which. */
  method PrintScaled(v: Fp, isPredecessorCloser: bool, precision: nat, fixed: bool, sc: Scaling)
    returns (outcome: Formatted, ghost fast: bool)
    requires 0 < v.f < 0x4000_0000_0000_0000 && precision <= INT_MAX && -348 <= sc.cached <= 340
    requires 32 <= sc.s <= 60 && sc.f >= Pow(2, sc.s) && Scaled(v.f, v.e, sc.f, sc.s, sc.cached)
    ensures outcome == TooBig <==> fixed && Magnitude(sc) > 0 && precision > INT_MAX - Magnitude(sc)
    ensures outcome.Printed? ==>
      Prints(v, outcome.digits, outcome.exp, UnitOf(precision, fixed, Magnitude(sc), fast))
    ensures outcome.Printed? ==>
      Generated(outcome.digits, outcome.exp, precision, fixed, Magnitude(sc), fast)
    ensures outcome.Printed? && fast ==>
      Decidable(sc.f, sc.s, Place(precision, fixed, Magnitude(sc)) + sc.cached)
    ensures !fixed && precision <= 1 ==> (fast <==> Decidable(sc.f, sc.s, Magnitude(sc) - 1 + sc.cached))
    ensures !fixed && precision == 0 ==>
      (Prints(v, outcome.digits, outcome.exp, Magnitude(sc) - 1) <==> FirstDigitIsSafe(v, sc))
    ensures !fixed && precision == 0 && !fast ==> |outcome.digits| == 1 && outcome.exp == Magnitude(sc)
  {
    hide Pow, HalfEven, Above10, Below10, NearestDecimal, ShiftRight, CountDigits, Scaled, Denotes, FirstDigitIsSafe;
    var f, s, cached := sc.f, sc.s, sc.cached;
    fast := false;
    CountIsSmall(f, s);
    RestartFits(v.f, v.e, f, s, cached, CountDigits(ShiftRight(f, s)));
    var grisu, digits, exp, left;
    ghost var unit, r;
    grisu, digits, exp, left, unit, r := TryGrisu(precision, fixed, sc);
    if grisu == NumberIsTooBig {
      return TooBig, fast;
    }
    if grisu == Returned(Done) {
      fast := true;
      NearestIsHalfEven(v.f, v.e, f, s, cached, r, unit + cached);
      assert Rounded(v, unit, r) && Denotes(digits, exp, unit, r);
    } else {
      digits, exp := PrintExactly(v, isPredecessorCloser, left, exp);
    }
    outcome := Printed(digits, exp);
    if !fixed && precision == 0 {
      FirstDigit(v, sc, digits, exp, fast);
    }
  }

  /** The same digits without zeros at the end, each of them moved into the exponent. */
  ghost predicate Stripped(raw: string, rawExp: int, digits: string, exp: int)
  {
    && digits <= raw && exp - rawExp == |raw| - |digits|
    && (forall i :: |digits| <= i < |raw| ==> raw[i] == '0')
    && (digits == [] || digits[|digits| - 1] != '0')
  }

  /** Without a fixed format or a requested point, trailing zeros go into the exponent. */
  method StripZeros(digits: string, exp: int, ghost v: Fp, ghost unit: int) returns (digits': string, exp': int)
    requires Prints(v, digits, exp, unit)
    ensures Prints(v, digits', exp', unit) && Stripped(digits, exp, digits', exp')
  {
    hide Denotes, Rounded;
    ghost var r :| Rounded(v, unit, r) && Denotes(digits, exp, unit, r);
    var n := |digits|;
    exp' := exp;
    assert digits[..n] == digits;
    while n > 0 && digits[n - 1] == '0'
      invariant 0 <= n <= |digits| && exp' - exp == |digits| - n
      invariant Denotes(digits[..n], exp', unit, r)
      invariant forall i :: n <= i < |digits| ==> digits[i] == '0'
    {
      DropZero(digits[..n], exp', unit, r);
      assert digits[..n][..n - 1] == digits[..n - 1];
      n, exp' := n - 1, exp' + 1;
    }
    digits' := digits[..n];
  }

  lemma DropZero(digits: string, exp: int, unit: int, r: int)
    requires Denotes(digits, exp, unit, r) && |digits| > 0 && digits[|digits| - 1] == '0'
    ensures Denotes(digits[..|digits| - 1], exp + 1, unit, r)
  {
    var d := Decimal(digits[..|digits| - 1]);
    assert Decimal(digits) == 10 * d;
    PowZero(10);
    hide Decimal;
    if exp >= unit {
      PowNext(10, exp - unit);
      Assoc(10, d, Pow(10, exp - unit));
      Swap(10, d, Pow(10, exp - unit));
      Assoc(d, 10, Pow(10, exp - unit));
      assert d * (10 * Pow(10, exp - unit)) == 10 * d * Pow(10, exp - unit);
    }
  }

  lemma SameRounding(v: Fp, narrow: Fp, digits: string, exp: int, unit: int)
    requires SameNumber(v, narrow) && Prints(narrow, digits, exp, unit)
    ensures Prints(v, digits, exp, unit)
  {
    hide HalfEven, Above10, Below10, SameNumber, Denotes;
    var r :| Rounded(narrow, unit, r) && Denotes(digits, exp, unit, r);
    NarrowRatio(v, narrow, unit);
    HalfEvenRatio(Above10(v.f, v.e, unit), Below10(v.e, unit),
                  Above10(narrow.f, narrow.e, unit), Below10(narrow.e, unit), r);
    assert Rounded(v, unit, r);
  }

  /** What is printed at the 767th digit is exact, and so is right at every later place too. */
  lemma FinerPlace(v: Fp, digits: string, exp: int, magnitude: int, unit: int)
    requires v.f > 0 && IsDouble(v) && OfMagnitude(v, magnitude) && unit <= magnitude - MAX_DOUBLE_DIGITS
    requires Prints(v, digits, exp, magnitude - MAX_DOUBLE_DIGITS)
    ensures Prints(v, digits, exp, unit)
  {
    var u := magnitude - MAX_DOUBLE_DIGITS;
    var q := LastDigit(v.f, v.e, magnitude);
    var r :| Rounded(v, u, r) && Denotes(digits, exp, u, r);
    Parts10(v.f, v.e, u);
    hide Above10, Below10, Numer, Denotes;
    var n, d := Above10(v.f, v.e, u), Below10(v.e, u);
    assert HalfEven(n, d, q);
    HalfEvenUnique(n, d, q, r);
    var p := Numer(10, u - unit);
    assert n * p == q * p * (d * 1) by {
      Swap(q, d, p);
    }
    NumerPos(10, u - unit);
    NumerOne(10, unit - u);
    assert HalfEven(n * p, d * Numer(10, unit - u), q * p);
    DragonRatio(v.f, v.e, u, u - unit, q * p);
    FinerDenotes(digits, exp, u, unit, q);
    assert Rounded(v, unit, q * p);
  }

  lemma FinerDenotes(digits: string, exp: int, u: int, unit: int, r: int)
    requires Denotes(digits, exp, u, r) && unit <= u
    ensures Denotes(digits, exp, unit, r * Numer(10, u - unit))
  {
    hide Pow, Decimal, AllDigits;
    var k: nat := u - unit;
    if exp >= u {
      PowAdd(10, exp - u, k);
      Assoc(Decimal(digits), Pow(10, exp - u), Pow(10, k));
    }
  }

  lemma NarrowIsSmall(v: Fp, narrow: Fp)
    requires SameNumber(v, narrow) && v.f > 0 && IsDouble(v)
    ensures 0 < narrow.f < 0x20_0000_0000_0000
  {
    var w: nat :| v.f == narrow.f * Pow(2, w) && v.e == narrow.e - w;
    PowPos(2, w);
    hide Pow;
    MulZero(narrow.f, Pow(2, w));
    MulMono(narrow.f, 1, Pow(2, w));
  }

  /** What is to come out for a positive value. */
  ghost predicate IsFormat(v: Fp, precision: nat, fixed: bool, showpoint: bool, outcome: Formatted, sc: Scaling)
    requires sc.f >= Pow(2, sc.s)
  {
    var k := Magnitude(sc);
    if fixed && k > 0 && precision > INT_MAX - k then outcome == TooBig
    else
      && outcome.Printed?
      && (Prints(v, outcome.digits, outcome.exp, Place(precision, fixed, k))
          <==> fixed || precision > 0 || FirstDigitIsSafe(v, sc))
      && (!fixed && precision == 0 && !FirstDigitIsSafe(v, sc) ==> Prints(v, outcome.digits, outcome.exp, k))
      && LaidOut(v, precision, fixed, showpoint, outcome.digits, outcome.exp, k)
  }

  /** The digits are those one of the paths generates, with the zeros at their end or, if asked for, without. */
  ghost predicate LaidOut(v: Fp, precision: nat, fixed: bool, showpoint: bool, digits: string, exp: int, magnitude: int)
  {
    exists raw, rawExp, fast ::
      && Generated(raw, rawExp, precision, fixed, magnitude, fast)
      && Prints(v, raw, rawExp, UnitOf(precision, fixed, magnitude, fast))
      && if fixed || showpoint then digits == raw && exp == rawExp else Stripped(raw, rawExp, digits, exp)
  }

  lemma Layout(v: Fp, precision: nat, fixed: bool, showpoint: bool, raw: string, rawExp: int,
               digits: string, exp: int, magnitude: int, fast: bool)
    requires Generated(raw, rawExp, precision, fixed, magnitude, fast)
    requires Prints(v, raw, rawExp, UnitOf(precision, fixed, magnitude, fast))
    requires if fixed || showpoint then digits == raw && exp == rawExp else Stripped(raw, rawExp, digits, exp)
    ensures LaidOut(v, precision, fixed, showpoint, digits, exp, magnitude)
  {}

  lemma FormatTooBig(v: Fp, precision: nat, fixed: bool, showpoint: bool, sc: Scaling)
    requires sc.f >= Pow(2, sc.s) && fixed && Magnitude(sc) > 0 && precision > INT_MAX - Magnitude(sc)
    ensures IsFormat(v, precision, fixed, showpoint, TooBig, sc)
  {}

  lemma FormatByPath(v: Fp, precision: nat, fixed: bool, showpoint: bool, digits: string, exp: int,
                     sc: Scaling, fast: bool)
    requires v.f > 0 && IsDouble(v) && 32 <= sc.s <= 60 && sc.f >= Pow(2, sc.s) && OfMagnitude(v, Magnitude(sc))
    requires !(fixed && Magnitude(sc) > 0 && precision > INT_MAX - Magnitude(sc))
    requires !fixed && precision <= 1 ==> (fast <==> Decidable(sc.f, sc.s, Magnitude(sc) - 1 + sc.cached))
    requires Prints(v, digits, exp, UnitOf(precision, fixed, Magnitude(sc), fast))
    requires LaidOut(v, precision, fixed, showpoint, digits, exp, Magnitude(sc))
    ensures IsFormat(v, precision, fixed, showpoint, Printed(digits, exp), sc)
  {
    hide Pow, CountDigits, ShiftRight, OfMagnitude, Prints, Decidable, FirstDigitIsSafe, LaidOut;
    var k := Magnitude(sc);
    hide Magnitude;
    if !fixed && precision == 0 {
      FirstDigit(v, sc, digits, exp, fast);
    } else if UnitOf(precision, fixed, k, fast) != Place(precision, fixed, k) {
      FinerPlace(v, digits, exp, k, Place(precision, fixed, k));
    }
  }

  /** format_float for a positive value. */
  method FormatPositive(value: Fp, narrow: Fp, isPredecessorCloser: bool, precision: nat,
                        fixed: bool, showpoint: bool, cachedPower: int -> CachedPower)
    returns (outcome: Formatted)
    requires value.f > 0 && IsDouble(value) && SameNumber(value, narrow) && precision <= INT_MAX
    requires IsPowerTable(cachedPower)
    ensures var sc := ScaleByPower(value, cachedPower);
      OfMagnitude(value, Magnitude(sc)) && IsFormat(value, precision, fixed, showpoint, outcome, sc)
  {
    hide *;
    var sc := ScaleValue(value, cachedPower);
    ScaledMagnitude(value, sc);
    NarrowIsScaled(value, narrow, sc.f, sc.s, sc.cached);
    NarrowIsSmall(value, narrow);
    ghost var fast;
    outcome, fast := PrintScaled(narrow, isPredecessorCloser, precision, fixed, sc);
    if outcome == TooBig {
      FormatTooBig(value, precision, fixed, showpoint, sc);
      return;
    }
    ghost var unit := UnitOf(precision, fixed, Magnitude(sc), fast);
    SameRounding(value, narrow, outcome.digits, outcome.exp, unit);
    ghost var raw, rawExp := outcome.digits, outcome.exp;
    if !fixed && !showpoint {
      var digits, exp := StripZeros(outcome.digits, outcome.exp, value, unit);
      outcome := Printed(digits, exp);
    }
    Layout(value, precision, fixed, showpoint, raw, rawExp, outcome.digits, outcome.exp, Magnitude(sc), fast);
    FormatByPath(value, precision, fixed, showpoint, outcome.digits, outcome.exp, sc, fast);
  }

  /**
   format_float for a double and a precision. Whatever path is taken, the digits
   denote the value rounded half to even at the place the format asks for; with
   precision 0 in a format that is not fixed, exactly if its first digit is safe.
   `narrow` is the same value as a float, which Dragon4 gets instead for binary32.
   */
  method FormatFloat(value: Fp, narrow: Fp, isPredecessorCloser: bool, precision: nat,
                     fixed: bool, showpoint: bool, cachedPower: int -> CachedPower)
    returns (outcome: Formatted)
    requires IsDouble(value) && SameNumber(value, narrow) && precision <= INT_MAX && IsPowerTable(cachedPower)
    ensures value.f > 0 ==>
      var sc := ScaleByPower(value, cachedPower);
      OfMagnitude(value, Magnitude(sc)) && IsFormat(value, precision, fixed, showpoint, outcome, sc)
    ensures value.f == 0 ==> outcome.Printed? && Decimal(outcome.digits) == 0 && AllDigits(outcome.digits)
    ensures value.f == 0 ==>
      if fixed && precision > 0 then |outcome.digits| == precision && outcome.exp == -(precision as int)
      else outcome == Printed("0", 0)
  {
    hide SameNumber, IsPowerTable, OfMagnitude, IsFormat, Decimal, ScaleByPower;
    if value.f > 0 {
      outcome := FormatPositive(value, narrow, isPredecessorCloser, precision, fixed, showpoint, cachedPower);
    } else if precision <= 0 || !fixed {
      DecimalZeros("0");
      outcome := Printed("0", 0);
    } else {
      var zeros := seq(precision, _ => '0');
      DecimalZeros(zeros);
      outcome := Printed(zeros, 0 - precision);
    }
  }

  /**
   With precision 0 in a format that is not fixed, Grisu still prints one digit
   but Dragon4 prints none: 2.5, which is too close to call for Grisu, comes out
   as 0 tens, and as no digit at all once zeros are stripped.
   */
  method HalfWayAtPrecisionZero() returns (outcome: Formatted, stripped: Formatted)
    ensures outcome == Printed("0", 1) && stripped == Printed("", 2)
  {
    var sc := Scaling(25000 * 0x1_0000_0000_0000, 48, 4);
    TwoAndAHalfScaled(sc.f);
    TooCloseToCall(sc.f);
    hide Denotes, Scaled, NearestDecimal, Decidable, Rounded, FirstDigitIsSafe;
    ghost var fast;
    outcome, fast := PrintScaled(Fp(5, -1), false, 0, false, sc);
    ghost var r :| Rounded(Fp(5, -1), 1, r) && Denotes(outcome.digits, outcome.exp, 1, r);
    TwoAndAHalfRounds(r);
    OneZero(outcome.digits, r);
    var digits, exp := StripZeros(outcome.digits, outcome.exp, Fp(5, -1), 1);
    stripped := Printed(digits, exp);
  }

  lemma OneZero(digits: string, r: int)
    requires |digits| == 1 && r == 0 && Denotes(digits, 1, 1, r)
    ensures digits == "0"
  {
    DecimalOne(digits[0]);
    assert digits == [digits[0]];
    PowZero(10);
  }

  lemma TwoAndAHalfScaled(f: U64)
    requires f == 25000 * 0x1_0000_0000_0000
    ensures Pow(2, 48) == 0x1_0000_0000_0000 && Magnitude(Scaling(f, 48, 4)) == 1
    ensures Scaled(5, -1, f, 48, 4)
  {
    TwoTo16();
    TwoTo32();
    assert Pow(10, 4) == 10000;
    assert CountDigits(25000) == 5;
    hide Pow, CountDigits;
    PowAdd(2, 32, 16);
    PowNext(2, 47);
    assert ShiftRight(f, 48) == 25000;
    assert Above10(5, 47, -4) == f && Below10(47, -4) == 1;
  }

  lemma TooCloseToCall(f: U64)
    requires f == 25000 * 0x1_0000_0000_0000
    ensures !Decidable(f, 48, 4)
  {
    assert Pow(10, 4) == 10000;
    hide Pow, Decidable;
    TwoTo16();
    TwoTo32();
    PowAdd(2, 32, 16);
    NoneIsNearest(f, 48, 4, 10000 * 0x1_0000_0000_0000, 2, 5000 * 0x1_0000_0000_0000);
  }

  lemma TwoAndAHalfRounds(r: int)
    requires Rounded(Fp(5, -1), 1, r)
    ensures r == 0
  {
    PowOne(2);
    PowOne(10);
    hide Pow;
    assert Above10(5, -1, 1) == 5 && Below10(-1, 1) == 20;
  }
}
