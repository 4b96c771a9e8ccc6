/**
 The Grisu counted-digit generator: get_round_direction, gen_digits_handler and
 grisu_gen_digits (include/spdlog/fmt/bundled/format-inl.h).

 The scaled value is f * 2^-s; f may be off by `error` units.
 */
module Grisu {
  import opened Powers
  import opened Digits
  import opened Rounding

  datatype Direction = Unknown | Up | Down

  datatype Result = More | Done | Error

  /** grisu_gen_digits either returns a result or throws "number is too big". */
  datatype Outcome = Returned(result: Result) | NumberIsTooBig

  const INT_MAX := 0x7FFF_FFFF

  function GetRoundDirection(divisor: U64, remainder: U64, error: U64): (d: Direction)
    requires remainder < divisor && error < divisor && error < divisor - error
    ensures d == Down <==> 2 * (remainder + error) <= divisor
    ensures d == Up <==> 2 * (remainder + error) > divisor && 2 * (remainder - error) >= divisor
  {
    if remainder <= divisor - remainder && error * 2 <= divisor - remainder * 2 then Down
    else if remainder >= error && remainder - error >= divisor - (remainder - error) then Up
    else Unknown
  }

  // ---- What `done` means ---------------------------------------------------

  /**
   p * 10^exp (for any sign of exp) is within half a unit 10^exp of every real
   within `error` of f, all measured in units of 2^-s.
   */
  ghost predicate NearestDecimal(f: nat, error: nat, s: nat, p: int, exp: int)
  {
    var up := Pow(10, if exp < 0 then -exp else 0);
    var unit := Pow(10, if exp < 0 then 0 else exp) * Pow(2, s);
    forall x: real :: Within(x, f, error) ==> IsNearest(x, up, p, unit)
  }

  ghost predicate Within(x: real, f: nat, error: nat)
  {
    (f - error) as real <= x <= (f + error) as real
  }

  /** No multiple of unit is closer to x * up than p * unit. */
  ghost predicate IsNearest(x: real, up: nat, p: int, unit: nat)
  {
    -(unit as real) <= 2.0 * (x * up as real - (p * unit) as real) <= unit as real
  }

  /** Some decimal with unit 10^exp is nearest to every real within one unit of f. */
  ghost predicate Decidable(f: nat, s: nat, exp: int)
  {
    exists p :: NearestDecimal(f, 1, s, p, exp)
  }

  /** It is enough to look at the two ends of the interval. */
  lemma NearestByEnds(f: nat, error: nat, s: nat, p: int, exp: int, up: nat, unit: nat)
    requires up == Pow(10, if exp < 0 then -exp else 0)
    requires unit == Pow(10, if exp < 0 then 0 else exp) * Pow(2, s)
    requires 0 <= 2 * ((f - error) * up - p * unit) + unit
    requires 2 * ((f + error) * up - p * unit) <= unit
    ensures NearestDecimal(f, error, s, p, exp)
  {
    hide Pow;
    forall x: real | Within(x, f, error)
      ensures IsNearest(x, up, p, unit)
    {
      RealMono((f - error) as real, x, up as real);
      RealMono(x, (f + error) as real, up as real);
      RealProduct(f - error, up);
      RealProduct(f + error, up);
    }
  }

  /** And necessary. */
  lemma EndsByNearest(f: nat, error: nat, s: nat, p: int, exp: int, up: nat, unit: nat)
    requires NearestDecimal(f, error, s, p, exp)
    requires up == Pow(10, if exp < 0 then -exp else 0)
    requires unit == Pow(10, if exp < 0 then 0 else exp) * Pow(2, s)
    ensures 0 <= 2 * ((f - error) * up - p * unit) + unit
    ensures 2 * ((f + error) * up - p * unit) <= unit
  {
    hide Pow;
    assert Within((f - error) as real, f, error) && Within((f + error) as real, f, error);
    assert IsNearest((f - error) as real, up, p, unit) && IsNearest((f + error) as real, up, p, unit);
    RealProduct(f - error, up);
    RealProduct(f + error, up);
  }

  lemma RealMono(x: real, y: real, k: real)
    requires x <= y && k >= 0.0
    ensures x * k <= y * k
  {}

  lemma {:induction false} RealProduct(x: int, k: nat)
    ensures x as real * k as real == (x * k) as real
  {
    if k > 0 {
      RealProduct(x, k - 1);
      assert k as real == (k - 1) as real + 1.0;
      assert x * k == x * (k - 1) + x;
      assert x as real * k as real == x as real * (k - 1) as real + x as real;
    } else {
      assert x as real * 0.0 == 0.0;
    }
  }

  /** Rounding down or up at the current digit is rounding to a nearest decimal. */
  lemma DigitIsNearest(f: nat, s: nat, exp: int, up: nat, unit: nat, head: int, rest: nat, roundUp: bool)
    requires up == Pow(10, if exp < 0 then -exp else 0)
    requires unit == Pow(10, if exp < 0 then 0 else exp) * Pow(2, s)
    requires f * up == head * unit + rest && rest < unit && 2 * up <= unit
    requires if roundUp then 2 * (rest - up) >= unit else 2 * (rest + up) <= unit
    ensures NearestDecimal(f, 1, s, if roundUp then head + 1 else head, exp)
  {
    hide Pow, NearestDecimal;
    Distrib(f, 1, up);
    Distrib(head, 1, unit);
    NearestByEnds(f, 1, s, if roundUp then head + 1 else head, exp, up, unit);
  }

  /** When neither direction is safe, no decimal at this place is near enough to everything within the error. */
  lemma NoneIsNearest(f: nat, s: nat, exp: nat, unit: nat, head: int, rest: nat)
    requires unit == Pow(10, exp) * Pow(2, s) && f == head * unit + rest && rest < unit
    requires 2 * (rest + 1) > unit && 2 * (rest - 1) < unit
    ensures !Decidable(f, s, exp)
  {
    PowZero(10);
    hide Pow, NearestDecimal;
    forall p
      ensures !NearestDecimal(f, 1, s, p, exp)
    {
      if NearestDecimal(f, 1, s, p, exp) {
        EndsByNearest(f, 1, s, p, exp, 1, unit);
        Distrib(head, 1, unit);
        if p <= head {
          MulMono(unit, p, head);
        } else {
          MulMono(unit, head + 1, p);
        }
      }
    }
  }

  /** A caller can tell beforehand: what is left below the unit must be clear of its half by more than the error. */
  predicate ClearOfHalf(f: nat, unit: nat)
    requires unit > 0
  {
    2 * (f % unit + 1) <= unit || 2 * (f % unit - 1) >= unit
  }

  lemma DecidableIff(f: nat, s: nat, exp: nat, unit: nat)
    requires unit == Pow(10, exp) * Pow(2, s) && unit > 0
    ensures Decidable(f, s, exp) <==> ClearOfHalf(f, unit)
  {
    var head, rest := f / unit, f % unit;
    assert f == head * unit + rest;
    PowZero(10);
    hide Pow, NearestDecimal;
    if ClearOfHalf(f, unit) {
      DigitIsNearest(f, s, exp, 1, unit, head, rest, 2 * (rest + 1) > unit);
    } else {
      NoneIsNearest(f, s, exp, unit, head, rest);
    }
  }

  /** The last digit can be rounded: the error does not reach across half of the divisor, nor fill it. */
  predicate SafeToRound(remainder: nat, divisor: nat, error: nat, integral: bool)
  {
    (integral || 2 * error < divisor) && (2 * (remainder + error) <= divisor || 2 * (remainder - error) >= divisor)
  }

  /** Why digit generation gives up after the point: nothing left but the error, or a last digit not safe to round. */
  ghost predicate Hopeless(f: nat, s: nat, exp: int, last: bool)
    requires exp < 0
  {
    PowPos(2, s);
    var error, rest := Pow(10, -exp), f * Pow(10, -exp) % Pow(2, s);
    rest <= error || (last && !SafeToRound(rest, Pow(2, s), error, false))
  }

  // ---- The digit sink ------------------------------------------------------

  class GenDigitsHandler {
    var buf: seq<char>
    var precision: int
    var exp10: int
    var fixed: bool

    /** What the digits read as, in units of the last digit asked for. */
    ghost function Read(exp10Before: int): int
      reads this
    {
      if exp10 == exp10Before then Decimal(buf) else 10 * Decimal(buf)
    }

    /** n digits; or a carry through all of them, which adds a digit in fixed mode and moves the exponent otherwise. */
    ghost predicate Complete(n: nat, exp10Before: int)
      reads this
    {
      || (|buf| == n && exp10 == exp10Before)
      || (|buf| > 0 && Decimal(buf) == Pow(10, |buf| - 1)
          && if fixed then |buf| == n + 1 && exp10 == exp10Before else |buf| == n && exp10 == exp10Before + 1)
    }

    constructor (precision: int, exp10: int, fixed: bool)
      ensures buf == [] && this.precision == precision && this.exp10 == exp10 && this.fixed == fixed
    {
      buf, this.precision, this.exp10, this.fixed := [], precision, exp10, fixed;
    }

    /**
     Appends a digit; once enough are there, rounds using what is left. The
     carry of a rounding up may roll 9...9 over, which adds a digit in fixed
     mode and moves the exponent otherwise.
     */
    method OnDigit(digit: char, divisor: U64, remainder: U64, error: U64, integral: bool) returns (r: Result)
      requires remainder < divisor && IsDigit(digit) && AllDigits(buf)
      requires integral ==> error == 1 && divisor > 2
      modifies this
      ensures precision == old(precision) && fixed == old(fixed) && AllDigits(buf)
      ensures exp10 == old(exp10) || (exp10 == old(exp10) + 1 && !fixed && r == Done)
      ensures r != Done ==> buf == old(buf) + [digit]
      ensures r == More <==> old(|buf|) + 1 < precision && (integral || error < remainder)
      ensures r == Error <==>
        || (!integral && remainder <= error)
        || (old(|buf|) + 1 >= precision && !SafeToRound(remainder, divisor, error, integral))
      ensures r == Done ==> old(|buf|) + 1 >= precision && 2 * error < divisor
      ensures r == Done ==> Complete(old(|buf|) + 1, old(exp10)) && buf != []
      ensures r == Done ==>
        var head := Decimal(old(buf) + [digit]);
        || (2 * (remainder + error) <= divisor && Read(old(exp10)) == head)
        || (2 * (remainder - error) >= divisor && Read(old(exp10)) == head + 1)
    {
      hide Decimal;
      buf := buf + [digit];
      ghost var head := buf;
      if !integral && error >= remainder {
        return Error;
      }
      if |buf| < precision {
        return More;
      }
      if !integral {
        if error >= divisor || error >= divisor - error {
          return Error;
        }
      }
      var dir := GetRoundDirection(divisor, remainder, error);
      if dir != Up {
        return if dir == Down then Done else Error;
      }
      IncrementLast();
      r := Done;
    }

    /** ++buf[size - 1], with the carry. */
    method IncrementLast()
      requires |buf| > 0 && AllDigits(buf)
      modifies this
      ensures precision == old(precision) && fixed == old(fixed) && AllDigits(buf)
      ensures exp10 == old(exp10) || (exp10 == old(exp10) + 1 && !fixed)
      ensures Complete(old(|buf|), old(exp10)) && buf != []
      ensures Read(old(exp10)) == Decimal(old(buf)) + 1
    {
      hide Decimal;
      var n := |buf|;
      ghost var was := buf;
      DecimalBump(buf);
      buf := buf[n - 1 := (buf[n - 1] as int + 1) as char];
      var i := n - 1;
      while i > 0 && buf[i] > '9'
        invariant 0 <= i < n == |buf|
        invariant precision == old(precision) && fixed == old(fixed) && exp10 == old(exp10)
        invariant Decimal(buf) == Decimal(was) + 1
        invariant forall t :: 0 <= t < i ==> IsDigit(buf[t])
        invariant IsDigit(buf[i]) || buf[i] == ':'
        invariant forall t :: i < t < n ==> buf[t] == '0'
      {
        DecimalCarry(buf, i);
        buf := buf[i := '0'];
        buf := buf[i - 1 := (buf[i - 1] as int + 1) as char];
        i := i - 1;
      }
      if buf[0] > '9' {
        DecimalRoll(buf);
        buf := buf[0 := '1'];
        DecimalOneZeros(buf);
        if fixed {
          DecimalPush(buf, 0);
          PowNext(10, n - 1);
          buf := buf + ['0'];
        } else {
          exp10 := exp10 + 1;
        }
      }
    }
  }

  lemma DecimalBump(s: seq<char>)
    requires |s| > 0 && IsDigit(s[|s| - 1])
    ensures Decimal(s[|s| - 1 := (s[|s| - 1] as int + 1) as char]) == Decimal(s) + 1
  {
    var n := |s| - 1;
    var t := s[n := (s[n] as int + 1) as char];
    assert t[..n] == s[..n];
  }

  // ---- Digit generation ----------------------------------------------------

  /** count_digits: the number of decimal digits of n > 0. */
  function CountDigits(n: nat): (d: nat)
    requires n > 0
    ensures d > 0 && Pow(10, d - 1) <= n < Pow(10, d)
  {
    if n < 10 then 1 else 1 + CountDigits(n / 10)
  }

  /** The fractional part of f * 2^-s, in units of 2^-s; the integral part is ShiftRight(f, s). */
  function Fraction(f: nat, s: nat): nat
  {
    PowPos(2, s);
    f % Pow(2, s)
  }

  lemma Parts(f: nat, s: nat)
    ensures f == ShiftRight(f, s) * Pow(2, s) + Fraction(f, s) && Fraction(f, s) < Pow(2, s)
    ensures f >= Pow(2, s) ==> ShiftRight(f, s) > 0
  {
    PowPos(2, s);
    var q, one := ShiftRight(f, s), Pow(2, s);
    if q <= 0 {
      MulMono(one, q, 0);
    }
  }

  lemma OneFits(s: nat)
    requires 32 <= s <= 60
    ensures 0x1_0000_0000 <= Pow(2, s) <= 0x1000_0000_0000_0000
  {
    hide Pow;
    PowMono(2, 32, s);
    PowMono(2, s, 60);
    TwoTo32();
    TwoTo60();
  }

  /** The divisor of the first digit, and so of every later one, fits 64 bits. */
  lemma DivisorFits(f: U64, s: nat, exp: nat, count: nat)
    requires ShiftRight(f, s) > 0 && count == CountDigits(ShiftRight(f, s)) && exp < count
    ensures 0 < Pow(10, exp) && Pow(2, s) <= Pow(10, exp) * Pow(2, s) <= f
    ensures f < Pow(10, count) * Pow(2, s)
  {
    Parts(f, s);
    PowMono(10, exp, count - 1);
    PowPos(10, exp);
    PowPos(2, s);
    hide Pow, ShiftRight, Fraction;
    var q, one := ShiftRight(f, s), Pow(2, s);
    MulMono(one, 1, Pow(10, exp));
    MulMono(one, Pow(10, exp), q);
    MulStrict(one, q, Pow(10, count));
  }

  /** f / 10 compared with a tenth of 10^count. */
  lemma TenthBelow(f: U64, one: nat, count: nat)
    requires count > 0 && f < Pow(10, count) * one
    ensures f / 10 < Pow(10, count - 1) * one
  {
    PowNext(10, count - 1);
    hide Pow;
    Assoc(10, Pow(10, count - 1), one);
  }

  /** Rounding the whole value to 0 or 1 units of 10^count, from a tenth of it. */
  lemma BitIsNearest(f: U64, s: nat, count: nat, divisor: nat, roundUp: bool)
    requires count > 0 && divisor == Pow(10, count - 1) * Pow(2, s) && f / 10 < divisor
    requires if roundUp then 2 * (f / 10 - 10) >= divisor else 2 * (f / 10 + 10) <= divisor
    ensures NearestDecimal(f, 1, s, if roundUp then 1 else 0, count)
  {
    PowNext(10, count - 1);
    PowZero(10);
    hide Pow, NearestDecimal;
    Assoc(10, Pow(10, count - 1), Pow(2, s));
    NearestByEnds(f, 1, s, if roundUp then 1 else 0, count, 1, 10 * divisor);
  }

  /** A value below a twentieth of the unit rounds to zero. */
  lemma NothingIsNearest(f: U64, s: nat, one: nat, count: nat, precision: int)
    requires one == Pow(2, s) && one > 2 && precision < 0 && f < Pow(10, count) * one
    ensures NearestDecimal(f, 1, s, 0, count - precision)
  {
    var k := count - precision;
    PowMono(10, count + 1, k);
    PowNext(10, count);
    PowPos(10, count);
    PowZero(10);
    hide Pow, NearestDecimal;
    Assoc(10, Pow(10, count), one);
    MulMono(one, 10 * Pow(10, count), Pow(10, k));
    NearestByEnds(f, 1, s, 0, k, 1, Pow(10, k) * one);
  }

  /** Taking one digit off the integral part. */
  lemma IntegralStep(f: U64, one: nat, head: int, integral: nat, fractional: nat, exp: nat)
    requires exp > 0 && fractional < one && integral < Pow(10, exp)
    requires f == head * (Pow(10, exp) * one) + integral * one + fractional
    ensures Pow(10, exp - 1) > 0
    ensures 0 <= integral / Pow(10, exp - 1) < 10
    ensures 0 <= integral % Pow(10, exp - 1) < Pow(10, exp - 1)
    ensures var rest := integral % Pow(10, exp - 1) * one + fractional;
      0 <= rest < Pow(10, exp - 1) * one
      && f == (10 * head + integral / Pow(10, exp - 1)) * (Pow(10, exp - 1) * one) + rest
  {
    PowPos(10, exp - 1);
    PowNext(10, exp - 1);
    DigitAndRest(integral, Pow(10, exp - 1));
    hide Pow;
    var p := Pow(10, exp - 1);
    SplitDigit(one, head, p, integral / p, integral % p);
    MulStrict(one, integral % p, p);
    MulMono(one, 0, integral % p);
  }

  lemma DigitAndRest(n: nat, p: nat)
    requires p > 0 && n < 10 * p
    ensures n == n / p * p + n % p && 0 <= n % p < p && 0 <= n / p < 10
  {
    var d := n / p;
    assert n == d * p + n % p;
    if d >= 10 {
      MulMono(p, 10, d);
    }
    if d < 0 {
      MulMono(p, d, -1);
    }
  }

  lemma SplitDigit(one: nat, head: int, p: nat, d: int, r: int)
    ensures head * (10 * p * one) + (d * p + r) * one == (10 * head + d) * (p * one) + r * one
  {
    var u := p * one;
    Assoc(10, p, one);
    assert head * (10 * u) == 10 * head * u;
    Distrib(d * p, r, one);
    Assoc(d, p, one);
    Distrib(10 * head, d, u);
  }

  /** One round of the loop over integral digits. */
  method IntegralDigit(f: U64, s: nat, one: U64, ghost count: nat, handler: GenDigitsHandler,
                       integral: nat, fractional: U64, exp: nat) returns (r: Result, rest: nat)
    requires one == Pow(2, s) && 0x1_0000_0000 <= one && fractional < one
    requires ShiftRight(f, s) > 0 && count == CountDigits(ShiftRight(f, s)) && 0 < exp <= count
    requires AllDigits(handler.buf) && |handler.buf| + exp == count && integral < Pow(10, exp)
    requires handler.buf != [] ==> |handler.buf| < handler.precision
    requires f == Decimal(handler.buf) * (Pow(10, exp) * one) + integral * one + fractional
    modifies handler
    ensures Emitted(handler, old(handler.precision), old(handler.fixed), old(handler.exp10), f, s, r, exp - 1, count)
    ensures 0 <= rest < Pow(10, exp - 1)
    ensures r == More ==> f == Decimal(handler.buf) * (Pow(10, exp - 1) * one) + rest * one + fractional
  {
    hide Pow, Decimal, NearestDecimal, ShiftRight;
    ghost var head := Decimal(handler.buf);
    IntegralStep(f, one, head, integral, fractional, exp);
    DivisorFits(f, s, exp - 1, count);
    PowZero(10);
    // The switch over exp divides by 10^(exp - 1).
    var digit := integral / Pow(10, exp - 1);
    rest := integral % Pow(10, exp - 1);
    DecimalPush(handler.buf, digit);
    var divisor: U64 := Pow(10, exp - 1) * one;
    var remainder: U64 := rest * one + fractional;
    r := handler.OnDigit(('0' as int + digit) as char, divisor, remainder, 1, true);
    if r == Done {
      DigitIsNearest(f, s, exp - 1, 1, divisor, 10 * head + digit, remainder,
                     handler.Read(old(handler.exp10)) == 10 * head + digit + 1);
    }
    if r == Error {
      NoneIsNearest(f, s, exp - 1, divisor, 10 * head + digit, remainder);
    }
  }

  lemma EmittedMore(handler: GenDigitsHandler, precision: int, fixed: bool, exp10: int,
                    f: nat, s: nat, exp: int, count: nat)
    requires Emitted(handler, precision, fixed, exp10, f, s, More, exp, count)
    ensures handler.precision == precision && handler.fixed == fixed && handler.exp10 == exp10
    ensures AllDigits(handler.buf) && exp + |handler.buf| == count && |handler.buf| < precision
  {}

  lemma AtLastDigit(head: int, one: nat, integral: int, exp: nat)
    ensures exp == 0 && 0 <= integral < Pow(10, exp) ==>
      head * (Pow(10, exp) * one) + integral * one == head * one
  {
    PowZero(10);
  }

  /** The integral part: up to ten digits. */
  method IntegralDigits(f: U64, s: nat, one: U64, count: nat, handler: GenDigitsHandler) returns (r: Result, exp: int)
    requires 32 <= s <= 60 && one == Pow(2, s) && 0x1_0000_0000 <= one <= 0x1000_0000_0000_0000
    requires f >= one && ShiftRight(f, s) > 0 && count == CountDigits(ShiftRight(f, s))
    requires handler.buf == []
    modifies handler
    ensures Emitted(handler, old(handler.precision), old(handler.fixed), old(handler.exp10), f, s, r, exp, count)
    ensures r == More ==> exp == 0 && f == Decimal(handler.buf) * one + Fraction(f, s)
  {
    hide Pow, Decimal, NearestDecimal, ShiftRight, Fraction, Emitted;
    Parts(f, s);
    var integral: nat := ShiftRight(f, s);
    var fractional: U64 := Fraction(f, s);
    exp, r := count, More;
    assert integral < Pow(10, count);
    DecimalEmpty();
    PowZero(10);
    assert f == integral * one + fractional;
    while r == More && exp > 0
      invariant 0 <= exp <= count
      invariant exp == count ==> r == More && handler.buf == [] && handler.precision == old(handler.precision)
                                 && handler.fixed == old(handler.fixed) && handler.exp10 == old(handler.exp10)
      invariant exp < count ==>
        Emitted(handler, old(handler.precision), old(handler.fixed), old(handler.exp10), f, s, r, exp, count)
      invariant r == More ==> 0 <= integral < Pow(10, exp)
      invariant r == More ==> f == Decimal(handler.buf) * (Pow(10, exp) * one) + integral * one + fractional
      decreases exp
    {
      if exp < count {
        EmittedMore(handler, old(handler.precision), old(handler.fixed), old(handler.exp10), f, s, exp, count);
      }
      r, integral := IntegralDigit(f, s, one, count, handler, integral, fractional, exp);
      exp := exp - 1;
    }
    AtLastDigit(Decimal(handler.buf), one, integral, exp);
  }

  /** The fractional part: one digit a round until the handler stops. */
  method FractionalDigits(f: U64, s: nat, one: U64, count: nat, handler: GenDigitsHandler) returns (r: Result, exp: int)
    requires 32 <= s <= 60 && one == Pow(2, s) && 0x1_0000_0000 <= one <= 0x1000_0000_0000_0000
    requires AllDigits(handler.buf) && |handler.buf| == count < handler.precision
    requires f == Decimal(handler.buf) * one + Fraction(f, s)
    modifies handler
    ensures Emitted(handler, old(handler.precision), old(handler.fixed), old(handler.exp10), f, s, r, exp, count)
    ensures r != More
  {
    hide Pow, Decimal, NearestDecimal, ShiftRight, Fraction;
    Parts(f, s);
    var fractional: U64, error: U64 := Fraction(f, s), 1;
    exp, r := 0, More;
    PowZero(10);
    while r == More
      invariant exp <= 0 && error == Pow(10, -exp) && fractional < one
      invariant exp < 0 && r == More ==> error < fractional
      invariant r == More ==> handler.precision == old(handler.precision) && handler.fixed == old(handler.fixed)
                              && handler.exp10 == old(handler.exp10) && AllDigits(handler.buf)
                              && |handler.buf| + exp == count && |handler.buf| < handler.precision
      invariant r == More ==> f * Pow(10, -exp) == Decimal(handler.buf) * one + fractional
      invariant r != More ==>
        Emitted(handler, old(handler.precision), old(handler.fixed), old(handler.exp10), f, s, r, exp, count)
      decreases r == More, handler.precision - |handler.buf|
    {
      ghost var head := Decimal(handler.buf);
      FractionalStep(f, one, head, fractional, -exp);
      fractional := fractional * 10;
      error := error * 10;
      var digit := fractional / one;
      fractional := fractional % one;
      exp := exp - 1;
      DecimalPush(handler.buf, digit);
      r := handler.OnDigit(('0' as int + digit) as char, one, fractional, error, false);
      if r == Done {
        DigitIsNearest(f, s, exp, error, one, 10 * head + digit, fractional,
                       handler.Read(old(handler.exp10)) == 10 * head + digit + 1);
      }
      DivModUnique(f * Pow(10, -exp), one, 10 * head + digit, fractional);
    }
  }

  lemma FractionalStep(f: U64, one: U64, head: int, fractional: nat, j: nat)
    requires one > 0 && fractional < one
    requires f * Pow(10, j) == head * one + fractional
    ensures Pow(10, j + 1) == 10 * Pow(10, j)
    ensures 0 <= fractional * 10 / one < 10
    ensures f * Pow(10, j + 1) == (10 * head + fractional * 10 / one) * one + fractional * 10 % one
  {
    PowNext(10, j);
    hide Pow;
    var t := fractional * 10;
    var d, r := t / one, t % one;
    assert t == d * one + r;
    if d >= 10 {
      MulMono(one, 10, d);
    }
    Distrib(10 * head, d, one);
    Assoc(10, head, one);
    Assoc(f, 10, Pow(10, j));
    Swap(f, 10, Pow(10, j));
  }

  /** Where digit generation stands after a call to the handler. */
  ghost predicate Emitted(handler: GenDigitsHandler, precision: int, fixed: bool, exp10: int,
                          f: nat, s: nat, r: Result, exp: int, count: nat)
    reads handler
  {
    && handler.precision == precision && handler.fixed == fixed && AllDigits(handler.buf) && handler.buf != []
    && (r != Done ==> handler.exp10 == exp10 && exp + |handler.buf| == count)
    && (r == More ==> |handler.buf| < precision)
    && (r == Error ==> |handler.buf| <= 1 || |handler.buf| <= precision)
    && (r == Done ==> NearestDecimal(f, 1, s, handler.Read(exp10), exp))
    && (r == Error && exp >= 0 ==> !Decidable(f, s, exp))
    && (r == Error && exp < 0 ==> Hopeless(f, s, exp, count - exp >= precision))
    && (r == Done ==> count - exp >= 0 && handler.Complete(count - exp, exp10))
    && (r == Done ==> count - exp == if precision > 0 then precision else 1)
  }

  /** Fixed format, and no digit is within the precision: nothing, or one rounded digit. */
  method LeadingZerosOnly(f: U64, s: nat, one: U64, count: nat, handler: GenDigitsHandler) returns (r: Result)
    requires one == Pow(2, s) && 0x1_0000_0000 <= one
    requires ShiftRight(f, s) > 0 && count == CountDigits(ShiftRight(f, s))
    requires handler.buf == [] && handler.precision <= 0
    modifies handler`buf
    ensures r != More && AllDigits(handler.buf)
    ensures r == Error ==> handler.buf == [] && handler.precision == 0
    ensures r == Error ==> !SafeToRound(f / 10, Pow(10, count - 1) * Pow(2, s), 10, true)
    ensures r == Done ==> |handler.buf| <= 1
    ensures r == Done && handler.buf == [] ==>
      handler.precision < 0 && NearestDecimal(f, 1, s, 0, count - handler.precision)
    ensures r == Done && handler.buf != [] ==>
      handler.precision == 0 && NearestDecimal(f, 1, s, Decimal(handler.buf), count)
  {
    hide Pow, Decimal, NearestDecimal, ShiftRight;
    DivisorFits(f, s, count - 1, count);
    if handler.precision < 0 {
      NothingIsNearest(f, s, one, count, handler.precision);
      return Done;
    }
    TenthBelow(f, one, count);
    var divisor: U64 := Pow(10, count - 1) * one;
    var dir := GetRoundDirection(divisor, f / 10, 10);
    if dir == Unknown {
      return Error;
    }
    var bit := if dir == Up then '1' else '0';
    handler.buf := handler.buf + [bit];
    assert handler.buf == [bit];
    DecimalOne(bit);
    BitIsNearest(f, s, count, divisor, dir == Up);
    r := Done;
  }

  /**
   Generates digits of f * 2^-s until the handler has enough of them. `done`
   promises a nearest decimal; in every case exp plus the digits asked for is
   the number of integral digits, which the caller uses to restart exactly.
   */
  method GrisuGenDigits(f: U64, s: nat, error: U64, handler: GenDigitsHandler) returns (outcome: Outcome, exp: int)
    requires 32 <= s <= 60 && f >= Pow(2, s) && error == 1
    requires handler.buf == [] && handler.precision <= INT_MAX
    modifies handler
    ensures AllDigits(handler.buf)
    ensures handler.fixed == old(handler.fixed)
    ensures var offset := CountDigits(ShiftRight(f, s)) + old(handler.exp10);
      outcome == NumberIsTooBig <==> handler.fixed && offset > 0 && old(handler.precision) > INT_MAX - offset
    ensures outcome != NumberIsTooBig ==>
      handler.precision == old(handler.precision)
                           + if handler.fixed then CountDigits(ShiftRight(f, s)) + old(handler.exp10) else 0
    ensures outcome == Returned(Error) ==>
      exp + |handler.buf| == CountDigits(ShiftRight(f, s)) && handler.exp10 == old(handler.exp10)
    ensures outcome == Returned(Error) && exp >= 0 && handler.buf != [] ==> !Decidable(f, s, exp)
    ensures outcome == Returned(Error) && exp < 0 ==>
      Hopeless(f, s, exp, |handler.buf| >= handler.precision)
    ensures outcome == Returned(Error) ==> |handler.buf| <= 1 || |handler.buf| <= handler.precision
    ensures outcome == Returned(Error) && handler.buf == [] ==>
      handler.fixed && !SafeToRound(f / 10, Pow(10, CountDigits(ShiftRight(f, s)) - 1) * Pow(2, s), 10, true)
    ensures outcome == Returned(Done) ==>
      handler.exp10 == old(handler.exp10) || (handler.buf != [] && handler.exp10 == old(handler.exp10) + 1)
    ensures outcome.Returned? && handler.fixed && (outcome.result == Error || handler.buf != []) ==>
      handler.precision >= 0
    ensures outcome == Returned(Done) && handler.buf == [] ==>
      handler.fixed && handler.precision < 0 && exp == CountDigits(ShiftRight(f, s))
      && NearestDecimal(f, 1, s, 0, exp - handler.precision)
    ensures outcome == Returned(Done) && handler.buf != [] ==>
      NearestDecimal(f, 1, s, handler.Read(old(handler.exp10)), exp)
    ensures outcome == Returned(Done) && handler.buf != [] ==>
      handler.Complete(if handler.precision > 0 then handler.precision else 1, old(handler.exp10))
    ensures outcome == Returned(Done) && handler.buf != [] ==>
      var emitted := CountDigits(ShiftRight(f, s)) - exp;
      emitted == (if handler.precision > 0 then handler.precision else if handler.fixed then 0 else 1)
    ensures outcome.Returned? ==> outcome.result != More
  {
    hide Pow, Decimal, NearestDecimal, ShiftRight, Fraction, Hopeless;
    Parts(f, s);
    OneFits(s);
    var one: U64 := Pow(2, s);
    var count := CountDigits(ShiftRight(f, s));
    exp := count;
    if handler.fixed {
      var offset := exp + handler.exp10;
      if offset > 0 && handler.precision > INT_MAX - offset {
        return NumberIsTooBig, exp;
      }
      handler.precision := handler.precision + offset;
      if handler.precision <= 0 {
        var r := LeadingZerosOnly(f, s, one, exp, handler);
        return Returned(r), exp;
      }
    }
    var r;
    r, exp := IntegralDigits(f, s, one, count, handler);
    if r == More {
      r, exp := FractionalDigits(f, s, one, count, handler);
    }
    outcome := Returned(r);
  }
}
