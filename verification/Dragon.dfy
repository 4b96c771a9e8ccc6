/**
 Fixed-precision Dragon4: format_dragon with a non-negative digit count
 (include/spdlog/fmt/bundled/format-inl.h).
 */
module Dragon {
  import opened Powers
  import opened Digits
  import opened Comparison
  import opened Bigints
  import opened Rounding

  // ---- What is printed -----------------------------------------------------
  // The value is f * 2^e. value / 10^k is the fraction Above10(f, e, k) / Below10(e, k).

  function Above10(f: nat, e: int, k: int): nat
  {
    f * (if e >= 0 then Pow(2, e) else 1) * if k >= 0 then 1 else Pow(10, -k)
  }

  function Below10(e: int, k: int): nat
  {
    (if e >= 0 then 1 else Pow(2, -e)) * if k >= 0 then Pow(10, k) else 1
  }

  /** numerator / denominator = value / 10^exp10, both scaled by 2^shift. */
  method ScaleFraction(f: U64, e: int, shift: nat, exp10: int) returns (numerator: Bigint, denominator: Bigint)
    requires 1 <= shift <= 2 && 0 < f < 0x4000_0000_0000_0000
    requires -0x4000_0000 < exp10 < 0x4000_0000
    requires e >= 0 ==> exp10 >= 0
    ensures fresh(numerator) && fresh(denominator) && numerator != denominator
    ensures numerator.Value() == Above10(f, e, exp10) * Pow(2, shift)
    ensures denominator.Value() == Below10(e, exp10) * Pow(2, shift)
    ensures numerator.IsNormal() && denominator.IsNormal()
    ensures numerator.exp == if e >= 0 then e / 32 else if exp10 < 0 then -exp10 / 32 else 0
    ensures e >= 0 ==> denominator.exp >= exp10 / 32
  {
    hide Num, Pow, Above10, Below10;
    Significand(f, shift);
    PowPos(2, shift);
    MulPos(f, Pow(2, shift));
    var significand: U64 := f * if shift == 1 then 2 else 4;
    ScaledParts(f, e, shift, exp10);
    numerator := new Bigint();
    denominator := new Bigint();
    if e >= 0 {
      numerator.AssignU64(significand);
      numerator.ShiftLeft(e);
      denominator.AssignPow10(exp10);
      denominator.ShiftLeft(shift);
    } else if exp10 < 0 {
      numerator.AssignPow10(-exp10);
      numerator.Multiply64(significand);
      denominator.AssignU64(1);
      denominator.ShiftLeft(shift - e);
    } else {
      numerator.AssignU64(significand);
      denominator.AssignPow10(exp10);
      denominator.ShiftLeft(shift - e);
    }
  }

  lemma Significand(f: U64, shift: nat)
    requires 1 <= shift <= 2
    ensures f * Pow(2, shift) == f * if shift == 1 then 2 else 4
  {
    assert Pow(2, 1) == 2;
    assert Pow(2, 2) == 4;
  }

  /** The three ways of building the fraction all scale it by 2^shift. */
  lemma ScaledParts(f: nat, e: int, shift: nat, k: int)
    ensures e >= 0 && k >= 0 ==> f * Pow(2, shift) * Pow(2, e) == Above10(f, e, k) * Pow(2, shift)
    ensures e >= 0 && k >= 0 ==> Pow(10, k) * Pow(2, shift) == Below10(e, k) * Pow(2, shift)
    ensures e < 0 && k < 0 ==> Pow(10, -k) * (f * Pow(2, shift)) == Above10(f, e, k) * Pow(2, shift)
    ensures e < 0 && k < 0 ==> 1 * Pow(2, shift - e) == Below10(e, k) * Pow(2, shift)
    ensures e < 0 && k >= 0 ==> f * Pow(2, shift) == Above10(f, e, k) * Pow(2, shift)
    ensures e < 0 && k >= 0 ==> Pow(10, k) * Pow(2, shift - e) == Below10(e, k) * Pow(2, shift)
  {
    hide Pow;
    if e >= 0 {
      Swap(f, Pow(2, shift), Pow(2, e));
    } else {
      PowAdd(2, -e, shift);
      if k < 0 {
        Assoc(Pow(10, -k), f, Pow(2, shift));
      } else {
        Assoc(Pow(10, k), Pow(2, -e), Pow(2, shift));
      }
    }
  }

  // ---- No digit step meets the inexact comparison --------------------------

  lemma {:induction false} PowTwoMod5(n: nat)
    ensures Pow(2, n) % 5 != 0
  {
    if n > 0 {
      PowTwoMod5(n - 1);
    }
  }

  /** A power of ten is no multiple of a power of two with a larger exponent. */
  lemma TwosInPowTen(c: nat, a: nat, b: nat)
    requires a > b
    ensures c * Pow(2, a) != Pow(10, b)
  {
    hide Pow;
    PowTen(b);
    PowPos(2, b);
    PowFiveOdd(b);
    var h := c * Pow(2, a - b - 1);
    PowNext(2, a - b - 1);
    Assoc(c, 2, Pow(2, a - b - 1));
    Swap(c, 2, Pow(2, a - b - 1));
    assert c * Pow(2, a - b) == h * 2;
    MulDistinct(Pow(2, b), c * Pow(2, a - b), Pow(5, b));
    PowAdd(2, a - b, b);
    Assoc(c, Pow(2, a - b), Pow(2, b));
  }

  /**
   Before the numerator has been aligned it still is the initial one times
   10^i. With an exponent larger than the denominator's it cannot equal the
   denominator, so the denominator is no longer copy of it.
   */
  lemma NoLongerCopy(f: nat, e: int, shift: nat, exp10: int, i: nat, numeratorExp: nat, denominatorExp: nat)
    requires e >= 0 ==> exp10 >= 0
    requires numeratorExp == if e >= 0 then e / 32 else if exp10 < 0 then -exp10 / 32 else 0
    requires e >= 0 ==> denominatorExp >= exp10 / 32
    requires numeratorExp > denominatorExp
    ensures Above10(f, e, exp10) * Pow(2, shift) * Pow(10, i) != Below10(e, exp10) * Pow(2, shift)
  {
    hide Pow, Above10, Below10;
    var up, down := Above10(f, e, exp10), Below10(e, exp10);
    if e >= 0 {
      AboveInteger(f, e, exp10);
      Swap(f, Pow(2, e), Pow(10, i));
      TwosInPowTen(f * Pow(10, i), e, exp10);
    } else {
      AboveTenth(f, e, exp10);
      Assoc(10, f * Pow(10, -exp10 - 1), Pow(10, i));
      PowTwoMod5(-e);
      assert up * Pow(10, i) == 5 * (2 * (f * Pow(10, -exp10 - 1) * Pow(10, i)));
    }
    PowPos(2, shift);
    MulDistinct(Pow(2, shift), up * Pow(10, i), down);
    Swap(up, Pow(2, shift), Pow(10, i));
  }

  lemma AboveInteger(f: nat, e: nat, k: nat)
    ensures Above10(f, e, k) == f * Pow(2, e)
    ensures Below10(e, k) == Pow(10, k)
  {}

  lemma AboveTenth(f: nat, e: int, k: int)
    requires e < 0 && k < 0
    ensures Above10(f, e, k) == 10 * (f * Pow(10, -k - 1))
    ensures Below10(e, k) == Pow(2, -e)
  {
    PowNext(10, -k - 1);
    hide Pow;
    Swap(f, 10, Pow(10, -k - 1));
    Assoc(f, 10, Pow(10, -k - 1));
    Assoc(10, f, Pow(10, -k - 1));
  }

  // ---- Digit generation ----------------------------------------------------

  /**
   The state of the digit loop after i digits that read as `head`: the scaled
   value splits into the digits emitted and the numerator that is left.
   */
  ghost predicate PartialSum(start: nat, denominator: nat, i: nat, head: int, left: nat)
  {
    start * Pow(10, i) == head * (10 * denominator) + left && left < 10 * denominator
  }

  lemma PartialStep(start: nat, d: nat, i: nat, head: int, left: nat, digit: nat, rest: nat)
    requires PartialSum(start, d, i, head, left)
    requires left == digit * d + rest && rest < d
    ensures digit < 10
    ensures start * Pow(10, i) == (10 * head + digit) * d + rest
    ensures PartialSum(start, d, i + 1, 10 * head + digit, 10 * rest)
  {
    PowNext(10, i);
    hide Pow;
    if digit >= 10 {
      MulMono(d, 10, digit);
    }
    Distrib(10 * head, digit, d);
    Assoc(10, head, d);
    Swap(head, 10, d);
    Assoc(head, 10, d);
    Assoc(10, start, Pow(10, i));
    Swap(10, start, Pow(10, i));
    Assoc(start, 10, Pow(10, i));
    Assoc(10 * head + digit, 10, d);
    Swap(10 * head + digit, 10, d);
    var a := (10 * head + digit) * d;
    assert (10 * head + digit) * (10 * d) == 10 * a;
  }

  /** One digit: divide, leaving a remainder below the denominator. */
  method NextDigit(numerator: Bigint, denominator: Bigint,
                   ghost f: nat, ghost e: int, ghost shift: nat, ghost exp10: int, ghost i: nat,
                   ghost numeratorExp: nat)
    returns (digit: nat)
    requires numerator != denominator && denominator.IsNormal()
    requires Ready(numerator, denominator, f, e, shift, exp10, i, numeratorExp)
    requires numerator.Value() < 10 * denominator.Value()
    modifies numerator
    ensures old(numerator.Value()) == digit * denominator.Value() + numerator.Value()
    ensures numerator.Value() < denominator.Value()
    ensures digit < 10
    ensures numerator.exp <= denominator.exp || (digit == 0 && numerator.exp == old(numerator.exp))
    ensures numerator.IsNormal() || numerator.bigits == [0]
    ensures TopFits(numerator.bigits, numerator.exp, denominator.bigits, denominator.exp)
  {
    hide Num, Pow, Above10, Below10, Val;
    CopiesAreEqual(denominator.bigits, denominator.exp, numerator.bigits, numerator.exp);
    if numeratorExp > denominator.exp {
      NoLongerCopy(f, e, shift, exp10, i, numeratorExp, denominator.exp);
    }
    digit := numerator.DivmodAssign(denominator);
    if digit >= 10 {
      MulMono(denominator.Value(), 10, digit);
    }
  }

  /**
   What makes the next comparison exact: either the numerator is aligned with
   the denominator, or it still is the initial one times 10^i.
   */
  ghost predicate Ready(numerator: Bigint, denominator: Bigint,
                        f: nat, e: int, shift: nat, exp10: int, i: nat, numeratorExp: nat)
    reads numerator, denominator
  {
    && (e >= 0 ==> exp10 >= 0)
    && (numerator.IsNormal() || numerator.bigits == [0])
    && TopFits(numerator.bigits, numerator.exp, denominator.bigits, denominator.exp)
    && denominator.Value() == Below10(e, exp10) * Pow(2, shift)
    && numeratorExp == (if e >= 0 then e / 32 else if exp10 < 0 then -exp10 / 32 else 0)
    && (e >= 0 ==> denominator.exp >= exp10 / 32)
    && (numerator.exp <= denominator.exp
        || (numerator.exp == numeratorExp && numerator.Value() == Above10(f, e, exp10) * Pow(2, shift) * Pow(10, i)))
  }

  lemma ReadyNext(numerator: Bigint, denominator: Bigint, f: nat, e: int, shift: nat, exp10: int,
                  i: nat, numeratorExp: nat, left: nat)
    requires e >= 0 ==> exp10 >= 0
    requires numerator.IsNormal() || numerator.bigits == [0]
    requires TopFits(numerator.bigits, numerator.exp, denominator.bigits, denominator.exp)
    requires denominator.Value() == Below10(e, exp10) * Pow(2, shift)
    requires numeratorExp == (if e >= 0 then e / 32 else if exp10 < 0 then -exp10 / 32 else 0)
    requires e >= 0 ==> denominator.exp >= exp10 / 32
    requires numerator.exp <= denominator.exp
             || (numerator.exp == numeratorExp && numerator.Value() == 10 * left
                 && left == Above10(f, e, exp10) * Pow(2, shift) * Pow(10, i))
    ensures Ready(numerator, denominator, f, e, shift, exp10, i + 1, numeratorExp)
  {
    PowNext(10, i);
    hide Num, Pow, Above10, Below10, Val;
    var start := Above10(f, e, exp10) * Pow(2, shift);
    Assoc(start, 10, Pow(10, i));
    Swap(start, 10, Pow(10, i));
  }

  /**
   Prints value = f * 2^e with numDigits significant digits. exp10In estimates
   the decimal exponent of the value and must not be too small. The digits
   denote the value rounded half to even at the position of the last digit.
   */
  method FormatDragon(f: U64, e: int, isPredecessorCloser: bool, numDigits: nat, exp10In: int)
    returns (buf: seq<char>, exp10: int)
    requires 0 < f < 0x4000_0000_0000_0000
    requires -0x4000_0000 < exp10In < 0x4000_0000
    requires e >= 0 ==> exp10In >= 0
    requires Above10(f, e, exp10In) < 10 * Below10(e, exp10In)
    ensures AllDigits(buf)
    ensures numDigits == 0 ==> |buf| == 1 && exp10 == exp10In + 1
                               && HalfEven(Above10(f, e, exp10In), Below10(e, exp10In) * 10, Decimal(buf))
    ensures numDigits > 0 ==> |buf| == numDigits
    ensures numDigits > 0 ==>
      var unit := exp10In - (numDigits - 1);
      var scaled := Above10(f, e, exp10In) * Pow(10, numDigits - 1);
      || (exp10 == unit && HalfEven(scaled, Below10(e, exp10In), Decimal(buf)))
      || (exp10 == unit + 1 && HalfEven(scaled, Below10(e, exp10In), 10 * Decimal(buf))
          && Decimal(buf) == Pow(10, numDigits - 1))
  {
    hide Num, Pow, Above10, Below10, Val, HalfEven, Ready, PartialSum, Decimal;
    var shift := if isPredecessorCloser then 2 else 1;
    var numerator, denominator := ScaleFraction(f, e, shift, exp10In);
    ghost var up, down, two := Above10(f, e, exp10In), Below10(e, exp10In), Pow(2, shift);
    ghost var start, d := numerator.Value(), denominator.Value();
    PowPos(2, shift);
    MulStrict(two, up, 10 * down);
    Assoc(10, down, two);
    exp10 := exp10In - (numDigits - 1);
    if numDigits == 0 {
      buf := RoundWhole(numerator, denominator);
      Swap(down, two, 10);
      HalfEvenScale(up, down * 10, two, Decimal(buf));
      return;
    }
    ghost var numeratorExp := numerator.exp;
    ReadyAtStart(numerator, denominator, f, e, shift, exp10In);
    buf := EmitDigits(numerator, denominator, numDigits - 1, f, e, shift, exp10In, numeratorExp);
    ghost var left := numerator.Value();
    PartialBound(start, d, numDigits - 1, Decimal(buf), left);
    var digit := NextDigit(numerator, denominator, f, e, shift, exp10In, numDigits - 1, numeratorExp);
    PartialStep(start, d, numDigits - 1, Decimal(buf), left, digit, numerator.Value());
    var result := AddCompare(numerator, numerator, denominator);
    ghost var scaled := up * Pow(10, numDigits - 1);
    Swap(up, two, Pow(10, numDigits - 1));
    var carried;
    buf, carried := RoundLast(buf, digit, result, start * Pow(10, numDigits - 1), d, numerator.Value());
    HalfEvenScale(scaled, down, two, if carried then 10 * Decimal(buf) else Decimal(buf));
    exp10 := if carried then exp10 + 1 else exp10;
  }

  lemma ReadyAtStart(numerator: Bigint, denominator: Bigint, f: nat, e: int, shift: nat, exp10: int)
    requires e >= 0 ==> exp10 >= 0
    requires numerator.IsNormal()
    requires numerator.Value() == Above10(f, e, exp10) * Pow(2, shift)
    requires denominator.Value() == Below10(e, exp10) * Pow(2, shift)
    requires numerator.exp == if e >= 0 then e / 32 else if exp10 < 0 then -exp10 / 32 else 0
    requires e >= 0 ==> denominator.exp >= exp10 / 32
    requires numerator.Value() < 10 * denominator.Value()
    ensures Ready(numerator, denominator, f, e, shift, exp10, 0, numerator.exp)
    ensures PartialSum(numerator.Value(), denominator.Value(), 0, Decimal([]), numerator.Value())
  {
    PowZero(10);
    DecimalEmpty();
    hide Num, Pow, Above10, Below10, Val, Decimal;
  }

  lemma PartialBound(start: nat, d: nat, i: nat, head: int, left: nat)
    requires PartialSum(start, d, i, head, left)
    ensures left < 10 * d
  {}

  /** One round of the digit loop: a digit, then numerator *= 10. */
  method DigitStep(numerator: Bigint, denominator: Bigint,
                   ghost f: nat, ghost e: int, ghost shift: nat, ghost exp10: int, ghost i: nat,
                   ghost numeratorExp: nat, ghost start: nat, ghost head: int)
    returns (digit: nat)
    requires numerator != denominator && denominator.IsNormal()
    requires Ready(numerator, denominator, f, e, shift, exp10, i, numeratorExp)
    requires PartialSum(start, denominator.Value(), i, head, numerator.Value())
    modifies numerator
    ensures digit < 10
    ensures Ready(numerator, denominator, f, e, shift, exp10, i + 1, numeratorExp)
    ensures PartialSum(start, denominator.Value(), i + 1, 10 * head + digit, numerator.Value())
  {
    hide Num, Pow, Above10, Below10, Val, PartialSum;
    ghost var left, d := numerator.Value(), denominator.Value();
    PartialBound(start, d, i, head, left);
    digit := NextDigit(numerator, denominator, f, e, shift, exp10, i, numeratorExp);
    PartialStep(start, d, i, head, left, digit, numerator.Value());
    numerator.Multiply32(10);
    MulZero(digit, d);
    ReadyNext(numerator, denominator, f, e, shift, exp10, i, numeratorExp, left);
  }

  /** The loop over all digits but the last. */
  method EmitDigits(numerator: Bigint, denominator: Bigint, count: nat,
                    ghost f: nat, ghost e: int, ghost shift: nat, ghost exp10: int, ghost numeratorExp: nat)
    returns (buf: seq<char>)
    requires numerator != denominator && denominator.IsNormal()
    requires Ready(numerator, denominator, f, e, shift, exp10, 0, numeratorExp)
    requires PartialSum(numerator.Value(), denominator.Value(), 0, Decimal([]), numerator.Value())
    modifies numerator
    ensures |buf| == count && AllDigits(buf)
    ensures Ready(numerator, denominator, f, e, shift, exp10, count, numeratorExp)
    ensures PartialSum(old(numerator.Value()), denominator.Value(), count, Decimal(buf), numerator.Value())
  {
    hide Num, Pow, Above10, Below10, Val, Decimal, PartialSum, Ready;
    ghost var start, d := numerator.Value(), denominator.Value();
    buf := [];
    var i := 0;
    while i < count
      invariant 0 <= i <= count && |buf| == i && AllDigits(buf)
      invariant Ready(numerator, denominator, f, e, shift, exp10, i, numeratorExp)
      invariant PartialSum(start, d, i, Decimal(buf), numerator.Value())
    {
      var digit := DigitStep(numerator, denominator, f, e, shift, exp10, i, numeratorExp, start, Decimal(buf));
      DecimalPush(buf, digit);
      buf := buf + [('0' as int + digit) as char];
      i := i + 1;
    }
  }

  /** The last digit, rounded; `carried` if the exponent has to grow by one. */
  method RoundLast(digits: seq<char>, lastDigit: nat, result: int, ghost n: nat, ghost d: nat, ghost rest: nat)
    returns (buf: seq<char>, carried: bool)
    requires AllDigits(digits) && lastDigit < 10
    requires n == (10 * Decimal(digits) + lastDigit) * d + rest && rest < d
    requires result == Sign(rest + rest - d)
    ensures |buf| == |digits| + 1 && AllDigits(buf)
    ensures HalfEven(n, d, if carried then 10 * Decimal(buf) else Decimal(buf))
    ensures carried ==> Decimal(buf) == Pow(10, |digits|)
  {
    hide Decimal, HalfEven, Pow;
    ghost var head := 10 * Decimal(digits) + lastDigit;
    var digit := lastDigit;
    if result > 0 || (result == 0 && digit % 2 != 0) {
      RoundUpwards(n, d, head, rest);
      if digit == 9 {
        buf, carried := CarryOver(digits);
        return;
      }
      digit := digit + 1;
    } else {
      RoundDownwards(n, d, head, rest);
    }
    DecimalPush(digits, digit);
    buf, carried := digits + [('0' as int + digit) as char], false;
  }

  /** No digits at all: is the value above half of the next power of ten? */
  method RoundWhole(numerator: Bigint, denominator: Bigint) returns (buf: seq<char>)
    requires numerator != denominator && numerator.IsNormal() && denominator.IsNormal()
    requires numerator.Value() < 10 * denominator.Value()
    modifies denominator
    ensures |buf| == 1 && AllDigits(buf)
    ensures HalfEven(numerator.Value(), old(denominator.Value()) * 10, Decimal(buf))
  {
    hide Num, Decimal, HalfEven;
    denominator.Multiply32(10);
    var r := AddCompare(numerator, numerator, denominator);
    buf := [if r > 0 then '1' else '0'];
    DecimalOne(buf[0]);
    RoundToBit(numerator.Value(), denominator.Value(), Decimal(buf));
  }

  /** buf followed by a digit 9 that is to be incremented: propagates the carry. */
  method CarryOver(digits: seq<char>) returns (buf: seq<char>, carried: bool)
    requires AllDigits(digits)
    ensures |buf| == |digits| + 1 && AllDigits(buf)
    ensures (if carried then 10 * Decimal(buf) else Decimal(buf)) == 10 * Decimal(digits) + 10
    ensures carried ==> Decimal(buf) == Pow(10, |digits|)
  {
    hide Decimal, Pow;
    var overflow := ('0' as int + 10) as char;
    buf, carried := digits + [overflow], false;
    DecimalPush(digits, 10);
    var i := |buf| - 1;
    while i > 0 && buf[i] == overflow
      invariant 0 <= i < |buf| == |digits| + 1
      invariant Decimal(buf) == 10 * Decimal(digits) + 10
      invariant AllDigits(buf[..i]) && (IsDigit(buf[i]) || buf[i] == overflow)
      invariant forall t :: i < t < |buf| ==> buf[t] == '0'
    {
      DecimalCarry(buf, i);
      buf := buf[i := '0'];
      buf := buf[i - 1 := (buf[i - 1] as int + 1) as char];
      i := i - 1;
    }
    assert forall t :: 0 <= t < i ==> IsDigit(buf[..i][t]);
    if buf[0] == overflow {
      DecimalRoll(buf);
      buf := buf[0 := '1'];
      carried := true;
      DecimalOneZeros(buf);
    }
  }
}
