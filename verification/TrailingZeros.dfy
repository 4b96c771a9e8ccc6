/**
 remove_trailing_zeros for float and double significands
 (include/spdlog/fmt/bundled/format-inl.h, namespace dragonbox). The cap on the
 number of zeros, float_info::max_trailing_zeros, is a parameter.
 */
module TrailingZeros {
  import opened Powers
  import opened Digits
  import opened Divisibility

  /** ctz: the number of trailing zero bits. */
  function Ctz(n: nat): (t: nat)
    requires n > 0
    ensures TwosDivide(t, n) && ShiftRight(n, t) % 2 == 1
  {
    if n % 2 == 1 then
      OddHasNoTwos(n);
      0
    else
      CtzStep(n, Ctz(n / 2));
      1 + Ctz(n / 2)
  }

  lemma ShiftShrinks(n: nat, s: nat)
    ensures ShiftRight(n, s) <= n
  {
    PowPos(2, s);
    MulMono(ShiftRight(n, s), 1, Pow(2, s));
  }

  lemma OddHasNoTwos(n: nat)
    ensures TwosDivide(0, n) && ShiftRight(n, 0) == n
  {
    assert Product(Pow(2, 0), n, n);
  }

  lemma CtzStep(n: nat, t: nat)
    requires n % 2 == 0 && TwosDivide(t, n / 2)
    ensures TwosDivide(t + 1, n) && ShiftRight(n, t + 1) == ShiftRight(n / 2, t)
  {
    PowNext(2, t);
    TwosShift(t, n / 2);
    var q := ShiftRight(n / 2, t);
    hide Pow;
    Assoc(2, Pow(2, t), q);
    assert Product(Pow(2, t + 1), q, n);
    ShiftExact(t + 1, q, n);
  }

  lemma ShiftExact(a: nat, q: nat, n: nat)
    requires n == Pow(2, a) * q
    ensures ShiftRight(n, a) == q
  {
    PowPos(2, a);
    MultipleHasNoRest(Pow(2, a), q);
  }

  // ---- Divisibility by both 2^a and an odd factor --------------------------

  /** n = 2^a * m for some m. */
  ghost predicate TwosDivide(a: nat, n: nat)
  {
    exists m: nat :: Product(Pow(2, a), m, n)
  }

  ghost predicate Product(x: nat, y: nat, n: nat)
  {
    n == x * y
  }

  lemma {:induction false} OddFactorKeepsTwos(a: nat, d: nat, n: nat)
    requires d % 2 == 1 && TwosDivide(a, d * n)
    ensures TwosDivide(a, n)
  {
    if a == 0 {
      assert Product(Pow(2, 0), n, n);
    } else {
      PowNext(2, a - 1);
      var m: nat :| Product(Pow(2, a), m, d * n);
      var p := Pow(2, a - 1);
      hide Pow;
      Assoc(2, p, m);
      OddTimesOdd(d, n);
      assert n % 2 == 0;
      var h := n / 2;
      assert d * n == 2 * (d * h) by {
        assert d * (2 * h) == 2 * (d * h);
      }
      assert Product(p, m, d * h);
      OddFactorKeepsTwos(a - 1, d, h);
      var k: nat :| Product(p, k, h);
      Assoc(2, p, k);
      assert Product(Pow(2, a), k, n);
    }
  }

  lemma OddTimesOdd(d: nat, n: nat)
    requires d % 2 == 1
    ensures d * n % 2 == n % 2
  {
    var k, j := d / 2, n / 2;
    assert d * n == 2 * (k * n) + n by {
      Distrib(2 * k, 1, n);
      Assoc(2, k, n);
    }
  }

  lemma TwosDivideLess(a: nat, b: nat, n: nat)
    requires b <= a && TwosDivide(a, n)
    ensures TwosDivide(b, n)
  {
    var m: nat :| Product(Pow(2, a), m, n);
    PowAdd(2, b, a - b);
    hide Pow;
    Assoc(Pow(2, b), Pow(2, a - b), m);
    assert Product(Pow(2, b), Pow(2, a - b) * m, n);
  }

  lemma TwosShift(a: nat, n: nat)
    requires TwosDivide(a, n)
    ensures n == Pow(2, a) * ShiftRight(n, a)
  {
    var m: nat :| Product(Pow(2, a), m, n);
    ShiftExact(a, m, n);
  }

  // ---- What both widths promise --------------------------------------------

  /** m is n without s decimal zeros, and no further zero is left below the cap. */
  ghost predicate Stripped(n: nat, m: nat, s: nat, cap: nat)
  {
    n == m * Pow(10, s) && s <= cap && (m % 10 != 0 || s == cap)
  }

  /** What is left after dividing n by 5^s. */
  ghost predicate WithoutFives(n: nat, m: nat, s: nat)
  {
    n == m * Pow(5, s)
  }

  /** Shifting the twos out completes the division by 10^s. */
  lemma ShiftOut(n: nat, m: nat, s: nat)
    requires WithoutFives(n, m, s) && TwosDivide(s, m)
    ensures n == ShiftRight(m, s) * Pow(10, s)
    ensures m % 5 != 0 ==> ShiftRight(m, s) % 10 != 0
  {
    FivesOf(n, m, s);
    hide *;
    TwosShift(s, m);
    PowTen(s);
    Substitute(n, m, ShiftRight(m, s), Pow(2, s), Pow(5, s), Pow(10, s));
    FiveInProduct(m, Pow(2, s), ShiftRight(m, s));
  }

  lemma FivesOf(n: nat, m: nat, s: nat)
    requires WithoutFives(n, m, s)
    ensures n == m * Pow(5, s)
  {}

  lemma Substitute(n: int, m: int, q: int, two: int, five: int, ten: int)
    requires n == m * five && m == two * q && ten == five * two
    ensures n == q * ten
  {
    Regroup(two, q, five);
  }

  lemma Regroup(two: int, q: int, five: int)
    ensures two * q * five == q * (five * two)
  {
    Assoc(q, five, two);
    Swap(two, q, five);
    Swap(q, two, five);
  }

  lemma FiveInProduct(m: nat, p: nat, q: nat)
    requires m == p * q
    ensures m % 5 != 0 ==> q % 10 != 0
  {
    if q % 5 == 0 {
      var k := q / 5;
      Swap(p, 5, k);
      Assoc(p, 5, k);
      assert m == p * k * 5;
    }
  }

  /** With every factor two shifted out, what is left is odd. */
  lemma AllTwosOut(n: nat, m: nat, s: nat)
    requires n > 0 && s == Ctz(n) && n == m * Pow(10, s)
    ensures m % 2 == 1
  {
    PowTen(s);
    PowFiveOdd(s);
    hide Pow, ShiftRight;
    var two, five := Pow(2, s), Pow(5, s);
    Assoc(m, five, two);
    Swap(m * five, two, 1);
    ShiftExact(s, m * five, n);
    OddTimesOdd(five, m);
  }

  lemma CtzTwos(n: nat, t: nat)
    requires n > 0 && t <= Ctz(n)
    ensures TwosDivide(t, n)
  {
    TwosDivideLess(Ctz(n), t, n);
  }

  /** Dividing out five, or twenty-five, keeps the factors of two. */
  lemma DivideOut(n: nat, m: nat, s: nat, t: nat, k: nat)
    requires 1 <= k <= 2 && WithoutFives(n, m, s) && TwosDivide(t, m) && m % Pow(5, k) == 0
    ensures Pow(5, k) == if k == 1 then 5 else 25
    ensures WithoutFives(n, m / Pow(5, k), s + k) && TwosDivide(t, m / Pow(5, k))
  {
    PowOne(5);
    PowNext(5, 1);
    PowAdd(5, k, s);
    hide Pow;
    var five := Pow(5, k);
    var q := m / five;
    assert m == five * q;
    Assoc(q, five, Pow(5, s));
    Swap(q, five, 1);
    assert m * Pow(5, s) == q * (five * Pow(5, s)) by {
      assert m == q * five;
    }
    OddFactorKeepsTwos(t, five, q);
  }

  /** When no five is left, or no two, or no room, the shift ends the work. */
  lemma Finished(n: nat, m: nat, s: nat, cap: nat)
    requires n > 0 && s <= cap && WithoutFives(n, m, s) && TwosDivide(s, m)
    requires m % 5 != 0 || s == cap || s == Ctz(n)
    ensures Stripped(n, ShiftRight(m, s), s, cap)
  {
    hide Pow, TwosDivide, WithoutFives, ShiftRight;
    ShiftOut(n, m, s);
    if s == Ctz(n) {
      AllTwosOut(n, ShiftRight(m, s), s);
    }
  }

  lemma NoFivesYet(n: nat)
    ensures WithoutFives(n, n, 0)
  {}

  /** The 32-bit product with the inverse of 5. */
  function TimesInverse5(m: Bigit): Bigit
  {
    m * 0xcccccccd % 0x1_0000_0000
  }

  function TimesInverse25(m: Bigit): Bigit
  {
    m * 0xc28f5c29 % 0x1_0000_0000
  }

  lemma Fifth(m: Bigit)
    ensures TimesInverse5(m) <= 0x33333333 <==> m % 5 == 0
    ensures m % 5 == 0 ==> TimesInverse5(m) == m / 5
  {
    InverseTest(0x1_0000_0000, 5, 0xcccccccd, m);
  }

  lemma TwentyFifth(m: Bigit)
    ensures TimesInverse25(m) <= 0x0a3d70a3 <==> m % 25 == 0
    ensures m % 25 == 0 ==> TimesInverse25(m) == m / 25
  {
    InverseTest(0x1_0000_0000, 25, 0xc28f5c29, m);
  }

  lemma FiveOnce()
    ensures Pow(5, 1) == 5 && Pow(5, 2) == 25
  {
    PowNext(5, 1);
  }

  /** float: divides by 25 while it can, then once by 5. */
  method RemoveTrailingZeros32(n: Bigit, cap: nat) returns (stripped: Bigit, s: nat)
    requires n > 0
    ensures Stripped(n, stripped, s, cap)
  {
    hide Pow, TwosDivide, WithoutFives, Stripped, ShiftRight, Ctz, TimesInverse5, TimesInverse25;
    var t := Ctz(n);
    if t > cap {
      t := cap;
    }
    CtzTwos(n, t);
    NoFivesYet(n);
    FiveOnce();
    var m: Bigit := n;
    s := 0;
    while s < t - 1
      invariant s <= t
      invariant WithoutFives(n, m, s) && TwosDivide(t, m)
    {
      TwentyFifth(m);
      if TimesInverse25(m) > 0x0a3d70a3 {
        break;
      }
      DivideOut(n, m, s, t, 2);
      m := TimesInverse25(m);
      s := s + 2;
    }
    Fifth(m);
    if s < t && TimesInverse5(m) <= 0x33333333 {
      DivideOut(n, m, s, t, 1);
      m := TimesInverse5(m);
      s := s + 1;
    }
    TwosDivideLess(t, s, m);
    Finished(n, m, s, cap);
    ShiftShrinks(m, s);
    stripped := ShiftRight(m, s);
  }

  // ---- double --------------------------------------------------------------

  /** double: through a quotient by 10^8 if that is exact, else through the remainder. */
  method RemoveTrailingZeros64(n: U64, cap: nat) returns (stripped: U64, s: nat)
    requires 0 < n <= 0xFFFF_FFFF_FFFF_FFFF / 1000 && cap >= 8
    ensures Stripped(n, stripped, s, cap)
  {
    hide Pow, TwosDivide, WithoutFives, Stripped, ShiftRight, Ctz, TimesInverse5, TimesInverse25;
    var t := Ctz(n);
    if t > cap {
      t := cap;
    }
    CtzTwos(n, t);
    if t >= 8 {
      EightFives(n);
      var candidate := n * 0xc767074b22e90e21 % 0x1_0000_0000_0000_0000;
      if candidate <= 0x00002af31dc46118 {
        stripped, s := StripQuotient(n, t, cap, candidate);
        return;
      }
    }
    stripped, s := StripRemainder(n, t, cap);
  }

  lemma EightFives(n: U64)
    ensures n * 0xc767074b22e90e21 % 0x1_0000_0000_0000_0000 <= 0x00002af31dc46118 <==> n % 390625 == 0
    ensures n % 390625 == 0 ==> n * 0xc767074b22e90e21 % 0x1_0000_0000_0000_0000 == n / 390625
  {
    InverseTest(0x1_0000_0000_0000_0000, 390625, 0xc767074b22e90e21, n);
  }

  /** n is divisible by 10^8: goes on dividing the 32-bit quotient by 5. */
  method StripQuotient(n: U64, t: nat, cap: nat, candidate: U64) returns (stripped: U64, s: nat)
    requires 0 < n <= 0xFFFF_FFFF_FFFF_FFFF / 1000
    requires 8 <= t <= cap && TwosDivide(t, n) && (t == cap || t == Ctz(n))
    requires n % 390625 == 0 && candidate == n / 390625
    ensures Stripped(n, stripped, s, cap)
  {
    hide Pow, TwosDivide, WithoutFives, Stripped, ShiftRight, Ctz, TimesInverse5, TimesInverse25;
    QuotientParts(n, t, candidate);
    var quotient: Bigit := candidate / 256 % 0x1_0000_0000;
    ghost var m: nat := candidate;
    FiveOnce();
    s := 8;
    while s < t
      invariant 8 <= s <= t
      invariant WithoutFives(n, m, s) && TwosDivide(t, m) && m == 256 * quotient
    {
      Fifth(quotient);
      if TimesInverse5(quotient) > 0x33333333 {
        break;
      }
      QuotientStep(n, m, quotient, s, t);
      m := m / 5;
      quotient := TimesInverse5(quotient);
      s := s + 1;
    }
    assert s == t || m % 5 != 0;
    TwosDivideLess(t, s, m);
    Finished(n, m, s, cap);
    ShiftPast8(quotient, s);
    ShiftShrinks(quotient, s - 8);
    stripped := ShiftRight(quotient, s - 8);
  }

  lemma QuotientStep(n: nat, m: nat, quotient: nat, s: nat, t: nat)
    requires WithoutFives(n, m, s) && TwosDivide(t, m) && m == 256 * quotient && quotient % 5 == 0
    ensures WithoutFives(n, m / 5, s + 1) && TwosDivide(t, m / 5) && m / 5 == 256 * (quotient / 5)
  {
    hide Pow, TwosDivide, WithoutFives;
    FiveOnce();
    DivideOut(n, m, s, t, 1);
  }

  lemma QuotientParts(n: U64, t: nat, candidate: U64)
    requires 0 < n <= 0xFFFF_FFFF_FFFF_FFFF / 1000 && t >= 8 && TwosDivide(t, n)
    requires n % 390625 == 0 && candidate == n / 390625
    ensures WithoutFives(n, candidate, 8) && TwosDivide(t, candidate)
    ensures candidate / 256 < 0x1_0000_0000 && candidate == 256 * (candidate / 256)
  {
    FivePowers();
    assert n == 390625 * candidate;
    hide Pow, TwosDivide;
    OddFactorKeepsTwos(t, 390625, candidate);
    TwosDivideLess(t, 8, candidate);
    TwosShift(8, candidate);
    TwoTo8();
  }

  lemma ShiftPast8(q: nat, s: nat)
    requires s >= 8
    ensures ShiftRight(256 * q, s) == ShiftRight(q, s - 8)
  {
    PowPos(2, s - 8);
    PowAdd(2, 8, s - 8);
    TwoTo8();
    hide Pow;
    var p := Pow(2, s - 8);
    var k, r := q / p, q % p;
    assert q == k * p + r;
    Assoc(256, p, k);
    assert 256 * q == k * (256 * p) + 256 * r by {
      Assoc(k, 256, p);
      Swap(k, 256, p);
    }
    DivModUnique(256 * q, 256 * p, k, 256 * r);
  }

  /** n is not divisible by 10^8: strips the zeros of n mod 10^8. */
  method StripRemainder(n: U64, t: nat, cap: nat) returns (stripped: U64, s: nat)
    requires 0 < n <= 0xFFFF_FFFF_FFFF_FFFF / 1000
    requires t <= cap && 8 <= cap && TwosDivide(t, n) && (t == cap || t == Ctz(n))
    requires t >= 8 ==> n % 390625 != 0
    ensures Stripped(n, stripped, s, cap)
  {
    hide Pow, TwosDivide, WithoutFives, Stripped, ShiftRight, Ctz, TimesInverse5, TimesInverse25, Parts;
    var quotient: Bigit := n / 100000000;
    // 100000000 * quotient is a 32-bit product; the subtraction absorbs the wrap.
    SubtractWrapped(n, 100000000 * quotient);
    var remainder: Bigit := (n - 100000000 * quotient % 0x1_0000_0000) % 0x1_0000_0000;
    ghost var m: nat := n;
    PartsAtStart(n, t);
    s := 0;
    // Unrolled in the source: one step for each s.
    while s < 7 && s != t
      invariant s <= 7 && s <= t && m <= n
      invariant Parts(n, m, quotient, remainder, s, t)
    {
      Fifth(remainder);
      PartsFives(n, m, quotient, remainder, s, t);
      if TimesInverse5(remainder) > 0x33333333 {
        break;
      }
      PartsStep(n, m, quotient, remainder, s, t);
      remainder := TimesInverse5(remainder);
      m := m / 5;
      s := s + 1;
    }
    PartsEnd(n, m, quotient, remainder, s, t, cap);
    ShiftShrinks(m, s);
    stripped := ShiftRight(remainder, s) + quotient * Pow(10, 8 - s);
  }

  /** n without s fives, and its split into the remainder at hand and the untouched quotient. */
  ghost predicate Parts(n: nat, m: nat, quotient: nat, remainder: nat, s: nat, t: nat)
  {
    && s <= 7
    && WithoutFives(n, m, s) && TwosDivide(t, m)
    && m == remainder + quotient * HighPart(s)
    && TwosDivide(if t < 8 then t else 8, remainder)
  }

  lemma PartsAtStart(n: U64, t: nat)
    requires TwosDivide(t, n)
    ensures Parts(n, n, n / 100000000, n % 100000000, 0, t)
  {
    hide TwosDivide, WithoutFives, HighPart;
    NoFivesYet(n);
    HighPartStart(n);
    LowTwos(n, t);
  }

  lemma PartsFives(n: nat, m: nat, quotient: nat, remainder: nat, s: nat, t: nat)
    requires Parts(n, m, quotient, remainder, s, t)
    ensures m % 5 == remainder % 5
  {
    hide TwosDivide, WithoutFives, HighPart;
    HighPartStep(quotient, s);
  }

  lemma PartsStep(n: nat, m: nat, quotient: nat, remainder: nat, s: nat, t: nat)
    requires Parts(n, m, quotient, remainder, s, t) && s < 7 && remainder % 5 == 0
    ensures Parts(n, m / 5, quotient, remainder / 5, s + 1, t)
  {
    hide TwosDivide, WithoutFives, HighPart, Pow;
    HighPartStep(quotient, s);
    FiveOnce();
    DivideOut(n, m, s, t, 1);
    assert remainder == 5 * (remainder / 5);
    OddFactorKeepsTwos(if t < 8 then t else 8, 5, remainder / 5);
  }

  lemma PartsEnd(n: nat, m: nat, quotient: nat, remainder: nat, s: nat, t: nat, cap: nat)
    requires n > 0 && Parts(n, m, quotient, remainder, s, t) && s <= t <= cap && 8 <= cap
    requires t == cap || t == Ctz(n)
    requires t >= 8 ==> n % 390625 != 0
    requires s == t || s == 7 || m % 5 != 0
    ensures Stripped(n, ShiftRight(m, s), s, cap)
    ensures ShiftRight(m, s) == ShiftRight(remainder, s) + quotient * Pow(10, 8 - s)
  {
    hide TwosDivide, WithoutFives, HighPart, Pow, ShiftRight, Stripped, Ctz;
    if s == 7 && t >= 8 {
      NoEighthFive(n, m);
    }
    TwosDivideLess(t, s, m);
    TwosDivideLess(if t < 8 then t else 8, s, remainder);
    Finished(n, m, s, cap);
    ShiftBoth(m, remainder, quotient, s);
  }

  /** 10^8 / 5^s. */
  function HighPart(s: nat): nat
    requires s <= 8
  {
    256 * Pow(5, 8 - s)
  }

  lemma HighPartStart(n: U64)
    ensures n == n % 100000000 + n / 100000000 * HighPart(0)
  {
    FivePowers();
  }

  lemma HighPartStep(q: nat, s: nat)
    requires s < 8
    ensures q * HighPart(s) == 5 * (q * HighPart(s + 1))
  {
    PowNext(5, 7 - s);
    hide Pow;
    Assoc(5, q, HighPart(s + 1));
    Swap(5, q, HighPart(s + 1));
  }

  lemma SubtractWrapped(n: U64, y: nat)
    requires y <= n < y + 0x1_0000_0000
    ensures (n - y % 0x1_0000_0000) % 0x1_0000_0000 == n - y
  {
    assert n - y % 0x1_0000_0000 == (n - y) + 0x1_0000_0000 * (y / 0x1_0000_0000);
  }

  lemma LowTwos(n: nat, t: nat)
    requires TwosDivide(t, n)
    ensures TwosDivide(if t < 8 then t else 8, n % 100000000)
  {
    var a := if t < 8 then t else 8;
    TwosDivideLess(t, a, n);
    FivePowers();
    TwoTo8();
    PowAdd(2, a, 8 - a);
    PowPos(2, a);
    var p, c := Pow(2, a), Pow(2, 8 - a) * 390625;
    assert 100000000 == p * c by {
      Assoc(p, Pow(2, 8 - a), 390625);
    }
    var m: nat :| Product(p, m, n);
    hide Pow;
    var q := n / 100000000;
    assert q * (p * c) == p * (q * c) by {
      Assoc(q, p, c);
      Swap(q, p, c);
      Assoc(p, q, c);
    }
    var k := m - q * c;
    assert n % 100000000 == p * k by {
      Distrib(m, q * c, p);
    }
    if k < 0 {
      MulMono(p, k, -1);
    }
    assert Product(p, k, n % 100000000);
  }

  lemma NoEighthFive(n: nat, m: nat)
    requires WithoutFives(n, m, 7) && n % 390625 != 0
    ensures m % 5 != 0
  {
    FivePowers();
    assert n == 78125 * m;
  }

  lemma ShiftBoth(m: nat, remainder: nat, quotient: nat, s: nat)
    requires s <= 8 && m == remainder + quotient * HighPart(s) && TwosDivide(s, remainder)
    ensures ShiftRight(m, s) == ShiftRight(remainder, s) + quotient * Pow(10, 8 - s)
  {
    TwosShift(s, remainder);
    HighPartTwos(s);
    hide Pow, HighPart, ShiftRight, TwosDivide;
    var p, r, ten := Pow(2, s), ShiftRight(remainder, s), Pow(10, 8 - s);
    MulOut(quotient, p, ten, r);
    ShiftExact(s, r + quotient * ten, m);
  }

  lemma MulOut(quotient: int, p: int, ten: int, r: int)
    ensures p * r + quotient * (p * ten) == p * (r + quotient * ten)
  {
    Assoc(quotient, p, ten);
    Swap(quotient, p, ten);
    Distrib(r, quotient * ten, p);
  }

  lemma HighPartTwos(s: nat)
    requires s <= 8
    ensures HighPart(s) == Pow(2, s) * Pow(10, 8 - s)
  {
    PowTen(8 - s);
    PowAdd(2, s, 8 - s);
    TwoTo8();
    hide Pow;
    Swap(Pow(5, 8 - s), Pow(2, 8 - s), 1);
    Assoc(Pow(2, s), Pow(2, 8 - s), Pow(5, 8 - s));
  }
}
