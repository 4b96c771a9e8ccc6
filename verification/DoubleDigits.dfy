/**
 A double has no decimal digit beyond its 767th, which is what lets format_float
 cut longer precisions (include/spdlog/fmt/bundled/format-inl.h).
 */
module DoubleDigits {
  import opened Powers
  import opened Digits
  import opened Rounding
  import opened Dragon
  import opened SignedPowers

  lemma {:induction false} PowBaseMono(a: nat, b: nat, e: nat)
    requires a <= b
    ensures Pow(a, e) <= Pow(b, e)
  {
    if e > 0 {
      PowBaseMono(a, b, e - 1);
      MulMono(Pow(a, e - 1), a, b);
      MulMono(b, Pow(a, e - 1), Pow(b, e - 1));
    }
  }

  lemma FiveTo12()
    ensures Pow(5, 12) == 244140625 <= 0x1000_0000 == Pow(2, 28)
  {
    assert Pow(5, 6) == 15625;
    assert Pow(2, 4) == 16;
    TwoTo8();
    TwoTo16();
    hide Pow;
    PowAdd(5, 6, 6);
    PowAdd(2, 16, 8);
    PowAdd(2, 24, 4);
  }

  lemma FiveTo48()
    ensures Pow(5, 48) == 3552713678800500929355621337890625
    ensures Pow(5, 11) == 48828125
  {
    FiveTo12();
    hide Pow;
    PowAdd(5, 12, 12);
    PowAdd(5, 24, 24);
    PowNext(5, 11);
  }

  lemma TwoTo137()
    ensures Pow(2, 137) == 0x200_0000_0000_0000_0000_0000_0000_0000_0000
  {
    TwoTo32();
    TwoTo8();
    PowOne(2);
    hide Pow;
    PowAdd(2, 32, 32);
    PowAdd(2, 64, 64);
    PowAdd(2, 128, 8);
    PowAdd(2, 136, 1);
  }

  /** As good a bound of log2(5) as is needed: 137 / 59. */
  lemma FiveTo59()
    ensures Pow(5, 59) <= Pow(2, 137)
  {
    hide Pow;
    FiveTo48();
    TwoTo137();
    PowAdd(5, 48, 11);
  }

  lemma FiveTo307()
    ensures Pow(5, 307) <= Pow(2, 713)
  {
    FiveTo59();
    FiveTo12();
    hide Pow;
    PowPow(5, 59, 5);
    PowPow(2, 137, 5);
    PowBaseMono(Pow(5, 59), Pow(2, 137), 5);
    PowAdd(5, 295, 12);
    PowAdd(2, 685, 28);
    MulMono(Pow(5, 12), Pow(5, 295), Pow(2, 685));
    MulMono(Pow(2, 685), Pow(5, 12), Pow(2, 28));
  }

  lemma TwoTo54()
    ensures Pow(2, 54) == 0x40_0000_0000_0000
  {
    TwoTo32();
    TwoTo16();
    assert Pow(2, 6) == 64;
    hide Pow;
    PowAdd(2, 32, 16);
    PowAdd(2, 48, 6);
  }

  /** The smallest exponent of a double leaves just enough room. */
  lemma RoomFor767(n: nat)
    requires n <= 1074
    ensures Pow(2, 54) * Pow(5, n) <= Pow(10, 767)
  {
    hide Pow;
    FiveTo307();
    PowTen(767);
    PowAdd(5, 767, 307);
    PowMono(5, n, 1074);
    PowAdd(2, 54, 713);
    MulMono(Pow(2, 54), Pow(5, n), Pow(5, 1074));
    MulMono(Pow(2, 54), Pow(5, 307), Pow(2, 713));
    MulMono(Pow(5, 767), Pow(2, 54) * Pow(5, 307), Pow(2, 767));
    Assoc(Pow(2, 54), Pow(5, 767), Pow(5, 307));
    Swap(Pow(2, 54), Pow(5, 767), Pow(5, 307));
  }

  /** With -e bits after the point, the value has at most 767 + e digits before it. */
  lemma FractionFits(f: nat, e: int, k: int)
    requires f < 0x20_0000_0000_0000 && -1074 <= e < 0
    requires Below10(e, k - 1) < 2 * Above10(f, e, k - 1)
    ensures k <= 767 + e
  {
    var n: nat := -e;
    var t := k - 1 + n - 767;
    if t >= 0 {
      Parts10(f, e, k - 1);
      Balance(10, k - 1, n, 0 - (767 + t));
      NumerOne(2, e);
      NumerOne(10, e);
      NumerOne(10, 0 - (767 + t));
      NumerNat(2, n);
      NumerNat(10, n);
      NumerNat(10, 767 + t);
      NumerPos(10, 1 - k);
      hide Pow, Numer, Above10, Below10;
      PowMono(10, 767, 767 + t);
      RoomFor767(n);
      TwoTo54();
      PowTen(n);
      PowPos(5, n);
      PowPos(2, n);
      TooManyDigits(f, Pow(2, n), Numer(10, k - 1), Numer(10, 1 - k), Pow(5, n), Pow(10, n),
                    Pow(10, 767), Pow(10, 767 + t));
      assert false;
    }
  }

  lemma TooManyDigits(f: nat, two: nat, d: nat, u: nat, five: nat, ten: nat, q: nat, r: nat)
    requires f < 0x20_0000_0000_0000 && u > 0 && two > 0 && five > 0 && ten == five * two
    requires two * d < 2 * (f * 1 * u) && d * ten == u * r && q <= r
    ensures q < 0x40_0000_0000_0000 * five
  {
    var w := u * two;
    MulPos(five, two);
    MulPos(u, two);
    MulStrict(ten, two * d, 2 * (f * u));
    assert two * d * ten == r * w by {
      Assoc(two, d, ten);
      assert two * (u * r) == r * (u * two);
    }
    assert 2 * (f * u) * ten == 2 * f * five * w by {
      Assoc(2, f, u);
      Four(2 * f, u, five, two);
    }
    CancelLess(w, r, 2 * f * five);
    MulMono(five, 2 * f + 1, 0x40_0000_0000_0000);
  }

  lemma CancelLess(k: nat, x: int, y: int)
    requires x * k < y * k
    ensures x < y
  {
    if y <= x {
      MulMono(k, y, x);
    }
  }

  /** Without bits after the point, it has at most 767 digits in all. */
  lemma WholeFits(f: nat, e: nat, k: int)
    requires f < 0x20_0000_0000_0000 && e <= 971
    requires Below10(e, k - 1) < 2 * Above10(f, e, k - 1)
    ensures k <= 767
  {
    if k > 767 {
      Parts10(f, e, k - 1);
      var m: int := e;
      NumerOne(2, -m);
      NumerOne(10, 1 - k);
      NumerNat(2, e);
      NumerNat(10, k - 1);
      hide Pow, Numer, Above10, Below10;
      PowMono(10, 767, k - 1);
      EightTo767();
      PowMono(2, e, 971);
      TwoTo54();
      PowAdd(2, 54, 971);
      PowMono(2, 1025, 2301);
      MulMono(Pow(2, e), 2 * f, 0x40_0000_0000_0000);
      MulMono(0x40_0000_0000_0000, Pow(2, e), Pow(2, 971));
      Assoc(2, f, Pow(2, e));
      assert false;
    }
  }

  lemma EightTo767()
    ensures Pow(2, 2301) <= Pow(10, 767)
  {
    assert Pow(2, 3) == 8;
    hide Pow;
    PowPow(2, 3, 767);
    PowBaseMono(8, 10, 767);
  }

  /** The value of a double is a whole number of units of its 767th digit. */
  lemma LastDigit(f: nat, e: int, k: int) returns (q: nat)
    requires 0 < f < 0x20_0000_0000_0000 && -1074 <= e <= 971
    requires Below10(e, k - 1) < 2 * Above10(f, e, k - 1)
    ensures Above10(f, e, k - 767) == q * Below10(e, k - 767)
  {
    Parts10(f, e, k - 767);
    if e >= 0 {
      WholeFits(f, e, k);
      NumerOne(2, -e);
      NumerOne(10, k - 767);
      q := Above10(f, e, k - 767);
    } else {
      FractionFits(f, e, k);
      NumerOne(2, e);
      NumerOne(10, k - 767);
      NumerNat(2, -e);
      NumerNat(10, 767 - k);
      hide Pow, Numer, Above10, Below10;
      PowTen(767 - k);
      PowAdd(2, 767 - k + e, -e);
      q := f * (Pow(5, 767 - k) * Pow(2, 767 - k + e));
      Assoc(Pow(5, 767 - k), Pow(2, 767 - k + e), Pow(2, -e));
      Assoc(f, Pow(5, 767 - k) * Pow(2, 767 - k + e), Pow(2, -e));
    }
  }
}
