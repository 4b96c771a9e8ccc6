/**
 How format_float scales a value for Grisu (include/spdlog/fmt/bundled/format-inl.h):
 normalize, the product with a cached power of ten, and its error.
 */
module Scaling {
  import opened Powers
  import opened Digits
  import opened Rounding
  import opened Grisu
  import opened Dragon
  import opened SignedPowers
  import opened WideMultiply

  // ---- The scaled value ----------------------------------------------------

  /** g * 2^e * 10^cached is less than one unit of 2^-s away from f * 2^-s. */
  ghost predicate Scaled(g: nat, e: int, f: nat, s: nat, cached: int)
  {
    var n, d := Above10(g, e + s, -cached), Below10(e + s, -cached);
    (f - 1) * d < n < (f + 1) * d
  }

  /** The scaled value and the value itself, both in units of 10^exp before scaling. */
  lemma ScaledRatio(g: nat, e: int, s: nat, cached: int, exp: int)
    ensures Above10(g, e + s, -cached) * Numer(10, -exp) * Below10(e, exp - cached)
         == Above10(g, e, exp - cached) * (Numer(10, exp) * Pow(2, s) * Below10(e + s, -cached))
  {
    Parts10(g, e + s, -cached);
    Parts10(g, e, exp - cached);
    Balance(2, e + s, -e, 0 - s);
    NumerOne(2, 0 - s);
    Balance(10, cached, -exp, exp - cached);
    hide Pow, Numer, Above10, Below10;
    var a1, a2, b1, b2, w := Numer(2, e + s), Numer(2, -e), Numer(2, -(e + s)), Numer(2, e), Numer(2, s);
    var t1, t2, t3 := Numer(10, cached), Numer(10, -exp), Numer(10, exp - cached);
    var r1, r2, r3 := Numer(10, -cached), Numer(10, exp), Numer(10, -(exp - cached));
    Gather(g, a1, a2, b1, b2, w, t1, t2, t3, r1, r2, r3);
  }

  lemma Gather(g: int, a1: int, a2: int, b1: int, b2: int, w: int,
               t1: int, t2: int, t3: int, r1: int, r2: int, r3: int)
    requires a1 * a2 == b1 * b2 * w && t1 * t2 * t3 == r1 * r2 * r3
    ensures g * a1 * t1 * t2 * (a2 * t3) == g * b2 * r3 * (r2 * w * (b1 * r1))
  {
    Assoc(g * a1, t1, t2);
    Four(g * a1, t1 * t2, a2, t3);
    Assoc(g, a1, a2);
    Four(r2, w, r1, b1);
    Four(g * b2, r3, w * b1, r2 * r1);
    Assoc(g, b2, w * b1);
    assert b2 * (w * b1) == b1 * b2 * w;
    assert r3 * (r2 * r1) == r1 * r2 * r3;
  }

  /** A decimal nearest to everything within the error of f is the value, rounded half to even. */
  lemma NearestIsHalfEven(g: nat, e: int, f: nat, s: nat, cached: int, p: int, exp: int)
    requires Scaled(g, e, f, s, cached) && NearestDecimal(f, 1, s, p, exp)
    ensures HalfEven(Above10(g, e, exp - cached), Below10(e, exp - cached), p)
  {
    var n, d := Above10(g, e + s, -cached), Below10(e + s, -cached);
    var up, unit := Numer(10, -exp), Numer(10, exp) * Pow(2, s);
    NumerForms(exp);
    EndsByNearest(f, 1, s, p, exp, up, unit);
    ScaledRatio(g, e, s, cached, exp);
    Parts10(g, e + s, -cached);
    Parts10(g, e, exp - cached);
    NumerPos(10, -exp);
    NumerPos(10, exp);
    PowPos(2, s);
    MulPos(Numer(10, exp), Pow(2, s));
    hide Pow, Numer, Above10, Below10, HalfEven;
    InsideIsHalfEven(n, d, f, p, up, unit);
    MulPos(unit, d);
    HalfEvenRatio(Above10(g, e, exp - cached), Below10(e, exp - cached), n * up, unit * d, p);
  }

  lemma InsideIsHalfEven(n: nat, d: nat, f: int, p: int, up: nat, unit: nat)
    requires d > 0 && up > 0 && (f - 1) * d < n < (f + 1) * d
    requires 0 <= 2 * ((f - 1) * up - p * unit) + unit
    requires 2 * ((f + 1) * up - p * unit) <= unit
    ensures HalfEven(n * up, unit * d, p)
  {
    MulStrict(up, (f - 1) * d, n);
    MulStrict(up, n, (f + 1) * d);
    MulMono(d, 2 * ((f + 1) * up - p * unit), unit);
    MulMono(d, 0 - unit, 2 * ((f - 1) * up - p * unit));
    Swap(f - 1, d, up);
    Swap(f + 1, d, up);
    Distrib((f + 1) * up, p * unit, d);
    Distrib((f - 1) * up, p * unit, d);
    Assoc(p, unit, d);
    Assoc(2, (f + 1) * up - p * unit, d);
    Assoc(2, (f - 1) * up - p * unit, d);
  }

  /**
   What Grisu leaves behind when it gives up puts Dragon4 on the right decimal
   exponent: the value is below 10^(count - cached), and at least a tenth of that, up to one part in 2^32.
   */
  lemma RestartFits(g: nat, e: int, f: nat, s: nat, cached: int, count: nat)
    requires Scaled(g, e, f, s, cached) && count > 0
    requires 0x1_0000_0000 <= Pow(10, count - 1) * Pow(2, s) <= f < Pow(10, count) * Pow(2, s)
    ensures var k := count - cached - 1;
      0xFFFF_FFFF * Below10(e, k) < 0x1_0000_0000 * Above10(g, e, k) && Above10(g, e, k) < 10 * Below10(e, k)
  {
    var k := count - cached - 1;
    var n, d := Above10(g, e + s, -cached), Below10(e + s, -cached);
    var a, b, q := Above10(g, e, k), Below10(e, k), Pow(10, count - 1) * Pow(2, s);
    PowNext(10, count - 1);
    NumerForms(count - 1);
    NumerOne(10, 1 - count);
    Assoc(10, Pow(10, count - 1), Pow(2, s));
    ScaledRatio(g, e, s, cached, count - 1);
    Parts10(g, e + s, -cached);
    Parts10(g, e, k);
    hide Pow, Numer, Above10, Below10;
    CrossBounds(n, d, f, q, a, b);
  }

  lemma CrossBounds(n: nat, d: nat, f: nat, q: nat, a: nat, b: nat)
    requires d > 0 && b > 0 && 0x1_0000_0000 <= q <= f < 10 * q
    requires (f - 1) * d < n < (f + 1) * d && n * b == a * (q * d)
    ensures 0xFFFF_FFFF * b < 0x1_0000_0000 * a && a < 10 * b
  {
    var m := q * d;
    MulMono(d, f + 1, 10 * q);
    MulMono(d, 0xFFFF_FFFF * q, 0x1_0000_0000 * (f - 1));
    Assoc(10, q, d);
    Assoc(0xFFFF_FFFF, q, d);
    Assoc(0x1_0000_0000, f - 1, d);
    MulStrict(b, 0xFFFF_FFFF * m, 0x1_0000_0000 * n);
    MulStrict(b, n, 10 * m);
    MulPos(q, d);
    Assoc(0xFFFF_FFFF, m, b);
    Assoc(0x1_0000_0000, n, b);
    Assoc(10, m, b);
    assert m * b == b * m;
    if 0x1_0000_0000 * a <= 0xFFFF_FFFF * b {
      MulMono(m, 0x1_0000_0000 * a, 0xFFFF_FFFF * b);
      Assoc(0x1_0000_0000, a, m);
      Assoc(0xFFFF_FFFF, b, m);
    }
    if 10 * b <= a {
      MulMono(m, 10 * b, a);
      Assoc(10, b, m);
    }
  }

  // ---- Scaling by a cached power of ten ------------------------------------

  /** One entry of the table of powers of ten, with the decimal exponent it stands for. */
  datatype CachedPower = CachedPower(f: U64, e: int, exp10: int)
  {
    /** f * 2^e is 10^exp10, rounded to 64 bits. */
    ghost predicate Accurate() {
      var n, d := Above10(1, -e, -exp10), Below10(-e, -exp10);
      f >= 0x8000_0000_0000_0000 && 0 <= 2 * (f * d - n) + d && 2 * (f * d - n) <= d
    }
  }

  /** What get_cached_power promises for the smallest binary exponent it is asked for. */
  ghost predicate PowerFor(power: CachedPower, minExponent: int)
  {
    power.Accurate() && minExponent <= power.e <= minExponent + 28 && -348 <= power.exp10 <= 340
  }

  lemma TwoTo64()
    ensures Pow(2, 64) == 0x1_0000_0000_0000_0000
  {
    TwoTo32();
    hide Pow;
    PowAdd(2, 32, 32);
  }

  /** The same number with the top bit of the significand at bit 63. */
  function Normalized(v: Fp): (r: Fp)
    requires v.f > 0
    ensures r.f >= 0x8000_0000_0000_0000
    decreases 0x1_0000_0000_0000_0000 - v.f
  {
    if v.f >= 0x8000_0000_0000_0000 then v else Normalized(Fp(2 * v.f, v.e - 1))
  }

  lemma {:induction false} NormalizedBy(v: Fp) returns (m: nat)
    requires v.f > 0
    ensures Normalized(v).f == v.f * Pow(2, m) && Normalized(v).e == v.e - m
    ensures v.f < 0x20_0000_0000_0000 ==> 11 <= m <= 63
    decreases 0x1_0000_0000_0000_0000 - v.f
  {
    PowZero(2);
    if v.f >= 0x8000_0000_0000_0000 {
      m := 0;
    } else {
      var n := NormalizedBy(Fp(2 * v.f, v.e - 1));
      m := n + 1;
      PowNext(2, n);
      Assoc(v.f, 2, Pow(2, n));
      assert 2 * v.f == v.f * 2;
      ShiftRange(v.f, m);
    }
  }

  lemma ShiftRange(f: U64, m: nat)
    requires f > 0 && 0x8000_0000_0000_0000 <= f * Pow(2, m) < 0x1_0000_0000_0000_0000
    ensures f < 0x20_0000_0000_0000 ==> 11 <= m <= 63
  {
    TwoTo11();
    TwoTo64();
    PowNext(2, 10);
    hide Pow;
    if m >= 64 {
      PowMono(2, 64, m);
      MulMono(Pow(2, m), 1, f);
    }
    if m <= 10 && f < 0x20_0000_0000_0000 {
      PowMono(2, m, 10);
      MulMono(f, Pow(2, m), 0x400);
    }
  }

  /** A shift that brings the top bit to bit 63 is the one. */
  lemma {:induction false} ShiftedIsNormalized(v: Fp, m: nat)
    requires v.f > 0 && 0x8000_0000_0000_0000 <= v.f * Pow(2, m) < 0x1_0000_0000_0000_0000
    ensures Normalized(v) == Fp(v.f * Pow(2, m), v.e - m)
    decreases m
  {
    PowZero(2);
    if m > 0 {
      PowNext(2, m - 1);
      PowPos(2, m - 1);
      hide Pow;
      Assoc(v.f, 2, Pow(2, m - 1));
      assert 2 * v.f == v.f * 2;
      MulMono(2 * v.f, 1, Pow(2, m - 1));
      ShiftedIsNormalized(Fp(2 * v.f, v.e - 1), m - 1);
    }
  }

  /** normalize: up to bit 52 one by one, then by 11 more. */
  method Normalize(value: Fp) returns (r: Fp)
    requires 0 < value.f < 0x20_0000_0000_0000
    ensures r == Normalized(value)
  {
    r := value;
    while r.f / 0x10_0000_0000_0000 % 2 == 0
      invariant 0 < r.f < 0x20_0000_0000_0000 && Normalized(r) == Normalized(value)
      decreases 0x20_0000_0000_0000 - r.f
    {
      r := Fp(r.f * 2, r.e - 1);
    }
    TwoTo11();
    ShiftedIsNormalized(r, 11);
    r := Fp(r.f * 0x800, r.e - 11);
  }

  lemma TwoTo11()
    ensures Pow(2, 11) == 0x800
  {
    TwoTo8();
    PowAdd(2, 8, 3);
    assert Pow(2, 3) == 8;
  }

  /**
   The product of the normalized significand and a cached power is less than one
   unit away from the scaled value: this is the error of 1 that Grisu is told.
   */
  lemma ProductIsScaled(g: nat, e: int, m: nat, fn: U64, power: CachedPower, f: U64, s: nat)
    requires fn == g * Pow(2, m) && power.Accurate() && s == -(e - m + power.e + 64)
    requires f == Multiply(fn, power.f)
    ensures Scaled(g, e, f, s, power.exp10)
  {
    var c, x := power.exp10, m - power.e - 64;
    var n, d := Above10(g, x, -c), Below10(x, -c);
    var tn, td := Above10(1, -power.e, -c), Below10(-power.e, -c);
    Parts10(g, x, -c);
    Parts10(1, -power.e, -c);
    PowersOfTwo(m, power.e);
    hide Pow, Numer, Above10, Below10, Multiply;
    CollectPowers(g, Numer(2, x), Numer(2, -x), Numer(2, power.e), Numer(2, -power.e), 0x1_0000_0000_0000_0000,
                  Pow(2, m), Numer(10, c), Numer(10, -c));
    ErrorBounds(f, fn, power.f);
    UnitError(f, fn, power.f, tn, td, n, d);
  }

  lemma PowersOfTwo(m: nat, pe: int)
    ensures var e := m - pe - 64;
      Numer(2, e) * Numer(2, pe) * 0x1_0000_0000_0000_0000 == Numer(2, -e) * Numer(2, -pe) * Pow(2, m)
  {
    var e, y := m - pe - 64, pe + 64;
    NumerOne(2, 0 - m);
    NumerOne(2, -64);
    hide Pow, Numer;
    TwoTo64();
    Balance(2, e, y, 0 - m);
    Balance(2, pe, 64, 0 - y);
    NumerPos(2, y);
    NumerPos(2, -y);
    NumerNat(2, 64);
    NumerNat(2, m);
    CancelTwo(Numer(2, e), Numer(2, -e), Numer(2, pe), Numer(2, -pe), 0x1_0000_0000_0000_0000, Pow(2, m),
              Numer(2, y), Numer(2, -y));
  }

  lemma CancelTwo(a: nat, b: nat, p: nat, q: nat, w: nat, t: nat, y: nat, y': nat)
    requires y > 0 && y' > 0 && a * y == b * y' * t && p * w * y' == q * y
    ensures a * p * w == b * q * t
  {
    assert a * p * w * (y * y') == a * y * (p * w * y') by {
      Assoc(a, p, w);
      Four(a, p * w, y, y');
    }
    assert b * q * t * (y * y') == b * y' * t * (q * y) by {
      Swap(b, q, t);
      Four(b * t, q, y', y);
      Swap(b, t, y');
    }
    MulPos(y, y');
    Cancel(y * y', a * p * w, b * q * t);
  }

  lemma Cancel(k: nat, x: int, y: int)
    requires k > 0 && x * k == y * k
    ensures x == y
  {
    if x != y {
      MulDistinct(k, x, y);
    }
  }

  lemma CollectPowers(g: nat, a: nat, b: nat, p: nat, q: nat, w: nat, t: nat, c: nat, c': nat)
    requires a * p * w == b * q * t
    ensures g * a * c * (p * c') * w == g * t * (1 * q * c) * (b * c')
  {
    var k := g * c * c';
    assert g * a * c * (p * c') * w == k * (a * p * w) by {
      Swap(g, a, c);
      Four(g * c, a, c', p);
      Assoc(k, a * p, w);
    }
    assert g * t * (1 * q * c) * (b * c') == k * (b * q * t) by {
      Four(g, t, c, q);
      Four(g * c, t * q, c', b);
      assert t * q * b == b * q * t;
    }
  }

  /** Rounding the product half up is an error of at most half a unit. */
  lemma ErrorBounds(f: nat, x: U64, y: U64)
    requires f == Multiply(x, y)
    ensures 0x1_0000_0000_0000_0000 * (2 * f - 1) <= 2 * (x * y) <= 0x1_0000_0000_0000_0000 * (2 * f + 1)
  {}

  /** f is fn * power rounded, and power is tn / td rounded: together less than one unit. */
  lemma UnitError(f: nat, fn: U64, power: U64, tn: nat, td: nat, n: nat, d: nat)
    requires 0x1_0000_0000_0000_0000 * (2 * f - 1) <= 2 * (fn * power) <= 0x1_0000_0000_0000_0000 * (2 * f + 1)
    requires 0 <= 2 * (power * td - tn) + td && 2 * (power * td - tn) <= td && td > 0 && d > 0
    requires n * td * 0x1_0000_0000_0000_0000 == fn * tn * d
    ensures (f - 1) * d < n < (f + 1) * d
  {
    var w := 0x1_0000_0000_0000_0000;
    MulPos(w, td);
    MulStrict(td, fn, w);
    TableError(fn, power, tn, td);
    ProductError(f, fn * power, td, w);
    WithinOne(f, w * td, fn * tn, fn * td, fn * power * td);
    Regroup(fn * tn, n, td, d, w);
    CancelBounds(f, n, d, w * td, fn * tn);
  }

  lemma WithinOne(f: int, v: int, x: int, y: int, z: int)
    requires (2 * f - 1) * v <= 2 * z <= (2 * f + 1) * v
    requires 2 * x - y <= 2 * z <= 2 * x + y && y < v
    ensures (f - 1) * v < x < (f + 1) * v
  {
    var k := f * v;
    assert (2 * f - 1) * v == 2 * k - v && (2 * f + 1) * v == 2 * k + v;
    assert (f - 1) * v == k - v && (f + 1) * v == k + v;
  }

  lemma Regroup(x: int, n: int, td: int, d: int, w: int)
    requires n * td * w == x * d
    ensures x * d == n * (w * td)
  {}

  lemma ProductError(f: int, p: int, td: nat, w: nat)
    requires w * (2 * f - 1) <= 2 * p <= w * (2 * f + 1)
    ensures (2 * f - 1) * (w * td) <= 2 * (p * td) <= (2 * f + 1) * (w * td)
  {
    MulMono(td, w * (2 * f - 1), 2 * p);
    MulMono(td, 2 * p, w * (2 * f + 1));
    Reorder(w, 2 * f - 1, td);
    Reorder(w, 2 * f + 1, td);
    Assoc(2, p, td);
  }

  lemma Reorder(w: nat, x: int, td: nat)
    ensures w * x * td == x * (w * td)
  {}

  lemma TableError(fn: nat, power: nat, tn: nat, td: nat)
    requires 0 <= 2 * (power * td - tn) + td && 2 * (power * td - tn) <= td
    ensures 2 * (fn * tn) - fn * td <= 2 * (fn * power * td) <= 2 * (fn * tn) + fn * td
  {
    MulMono(fn, 2 * (power * td - tn), td);
    MulMono(fn, 0 - td, 2 * (power * td - tn));
    Assoc(fn, power, td);
    assert fn * (2 * (power * td - tn)) == 2 * (fn * (power * td)) - 2 * (fn * tn);
    assert fn * (0 - td) == 0 - fn * td;
  }

  lemma CancelBounds(f: int, n: nat, d: nat, v: nat, x: nat)
    requires v > 0 && d > 0 && (f - 1) * v < x < (f + 1) * v && x * d == n * v
    ensures (f - 1) * d < n < (f + 1) * d
  {
    MulStrict(d, (f - 1) * v, x);
    MulStrict(d, x, (f + 1) * v);
    Swap(f - 1, v, d);
    Swap(f + 1, v, d);
    if n <= (f - 1) * d {
      MulMono(v, n, (f - 1) * d);
    }
    if (f + 1) * d <= n {
      MulMono(v, (f + 1) * d, n);
    }
  }

  lemma NarrowIsScaled(v: Fp, narrow: Fp, f: nat, s: nat, cached: int)
    requires SameNumber(v, narrow) && Scaled(v.f, v.e, f, s, cached)
    ensures Scaled(narrow.f, narrow.e, f, s, cached)
  {
    var w: nat :| v.f == narrow.f * Pow(2, w) && v.e == narrow.e - w;
    var a, b := Fp(v.f, v.e + s), Fp(narrow.f, narrow.e + s);
    assert SameNumber(a, b);
    NarrowRatio(a, b, -cached);
    hide Above10, Below10;
    CancelBounds(f, Above10(b.f, b.e, -cached), Below10(b.e, -cached),
                 Below10(a.e, -cached), Above10(a.f, a.e, -cached));
  }

  /** What Grisu is given: f * 2^-s, about v * 10^cached. */
  datatype Scaling = Scaling(f: U64, s: nat, cached: int)

  /** cachedPower is get_cached_power on all exponents a double can ask for. */
  ghost predicate IsPowerTable(cachedPower: int -> CachedPower)
  {
    forall m :: -1084 <= m <= 1013 ==> PowerFor(cachedPower(m), m)
  }

  predicate IsDouble(v: Fp)
  {
    v.f < 0x20_0000_0000_0000 && -1074 <= v.e <= 971
  }

  /** The normalized value times the cached power that leaves 32 to 60 bits after the point. */
  function ScaleByPower(v: Fp, cachedPower: int -> CachedPower): (r: Scaling)
    requires v.f > 0 && IsDouble(v) && IsPowerTable(cachedPower)
    ensures 32 <= r.s <= 60 && r.f >= Pow(2, r.s)
    ensures Scaled(v.f, v.e, r.f, r.s, r.cached) && -348 <= r.cached <= 340
  {
    var normalized := Normalized(v);
    var power := cachedPower(-60 - (normalized.e + 64));
    ScaleIsRight(v, normalized, power);
    Scaling(Multiply(normalized.f, power.f), -(normalized.e + power.e + 64), power.exp10)
  }

  method ScaleValue(v: Fp, cachedPower: int -> CachedPower) returns (sc: Scaling)
    requires v.f > 0 && IsDouble(v) && IsPowerTable(cachedPower)
    ensures sc == ScaleByPower(v, cachedPower)
  {
    var normalized := Normalize(v);
    var power := cachedPower(-60 - (normalized.e + 64));
    ScaleIsRight(v, normalized, power);
    sc := Scaling(Multiply(normalized.f, power.f), -(normalized.e + power.e + 64), power.exp10);
  }

  lemma ScaleIsRight(v: Fp, normalized: Fp, power: CachedPower)
    requires v.f > 0 && IsDouble(v) && normalized == Normalized(v)
    requires -1084 <= -60 - (normalized.e + 64) <= 1013 ==> PowerFor(power, -60 - (normalized.e + 64))
    ensures -1084 <= -60 - (normalized.e + 64) <= 1013
    ensures var s := -(normalized.e + power.e + 64);
      && 32 <= s <= 60 && Multiply(normalized.f, power.f) >= Pow(2, s)
      && Scaled(v.f, v.e, Multiply(normalized.f, power.f), s, power.exp10)
  {
    hide Pow, Scaled, Multiply, Above10, Below10, Normalized;
    var m := NormalizedBy(v);
    var f, s := Multiply(normalized.f, power.f), -(normalized.e + power.e + 64);
    ErrorBounds(f, normalized.f, power.f);
    ProductFills(f, normalized.f, power.f);
    OneFits(s);
    ProductIsScaled(v.f, v.e, m, normalized.f, power, f, s);
  }

  lemma ProductFills(f: nat, x: U64, y: U64)
    requires x >= 0x8000_0000_0000_0000 && y >= 0x8000_0000_0000_0000
    requires 2 * (x * y) <= 0x1_0000_0000_0000_0000 * (2 * f + 1)
    ensures f >= 0x1000_0000_0000_0000
  {
    MulMono(y, 0x8000_0000_0000_0000, x);
  }
}
