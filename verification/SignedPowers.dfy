/**
 Powers with exponents of either sign, kept as numerators and denominators of
 natural numbers, and what they say about a value in units of powers of ten.
 */
module SignedPowers {
  import opened Powers
  import opened Digits
  import opened Rounding
  import opened Dragon

  /** fp: the number f * 2^e. */
  datatype Fp = Fp(f: U64, e: int)

  /** The part of b^x that belongs into a numerator. */
  function Numer(b: nat, x: int): nat
  {
    if x >= 0 then Pow(b, x) else 1
  }

  lemma NumerPos(b: nat, x: int)
    requires b > 0
    ensures Numer(b, x) > 0
  {
    if x >= 0 {
      PowPos(b, x);
    }
  }

  /** b^x * b^y * b^z == 1, without dividing. */
  lemma Balance(b: nat, x: int, y: int, z: int)
    requires x + y + z == 0
    ensures Numer(b, x) * Numer(b, y) * Numer(b, z) == Numer(b, -x) * Numer(b, -y) * Numer(b, -z)
  {
    PowZero(b);
    hide Pow;
    if x >= 0 && y >= 0 {
      PowAdd(b, x, y);
    } else if x >= 0 && z >= 0 {
      PowAdd(b, x, z);
    } else if y >= 0 && z >= 0 {
      PowAdd(b, y, z);
    } else if x <= 0 && y <= 0 {
      PowAdd(b, -x, -y);
    } else if x <= 0 && z <= 0 {
      PowAdd(b, -x, -z);
    } else {
      PowAdd(b, -y, -z);
    }
  }

  lemma NumerOne(b: nat, x: int)
    requires x <= 0
    ensures Numer(b, x) == 1
  {
    PowZero(b);
  }

  lemma NumerNat(b: nat, x: nat)
    ensures Numer(b, x) == Pow(b, x)
  {}

  /** value / 10^k in terms of Numer. */
  lemma Parts10(f: nat, e: int, k: int)
    ensures Above10(f, e, k) == f * Numer(2, e) * Numer(10, -k)
    ensures Below10(e, k) == Numer(2, -e) * Numer(10, k) > 0
  {
    PowZero(2);
    PowZero(10);
    NumerPos(2, -e);
    NumerPos(10, k);
    hide Pow;
    MulPos(Numer(2, -e), Numer(10, k));
  }

  lemma NumerForms(exp: int)
    ensures Numer(10, -exp) == Pow(10, if exp < 0 then -exp else 0)
    ensures Numer(10, exp) == Pow(10, if exp < 0 then 0 else exp)
  {
    PowZero(10);
  }

  lemma Four(x: int, y: int, u: int, v: int)
    ensures x * y * (u * v) == x * u * (y * v)
  {}

  /** Dragon4 rounds value * 10^m / 10^k; that is rounding the value in units of 10^(k - m). */
  lemma DragonRatio(f: nat, e: int, k: int, m: int, r: int)
    ensures HalfEven(Above10(f, e, k) * Numer(10, m), Below10(e, k) * Numer(10, -m), r)
       <==> HalfEven(Above10(f, e, k - m), Below10(e, k - m), r)
  {
    Parts10(f, e, k);
    Parts10(f, e, k - m);
    Balance(10, m - k, k, 0 - m);
    NumerPos(10, -m);
    hide Pow, Numer, Above10, Below10, HalfEven;
    MulPos(Below10(e, k), Numer(10, -m));
    ShiftedRatio(f, Numer(2, e), Numer(2, -e), Numer(10, -k), Numer(10, k),
                 Numer(10, -(k - m)), Numer(10, k - m), Numer(10, m), Numer(10, -m));
    HalfEvenRatio(Above10(f, e, k) * Numer(10, m), Below10(e, k) * Numer(10, -m),
                  Above10(f, e, k - m), Below10(e, k - m), r);
  }

  lemma ShiftedRatio(f: nat, a: nat, b: nat, k': nat, k: nat, l': nat, l: nat, m: nat, m': nat)
    requires l' * k * m' == l * k' * m
    ensures f * a * k' * m * (b * l) == f * a * l' * (b * k * m')
  {
    Four(f * a * k', m, b, l);
    Four(f * a, k', b, m * l);
    Assoc(f * a * b, k', m * l);
    assert f * a * k' * m * (b * l) == f * a * b * (l * k' * m) by {
      Swap(f * a, k', b);
      assert k' * (m * l) == l * k' * m;
    }
    assert f * a * l' * (b * k * m') == f * a * b * (l' * k * m') by {
      Assoc(b, k, m');
      Four(f * a, l', b, k * m');
      Assoc(l', k, m');
    }
  }

  /** The same number with w low zero bits moved into the exponent: a float promoted to double. */
  ghost predicate SameNumber(v: Fp, narrow: Fp)
  {
    exists w: nat :: v.f == narrow.f * Pow(2, w) && v.e == narrow.e - w
  }

  lemma NarrowRatio(v: Fp, narrow: Fp, k: int)
    requires SameNumber(v, narrow)
    ensures Above10(v.f, v.e, k) * Below10(narrow.e, k) == Above10(narrow.f, narrow.e, k) * Below10(v.e, k)
    ensures Below10(v.e, k) > 0 && Below10(narrow.e, k) > 0
  {
    var w: nat :| v.f == narrow.f * Pow(2, w) && v.e == narrow.e - w;
    hide Pow, Numer, Above10, Below10;
    Parts10(v.f, v.e, k);
    Parts10(narrow.f, narrow.e, k);
    Balance(2, w, narrow.e - w, 0 - narrow.e);
    NumerOne(2, 0 - w);
    NumerNat(2, w);
    MoveBits(narrow.f, Pow(2, w), Numer(2, v.e), Numer(2, -narrow.e), Numer(2, -v.e), Numer(2, narrow.e),
             Numer(10, -k), Numer(10, k));
  }

  lemma MoveBits(f: nat, w: nat, a: nat, b: nat, a': nat, b': nat, t: nat, u: nat)
    requires w * a * b == a' * b'
    ensures f * w * a * t * (b * u) == f * b' * t * (a' * u)
  {
    Four(f * w * a, t, b, u);
    Four(f * b', t, a', u);
    Assoc(f, w, a);
    Assoc(f, w * a, b);
    Assoc(f, b', a');
  }
}
