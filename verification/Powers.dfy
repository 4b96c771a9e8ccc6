/** Exponentiation, and the few facts about it that the bigint proofs need. */
module Powers {

  function Pow(b: nat, e: nat): nat
  {
    if e == 0 then 1 else b * Pow(b, e - 1)
  }

  lemma PowZero(b: nat)
    ensures Pow(b, 0) == 1
  {}

  lemma PowOne(b: nat)
    ensures Pow(b, 1) == b
  {
    assert Pow(b, 1) == b * Pow(b, 0);
  }

  lemma PowNext(b: nat, e: nat)
    ensures Pow(b, e + 1) == b * Pow(b, e)
  {}

  lemma {:induction false} PowPos(b: nat, e: nat)
    requires b > 0
    ensures Pow(b, e) > 0
  {
    if e > 0 {
      PowPos(b, e - 1);
    }
  }

  lemma {:induction false} PowAdd(b: nat, m: nat, n: nat)
    ensures Pow(b, m + n) == Pow(b, m) * Pow(b, n)
  {
    if m > 0 {
      PowAdd(b, m - 1, n);
      Assoc(b, Pow(b, m - 1), Pow(b, n));
    }
  }

  lemma {:induction false} PowMulBase(a: nat, b: nat, e: nat)
    ensures Pow(a * b, e) == Pow(a, e) * Pow(b, e)
  {
    if e > 0 {
      PowMulBase(a, b, e - 1);
      var x, y := Pow(a, e - 1), Pow(b, e - 1);
      assert (a * b) * (x * y) == (a * x) * (b * y) by {
        Assoc(a * b, x, y);
        Assoc(a, b, x);
        Assoc(a, x, b);
        Assoc(a * x, b, y);
      }
    }
  }

  lemma PowTen(e: nat)
    ensures Pow(10, e) == Pow(5, e) * Pow(2, e)
  {
    PowMulBase(5, 2, e);
    assert 5 * 2 == 10;
  }

  /** Pow(b, m)^n == b^(m * n). */
  lemma {:induction false} PowPow(b: nat, m: nat, n: nat)
    ensures m * n >= 0
    ensures Pow(Pow(b, m), n) == Pow(b, m * n)
  {
    if n > 0 {
      PowPow(b, m, n - 1);
      assert m * n == m + m * (n - 1);
      PowAdd(b, m, m * (n - 1));
    }
  }

  lemma {:induction false} PowMono(b: nat, m: nat, n: nat)
    requires b > 0 && m <= n
    ensures Pow(b, m) <= Pow(b, n)
  {
    if m < n {
      PowMono(b, m, n - 1);
      PowPos(b, n - 1);
      var x := Pow(b, n - 1);
      assert b * x >= x by { MulMono(x, 1, b); }
    }
  }

  lemma {:induction false} PowFiveOdd(n: nat)
    ensures Pow(5, n) % 2 == 1
  {
    if n > 0 {
      PowFiveOdd(n - 1);
    }
  }

  lemma TwoTo8()
    ensures Pow(2, 8) == 0x100
  {
    assert Pow(2, 4) == 16;
    PowAdd(2, 4, 4);
  }

  lemma TwoTo16()
    ensures Pow(2, 16) == 0x1_0000
  {
    TwoTo8();
    PowAdd(2, 8, 8);
  }

  lemma TwoTo32()
    ensures Pow(2, 32) == 0x1_0000_0000
  {
    hide Pow;
    TwoTo16();
    PowAdd(2, 16, 16);
  }

  lemma TwoTo60()
    ensures Pow(2, 60) == 0x1000_0000_0000_0000
  {
    hide Pow;
    TwoTo8();
    TwoTo16();
    TwoTo32();
    PowAdd(2, 32, 16);
    PowAdd(2, 48, 8);
    PowAdd(2, 56, 4);
    TwoTo4();
  }

  lemma TwoTo4()
    ensures Pow(2, 4) == 16
  {}

  /** n >> s. */
  function ShiftRight(n: nat, s: nat): (r: nat)
    ensures r > 0 <==> n >= Pow(2, s)
  {
    PowPos(2, s);
    n / Pow(2, s)
  }

  // ---- Products ----------------------------------------------------------

  lemma Assoc(x: int, y: int, z: int)
    ensures x * y * z == x * (y * z)
  {}

  lemma Swap(x: int, y: int, z: int)
    ensures x * y * z == x * z * y
  {}

  lemma MulMono(k: nat, x: int, y: int)
    requires x <= y
    ensures x * k <= y * k
    ensures k * x <= k * y
  {
    assert (y - x) * k >= 0;
    assert (y - x) * k == y * k - x * k;
  }

  lemma MulStrict(k: nat, x: int, y: int)
    requires k > 0 && x < y
    ensures x * k + k <= y * k
    ensures k * x + k <= k * y
  {
    MulMono(k, x + 1, y);
    assert (x + 1) * k == x * k + k;
  }

  lemma MulDistinct(k: nat, x: int, y: int)
    requires k > 0 && x != y
    ensures x * k != y * k
  {
    if x < y {
      MulStrict(k, x, y);
    } else {
      MulStrict(k, y, x);
    }
  }

  lemma MulPos(x: nat, y: nat)
    requires x > 0 && y > 0
    ensures x * y > 0
  {}

  lemma MulZero(x: int, k: int)
    ensures x == 0 ==> x * k == 0
  {}

  lemma Distrib(x: int, y: int, k: int)
    ensures (x + y) * k == x * k + y * k
    ensures (x - y) * k == x * k - y * k
  {}

  lemma DivModUnique(n: int, d: int, q: int, r: int)
    requires d > 0 && n == q * d + r && 0 <= r < d
    ensures n / d == q && n % d == r
  {
    var q', r' := n / d, n % d;
    assert n == q' * d + r';
    if q < q' {
      MulStrict(d, q, q');
    } else if q' < q {
      MulStrict(d, q', q);
    }
  }
}
