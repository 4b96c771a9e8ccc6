/**
 Division by constants without dividing: the modular-inverse test for powers of
 five and the tables behind it
 (include/spdlog/fmt/bundled/format-inl.h, namespace dragonbox).
 */
module Divisibility {
  import opened Powers
  import opened Digits

  // ---- The test ------------------------------------------------------------

  /**
   For a divisor d with inverse inv modulo w, x * inv mod w is at most the
   largest quotient exactly when d divides x, and then it is the quotient.
   */
  lemma InverseTest(w: nat, d: nat, inv: nat, x: nat)
    requires 0 < d < w && x < w && d * inv % w == 1
    ensures x * inv % w <= (w - 1) / d <==> x % d == 0
    ensures x % d == 0 ==> x * inv % w == x / d
  {
    if x % d == 0 {
      DivisibleGivesQuotient(w, d, inv, x);
    }
    if x * inv % w <= (w - 1) / d {
      SmallGivesDivisible(w, d, inv, x);
    }
  }

  lemma DivisibleGivesQuotient(w: nat, d: nat, inv: nat, x: nat)
    requires 0 < d < w && x < w && d * inv % w == 1 && x % d == 0
    ensures x * inv % w == x / d <= (w - 1) / d
  {
    var q := x / d;
    assert x == d * q;
    QuotientBound(w - 1, d, q);
    Swap(d, q, inv);
    UnitTimes(w, d * inv, q);
    MulMono(q, 1, d);
    SmallMod(q, w);
  }

  lemma SmallGivesDivisible(w: nat, d: nat, inv: nat, x: nat)
    requires 0 < d < w && x < w && d * inv % w == 1
    requires x * inv % w <= (w - 1) / d
    ensures x % d == 0
  {
    var r := x * inv % w;
    TimesInverse(w, d, inv, x);
    ProductWithin(w - 1, d, r);
    SmallMod(d * r, w);
    SmallMod(x, w);
    MultipleHasNoRest(d, r);
  }

  /** Multiplying x * inv mod w back by d gives x. */
  lemma TimesInverse(w: nat, d: nat, inv: nat, x: nat)
    requires 0 < w && 0 < d && d * inv % w == 1
    ensures d * (x * inv % w) % w == x % w
  {
    var p := x * inv;
    var q, r := p / w, p % w;
    assert p == w * q + r;
    assert d * p == w * (d * q) + d * r by {
      assert d * (w * q) == w * (d * q);
    }
    AddMultiple(d * r, d * q, w);
    Swap(d, x, inv);
    assert d * p == d * inv * x by {
      Assoc(d, x, inv);
    }
    UnitTimes(w, d * inv, x);
  }

  /** u congruent to 1: u * x is congruent to x. */
  lemma UnitTimes(w: nat, u: nat, x: nat)
    requires w > 0 && u % w == 1
    ensures u * x % w == x % w
  {
    var q := u / w;
    assert u == w * q + 1;
    Distrib(w * q, 1, x);
    Assoc(w, q, x);
    AddMultiple(x, q * x, w);
  }

  lemma {:induction false} AddMultiple(x: int, k: nat, w: nat)
    requires w > 0
    ensures (x + w * k) % w == x % w
  {
    if k > 0 {
      AddMultiple(x, k - 1, w);
      assert x + w * k == x + w * (k - 1) + w;
      AddOne(x + w * (k - 1), w);
    }
  }

  lemma AddOne(y: int, w: nat)
    requires w > 0
    ensures (y + w) % w == y % w
  {
    var q, r := y / w, y % w;
    assert y + w == (q + 1) * w + r;
    DivModUnique(y + w, w, q + 1, r);
  }

  lemma SmallMod(x: nat, w: nat)
    requires x < w
    ensures x % w == x
  {
    DivModUnique(x, w, 0, x);
  }

  lemma QuotientBound(n: nat, d: nat, q: nat)
    requires d > 0 && d * q <= n
    ensures q <= n / d && d * q % d == 0
  {
    var t := n / d;
    assert n == t * d + n % d;
    if q > t {
      MulStrict(d, t, q);
    }
    DivModUnique(d * q, d, q, 0);
  }

  lemma ProductWithin(n: nat, d: nat, q: nat)
    requires d > 0 && q <= n / d
    ensures d * q <= n
  {
    MulMono(d, q, n / d);
  }

  lemma MultipleHasNoRest(d: nat, q: nat)
    requires d > 0
    ensures d * q % d == 0 && d * q / d == q
  {
    DivModUnique(d * q, d, q, 0);
  }

  // ---- The tables ----------------------------------------------------------

  datatype Entry = Entry(modInv: U64, maxQuotient: U64)

  function Row32(exp: nat): Entry
    requires exp <= 10
  {
    [Entry(0x00000001, 0xffffffff), Entry(0xcccccccd, 0x33333333),
     Entry(0xc28f5c29, 0x0a3d70a3), Entry(0x26e978d5, 0x020c49ba),
     Entry(0x3afb7e91, 0x0068db8b), Entry(0x0bcbe61d, 0x0014f8b5),
     Entry(0x68c26139, 0x000431bd), Entry(0xae8d46a5, 0x0000d6bf),
     Entry(0x22e90e21, 0x00002af3), Entry(0x3a2e9c6d, 0x00000897),
     Entry(0x3ed61f49, 0x000001b7)][exp]
  }

  function Row64(exp: nat): Entry
    requires exp <= 23
  {
    [Entry(0x0000000000000001, 0xffffffffffffffff),
     Entry(0xcccccccccccccccd, 0x3333333333333333),
     Entry(0x8f5c28f5c28f5c29, 0x0a3d70a3d70a3d70),
     Entry(0x1cac083126e978d5, 0x020c49ba5e353f7c),
     Entry(0xd288ce703afb7e91, 0x0068db8bac710cb2),
     Entry(0x5d4e8fb00bcbe61d, 0x0014f8b588e368f0),
     Entry(0x790fb65668c26139, 0x000431bde82d7b63),
     Entry(0xe5032477ae8d46a5, 0x0000d6bf94d5e57a),
     Entry(0xc767074b22e90e21, 0x00002af31dc46118),
     Entry(0x8e47ce423a2e9c6d, 0x0000089705f4136b),
     Entry(0x4fa7f60d3ed61f49, 0x000001b7cdfd9d7b),
     Entry(0x0fee64690c913975, 0x00000057f5ff85e5),
     Entry(0x3662e0e1cf503eb1, 0x000000119799812d),
     Entry(0xa47a2cf9f6433fbd, 0x0000000384b84d09),
     Entry(0x54186f653140a659, 0x00000000b424dc35),
     Entry(0x7738164770402145, 0x0000000024075f3d),
     Entry(0xe4a4d1417cd9a041, 0x000000000734aca5),
     Entry(0xc75429d9e5c5200d, 0x000000000170ef54),
     Entry(0xc1773b91fac10669, 0x000000000049c977),
     Entry(0x26b172506559ce15, 0x00000000000ec1e4),
     Entry(0xd489e3a9addec2d1, 0x000000000002f394),
     Entry(0x90e860bb892c8d5d, 0x000000000000971d),
     Entry(0x502e79bf1b6f4f79, 0x0000000000001e39),
     Entry(0xdcd618596be30fe5, 0x000000000000060b)][exp]
  }

  /** A row holds the inverse of its divisor and the largest quotient. */
  predicate ValidRow(w: nat, d: nat, row: Entry)
  {
    0 < d < w && d * row.modInv % w == 1 && row.maxQuotient == (w - 1) / d
  }

  lemma FivePowers()
    ensures Pow(5, 0) == 1 && Pow(5, 1) == 5 && Pow(5, 2) == 25 && Pow(5, 3) == 125
    ensures Pow(5, 4) == 625 && Pow(5, 5) == 3125 && Pow(5, 6) == 15625 && Pow(5, 7) == 78125
    ensures Pow(5, 8) == 390625 && Pow(5, 9) == 1953125 && Pow(5, 10) == 9765625
  {
    PowNext(5, 0); PowNext(5, 1); PowNext(5, 2); PowNext(5, 3); PowNext(5, 4);
    PowNext(5, 5); PowNext(5, 6); PowNext(5, 7); PowNext(5, 8); PowNext(5, 9);
  }

  lemma MoreFivePowers()
    ensures Pow(5, 11) == 48828125 && Pow(5, 12) == 244140625 && Pow(5, 13) == 1220703125
    ensures Pow(5, 14) == 6103515625 && Pow(5, 15) == 30517578125 && Pow(5, 16) == 152587890625
    ensures Pow(5, 17) == 762939453125 && Pow(5, 18) == 3814697265625 && Pow(5, 19) == 19073486328125
    ensures Pow(5, 20) == 95367431640625 && Pow(5, 21) == 476837158203125
    ensures Pow(5, 22) == 2384185791015625 && Pow(5, 23) == 11920928955078125
  {
    FivePowers();
    PowNext(5, 10); PowNext(5, 11); PowNext(5, 12); PowNext(5, 13); PowNext(5, 14); PowNext(5, 15);
    PowNext(5, 16); PowNext(5, 17); PowNext(5, 18); PowNext(5, 19); PowNext(5, 20); PowNext(5, 21); PowNext(5, 22);
  }

  lemma Rows32AreValid(exp: nat)
    requires exp <= 10
    ensures ValidRow(0x1_0000_0000, Pow(5, exp), Row32(exp))
  {
    FivePowers();
  }

  lemma Rows64AreValid(exp: nat)
    requires exp <= 23
    ensures ValidRow(0x1_0000_0000_0000_0000, Pow(5, exp), Row64(exp))
  {
    if exp <= 11 {
      LowRows64AreValid(exp);
    } else {
      HighRows64AreValid(exp);
    }
  }

  lemma LowRows64AreValid(exp: nat)
    requires exp <= 11
    ensures ValidRow(0x1_0000_0000_0000_0000, Pow(5, exp), Row64(exp))
  {
    FivePowers();
    PowNext(5, 10);
  }

  lemma HighRows64AreValid(exp: nat)
    requires 11 < exp <= 23
    ensures ValidRow(0x1_0000_0000_0000_0000, Pow(5, exp), Row64(exp))
  {
    MoreFivePowers();
  }

  function DivisibleByPowerOf5_32(x: Bigit, exp: nat): (r: bool)
    requires exp <= 10
    ensures Pow(5, exp) > 0
    ensures r <==> x % Pow(5, exp) == 0
  {
    Rows32AreValid(exp);
    InverseTest(0x1_0000_0000, Pow(5, exp), Row32(exp).modInv, x);
    x * Row32(exp).modInv % 0x1_0000_0000 <= Row32(exp).maxQuotient
  }

  function DivisibleByPowerOf5_64(x: U64, exp: nat): (r: bool)
    requires exp <= 23
    ensures Pow(5, exp) > 0
    ensures r <==> x % Pow(5, exp) == 0
  {
    Rows64AreValid(exp);
    InverseTest(0x1_0000_0000_0000_0000, Pow(5, exp), Row64(exp).modInv, x);
    x * Row64(exp).modInv % 0x1_0000_0000_0000_0000 <= Row64(exp).maxQuotient
  }
}
