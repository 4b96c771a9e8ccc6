/**
 Column-wise multiplication: column k of a product of bigit sequences collects
 the cross products a[i] * b[k - i], and the columns add up to the product.
 */
module Columns {
  import opened Powers
  import opened Digits

  function Coef(s: seq<Bigit>, i: int): Bigit
  {
    if 0 <= i < |s| then s[i] else 0
  }

  /** The cross products of column k with lo <= i < hi. */
  function Cross(a: seq<Bigit>, b: seq<Bigit>, k: int, lo: int, hi: int): nat
    decreases hi - lo
  {
    if hi <= lo then 0 else Cross(a, b, k, lo, hi - 1) + Coef(a, hi - 1) * Coef(b, k - (hi - 1))
  }

  function Column(a: seq<Bigit>, b: seq<Bigit>, k: nat): nat
  {
    Cross(a, b, k, 0, k + 1)
  }

  /** The first n columns, each at its own weight. */
  function Sum(a: seq<Bigit>, b: seq<Bigit>, n: nat): int
  {
    if n == 0 then 0 else Sum(a, b, n - 1) + At(Column(a, b, n - 1), n - 1)
  }

  lemma SumEmpty(a: seq<Bigit>, b: seq<Bigit>)
    ensures Sum(a, b, 0) == 0
  {}

  // ---- Partial columns -----------------------------------------------------

  lemma {:induction false} CrossConcat(a: seq<Bigit>, b: seq<Bigit>, k: int, lo: int, mid: int, hi: int)
    requires lo <= mid <= hi
    ensures Cross(a, b, k, lo, hi) == Cross(a, b, k, lo, mid) + Cross(a, b, k, mid, hi)
    decreases hi - mid
  {
    if mid < hi {
      CrossConcat(a, b, k, lo, mid, hi - 1);
    }
  }

  lemma {:induction false} CrossNothing(a: seq<Bigit>, b: seq<Bigit>, k: int, lo: int, hi: int)
    requires forall i :: lo <= i < hi ==> Coef(a, i) == 0 || Coef(b, k - i) == 0
    ensures Cross(a, b, k, lo, hi) == 0
    decreases hi - lo
  {
    if lo < hi {
      CrossNothing(a, b, k, lo, hi - 1);
      assert Coef(a, hi - 1) == 0 || Coef(b, k - (hi - 1)) == 0;
    }
  }

  lemma {:induction false} CrossBound(a: seq<Bigit>, b: seq<Bigit>, k: int, lo: int, hi: int)
    requires lo <= hi
    ensures Cross(a, b, k, lo, hi) <= (hi - lo) * 0xFFFF_FFFE_0000_0001
    decreases hi - lo
  {
    if lo < hi {
      CrossBound(a, b, k, lo, hi - 1);
      MulMono(Coef(b, k - (hi - 1)), Coef(a, hi - 1), 0xFFFF_FFFF);
    }
  }

  /** A column of the top half has no terms outside the range the loop visits. */
  lemma TopColumn(s: seq<Bigit>, k: nat)
    requires |s| <= k < 2 * |s|
    ensures Cross(s, s, k, k - |s| + 1, |s|) == Column(s, s, k)
  {
    var lo, hi := k - |s| + 1, |s|;
    CrossConcat(s, s, k, 0, lo, k + 1);
    CrossConcat(s, s, k, lo, hi, k + 1);
    CrossNothing(s, s, k, 0, lo);
    CrossNothing(s, s, k, hi, k + 1);
  }

  // ---- The columns add up to the product -----------------------------------

  lemma {:induction false} CrossShift(a: seq<Bigit>, b: seq<Bigit>, k: int, hi: nat)
    requires a != []
    ensures Cross(a, b, k, 1, hi + 1) == Cross(a[1..], b, k - 1, 0, hi)
  {
    if hi > 0 {
      CrossShift(a, b, k, hi - 1);
      assert Coef(a, hi) == Coef(a[1..], hi - 1);
    }
  }

  lemma ColumnStep(a: seq<Bigit>, b: seq<Bigit>, k: nat)
    requires a != []
    ensures Column(a, b, k) == a[0] * Coef(b, k) + if k == 0 then 0 else Column(a[1..], b, k - 1)
  {
    CrossConcat(a, b, k, 0, 1, k + 1);
    assert Cross(a, b, k, 0, 1) == Cross(a, b, k, 0, 0) + Coef(a, 0) * Coef(b, k);
    if k > 0 {
      CrossShift(a, b, k, k);
    }
  }

  /** The value of b read coefficient by coefficient. */
  function Prefix(b: seq<Bigit>, n: nat): nat
  {
    if n <= |b| then Val(b[..n]) else Val(b)
  }

  lemma PrefixStep(b: seq<Bigit>, n: nat)
    ensures Prefix(b, n + 1) == Prefix(b, n) + At(Coef(b, n), n)
  {
    hide At, Val;
    AtZero(0, n);
    if n < |b| {
      ValTake(b, n);
    } else {
      assert b[..|b|] == b;
    }
  }

  lemma {:induction false} SumStep(a: seq<Bigit>, b: seq<Bigit>, n: nat)
    requires a != []
    ensures Sum(a, b, n + 1) == a[0] * Prefix(b, n + 1) + 0x1_0000_0000 * Sum(a[1..], b, n)
  {
    hide At, Column, Prefix, Val;
    var x := a[0];
    PrefixStep(b, n);
    ColumnStep(a, b, n);
    AtScale(Coef(b, n), x, n);
    Distrib(Prefix(b, n), At(Coef(b, n), n), x);
    if n > 0 {
      SumStep(a, b, n - 1);
      var c := Column(a[1..], b, n - 1);
      AtSum(x * Coef(b, n), c, n);
      AtNext(c, n - 1);
    } else {
      PrefixEmpty(b);
      assert Sum(a, b, 1) == At(Column(a, b, 0), 0) + Sum(a, b, 0);
    }
  }

  lemma PrefixEmpty(b: seq<Bigit>)
    ensures Prefix(b, 0) == 0
  {}

  /** All columns together are the product. */
  lemma {:induction false} SumIsProduct(a: seq<Bigit>, b: seq<Bigit>, n: nat)
    requires n >= |a| + |b|
    ensures Sum(a, b, n) == Val(a) * Val(b)
  {
    if a == [] {
      NoColumns(b, n);
    } else {
      SumIsProduct(a[1..], b, n - 1);
      SumStep(a, b, n - 1);
      assert Prefix(b, n) == Val(b) by {
        assert b[..|b|] == b;
      }
      hide *;
      ProductStep(a[0], Val(a[1..]), Val(b));
      ValHead(a);
    }
  }

  lemma ValHead(a: seq<Bigit>)
    requires a != []
    ensures Val(a) == a[0] + 0x1_0000_0000 * Val(a[1..])
  {}

  lemma ProductStep(x: int, y: int, z: int)
    ensures (x + 0x1_0000_0000 * y) * z == x * z + 0x1_0000_0000 * (y * z)
  {
    Distrib(x, 0x1_0000_0000 * y, z);
    Assoc(0x1_0000_0000, y, z);
  }

  lemma {:induction false} NoColumns(b: seq<Bigit>, n: nat)
    ensures Sum([], b, n) == 0
  {
    if n > 0 {
      NoColumns(b, n - 1);
      CrossNothing([], b, n - 1, 0, n);
      AtZero(0, n - 1);
    }
  }

  /** A carry left after all columns of a square would exceed the square. */
  lemma SquareHasNoCarry(s: seq<Bigit>, r: nat, carry: nat)
    requires r + At(carry, 2 * |s|) == Val(s) * Val(s)
    ensures carry == 0
  {
    hide *;
    var n := |s|;
    var w := At(1, n);
    ValBound(s);
    AtMono(1, carry, 2 * n);
    MulMono(Val(s), Val(s), w);
    MulStrictIfPositive(w, Val(s));
    AtScale(1, w, n);
    AtTwice(1, n, n);
  }

  lemma MulStrictIfPositive(w: nat, v: nat)
    requires v < w
    ensures v * w < w * w
  {
    MulStrict(w, v, w);
  }

  /** Squaring the bigits and doubling the exponent squares the number. */
  lemma SquareNum(before: seq<Bigit>, after: seq<Bigit>, exp: nat)
    requires Val(after) == Val(before) * Val(before)
    ensures Num(after, 2 * exp) == Num(before, exp) * Num(before, exp)
  {
    hide At, Val;
    var v := Val(before);
    AtTwice(v * v, exp, exp);
    AtScale(v, v, exp);
    AtScale(v, At(v, exp), exp);
  }
}
