/** The number denoted by a little-endian sequence of 32-bit digits ("bigits"). */
module Digits {
  import opened Powers

  type Bigit = x: int | 0 <= x < 0x1_0000_0000
  type U64 = x: int | 0 <= x < 0x1_0000_0000_0000_0000

  /** v moved up by n bigits: v * 2^(32 * n). */
  function At(v: int, n: nat): int
  {
    v * Pow(0x1_0000_0000, n)
  }

  function Val(s: seq<Bigit>): nat
  {
    if s == [] then 0 else s[0] + 0x1_0000_0000 * Val(s[1..])
  }

  /** The number denoted by bigits scaled by 2^(32 * exp). */
  ghost function Num(s: seq<Bigit>, exp: nat): nat
  {
    PowPos(0x1_0000_0000, exp);
    At(Val(s), exp)
  }

  /** No leading zero; the form every non-zero bigint is kept in. */
  predicate Normal(s: seq<Bigit>)
  {
    |s| > 0 && s[|s| - 1] != 0
  }

  // ---- Moving up by whole bigits -------------------------------------------

  lemma AtZero(v: int, n: nat)
    ensures At(0, n) == 0 && At(v, 0) == v
  {}

  lemma AtSum(x: int, y: int, n: nat)
    ensures At(x + y, n) == At(x, n) + At(y, n)
    ensures At(x - y, n) == At(x, n) - At(y, n)
  {
    Distrib(x, y, Pow(0x1_0000_0000, n));
  }

  /** A carry of one bigit is worth one at the next index. */
  lemma AtNext(c: int, n: nat)
    ensures At(0x1_0000_0000 * c, n) == At(c, n + 1)
    ensures 0x1_0000_0000 * At(c, n) == At(c, n + 1)
  {
    Assoc(0x1_0000_0000, c, Pow(0x1_0000_0000, n));
    Swap(c, 0x1_0000_0000, Pow(0x1_0000_0000, n));
  }

  lemma AtScale(x: int, v: int, n: nat)
    ensures At(x * v, n) == At(x, n) * v
    ensures At(v * x, n) == At(x, n) * v
  {
    Swap(x, v, Pow(0x1_0000_0000, n));
  }

  lemma AtTwice(x: int, m: nat, n: nat)
    ensures At(At(x, m), n) == At(x, m + n)
  {
    PowAdd(0x1_0000_0000, m, n);
    Assoc(x, Pow(0x1_0000_0000, m), Pow(0x1_0000_0000, n));
  }

  lemma AtMono(x: int, y: int, n: nat)
    ensures x <= y ==> At(x, n) <= At(y, n)
    ensures x < y ==> At(x, n) + At(1, n) <= At(y, n)
    ensures 0 < At(1, n)
  {
    var w := Pow(0x1_0000_0000, n);
    PowPos(0x1_0000_0000, n);
    if x < y {
      MulStrict(w, x, y);
    }
  }

  lemma AtGrows(m: nat, n: nat)
    ensures m <= n ==> At(1, m) <= At(1, n)
    ensures At(1, m) < At(1, n) ==> m < n
  {
    if m <= n {
      PowMono(0x1_0000_0000, m, n);
    } else {
      PowMono(0x1_0000_0000, n, m);
    }
  }

  // ---- Values of sequences -------------------------------------------------

  lemma {:induction false} ValConcat(a: seq<Bigit>, b: seq<Bigit>)
    ensures Val(a + b) == Val(a) + At(Val(b), |a|)
  {
    hide At;
    AtZero(Val(b), 0);
    if a == [] {
      assert a + b == b;
    } else {
      ValConcat(a[1..], b);
      assert (a + b)[1..] == a[1..] + b;
      AtNext(Val(b), |a| - 1);
    }
  }

  lemma ValSplit(s: seq<Bigit>, i: nat)
    requires i <= |s|
    ensures Val(s) == Val(s[..i]) + At(Val(s[i..]), i)
  {
    hide *;
    assert s == s[..i] + s[i..];
    ValConcat(s[..i], s[i..]);
  }

  lemma ValEmpty()
    ensures Val([]) == 0
  {}

  lemma ValOne(x: Bigit)
    ensures Val([x]) == x
  {
    assert [x][1..] == [];
  }

  lemma ValSnoc(s: seq<Bigit>, x: Bigit)
    ensures Val(s + [x]) == Val(s) + At(x, |s|)
  {
    hide *;
    ValConcat(s, [x]);
    ValOne(x);
  }

  /** Val of a prefix grown by one bigit. */
  lemma ValTake(s: seq<Bigit>, i: nat)
    requires i < |s|
    ensures Val(s[..i + 1]) == Val(s[..i]) + At(s[i], i)
  {
    hide *;
    assert s[..i + 1] == s[..i] + [s[i]];
    ValSnoc(s[..i], s[i]);
  }

  lemma ValUpdate(s: seq<Bigit>, i: nat, x: Bigit)
    requires i < |s|
    ensures Val(s[i := x]) == Val(s) + At(x, i) - At(s[i], i)
  {
    hide *;
    var t := s[i := x];
    ValSplit(s, i + 1);
    ValSplit(t, i + 1);
    ValTake(s, i);
    ValTake(t, i);
    assert t[..i] == s[..i] && t[i + 1..] == s[i + 1..];
  }

  lemma {:induction false} ValBound(s: seq<Bigit>)
    ensures Val(s) < At(1, |s|)
  {
    hide At;
    AtZero(1, 0);
    if s != [] {
      ValBound(s[1..]);
      AtNext(1, |s| - 1);
    }
  }

  /** Whether the top bigit is non-zero can be read off the value. */
  lemma NormalByValue(s: seq<Bigit>)
    requires |s| > 0
    ensures Normal(s) <==> Val(s) >= At(1, |s| - 1)
  {
    hide At, Val;
    var n := |s| - 1;
    ValTake(s, n);
    assert s[..n + 1] == s;
    ValBound(s[..n]);
    AtMono(1, s[n], n);
    AtZero(0, n);
  }

  lemma {:induction false} ValZero(s: seq<Bigit>)
    ensures Val(s) == 0 <==> forall i :: 0 <= i < |s| ==> s[i] == 0
  {
    if s != [] {
      ValZero(s[1..]);
      assert forall i :: 0 < i < |s| ==> s[i] == s[1..][i - 1];
      assert forall i :: 0 <= i < |s| - 1 ==> s[1..][i] == s[i + 1];
    }
  }

  // ---- Values of scaled sequences ------------------------------------------

  /** Num lies within the range its number of bigits allows. */
  lemma NumBound(s: seq<Bigit>, exp: nat)
    ensures Num(s, exp) < At(1, |s| + exp)
    ensures Normal(s) ==> Num(s, exp) >= At(1, |s| + exp - 1) > 0
  {
    hide At, Val;
    ValBound(s);
    AtTwice(1, |s|, exp);
    AtMono(Val(s), At(1, |s|), exp);
    if Normal(s) {
      NormalByValue(s);
      AtTwice(1, |s| - 1, exp);
      AtMono(At(1, |s| - 1), Val(s), exp);
      AtMono(0, 0, |s| + exp - 1);
    }
  }

  /** A number that needs fewer bigits is smaller. */
  lemma NumLess(a: seq<Bigit>, ea: nat, b: seq<Bigit>, eb: nat)
    requires |a| + ea < |b| + eb && Normal(b)
    ensures Num(a, ea) < Num(b, eb)
  {
    hide At, Val, Num;
    NumBound(a, ea);
    NumBound(b, eb);
    AtGrows(|a| + ea, |b| + eb - 1);
  }

  lemma NumSame(a: seq<Bigit>, b: seq<Bigit>, exp: nat)
    requires Val(a) == Val(b)
    ensures Num(a, exp) == Num(b, exp)
  {}

  /** Scaling the bigits scales the number. */
  lemma ScaleNum(before: seq<Bigit>, after: seq<Bigit>, v: nat, exp: nat)
    requires Val(after) == Val(before) * v
    ensures Num(after, exp) == Num(before, exp) * v
  {
    hide At, Val;
    AtScale(Val(before), v, exp);
  }
}
