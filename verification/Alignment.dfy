/** Lemmas about carries, borrows and alignment of bigit sequences. */
module Alignment {
  import opened Powers
  import opened Digits

  function Zeros(n: nat): (z: seq<Bigit>)
    ensures |z| == n && forall i :: 0 <= i < n ==> z[i] == 0
  {
    seq(n, _ => 0)
  }

  // ---- Carries -------------------------------------------------------------

  /** A 32x32 product plus a 32-bit carry fits 64 bits, with room to spare. */
  lemma MulBound(x: Bigit, y: Bigit)
    ensures 0 <= x * y <= 0xFFFF_FFFF * 0xFFFF_FFFF
  {
    MulMono(y, x, 0xFFFF_FFFF);
    MulMono(x, 0, y);
  }

  /** One step of a multiply-with-carry loop at index i. */
  lemma MulStep(i: nat, prefix: int, carry: int, done: int, v: int, digit: int, low: int, carry': int)
    requires prefix + At(carry, i) == done * v
    requires low + 0x1_0000_0000 * carry' == digit * v + carry
    ensures prefix + At(low, i) + At(carry', i + 1) == (done + At(digit, i)) * v
  {
    hide *;
    AtSum(low, 0x1_0000_0000 * carry', i);
    AtNext(carry', i);
    AtSum(digit * v, carry, i);
    AtScale(digit, v, i);
    Distrib(done, At(digit, i), v);
  }

  /** Moving the low bigit of a carry out leaves the rest one index up. */
  lemma CarryStep(carry: nat, n: nat)
    ensures At(carry, n) == At(carry % 0x1_0000_0000, n) + At(carry / 0x1_0000_0000, n + 1)
  {
    hide *;
    AtSum(carry % 0x1_0000_0000, 0x1_0000_0000 * (carry / 0x1_0000_0000), n);
    AtNext(carry / 0x1_0000_0000, n);
  }

  /** Scaling by a positive factor keeps the top bigit non-zero, once the carry is accounted for. */
  lemma GrownIsNormal(before: seq<Bigit>, after: seq<Bigit>, carry: nat, v: nat)
    requires |after| == |before|
    requires Val(after) + At(carry, |after|) == Val(before) * v
    ensures Normal(before) && v > 0 && carry == 0 ==> Normal(after)
  {
    hide At, Val;
    if Normal(before) && v > 0 && carry == 0 {
      NormalByValue(before);
      MulMono(Val(before), 1, v);
      NormalByValue(after);
      AtZero(0, |after|);
    }
  }

  /** A non-zero carry lifts the total beyond what the bigits before it can hold. */
  lemma CarryLifts(before: seq<Bigit>, target: nat, carry: nat)
    requires carry > 0 && Val(before) + At(carry, |before|) == target
    ensures target >= At(1, |before|)
  {
    hide *;
    AtMono(1, carry, |before|);
  }

  /** Shifting by `shift` is scaling by 2^(shift % 32) and moving up shift / 32 bigits. */
  lemma ShiftParts(v: nat, exp: nat, shift: nat)
    ensures At(v * Pow(2, shift % 32), exp + shift / 32) == At(v, exp) * Pow(2, shift)
  {
    hide *;
    var q, s := shift / 32, shift % 32;
    WholeBigits(q);
    PowAdd(2, 32 * q, s);
    AtScale(v, Pow(2, s), exp + q);
    AtTwice(v, exp, q);
    AtScale(1, At(v, exp), q);
    Assoc(At(v, exp), At(1, q), Pow(2, s));
  }

  lemma WholeBigits(q: nat)
    ensures At(1, q) == Pow(2, 32 * q)
  {
    TwoTo32();
    PowPow(2, 32, q);
  }

  lemma ShiftNum(before: seq<Bigit>, after: seq<Bigit>, exp: nat, shift: nat)
    requires Val(after) == Val(before) * Pow(2, shift % 32)
    ensures Num(after, exp + shift / 32) == Num(before, exp) * Pow(2, shift)
  {
    hide At, Val, Pow;
    ShiftParts(Val(before), exp, shift);
  }

  lemma SplitShift(s: nat)
    requires 0 < s < 32
    ensures Pow(2, s) > 0 && Pow(2, 32 - s) > 0
    ensures Pow(2, s) * Pow(2, 32 - s) == 0x1_0000_0000
  {
    PowPos(2, 32 - s);
    PowPos(2, s);
    PowAdd(2, s, 32 - s);
    TwoTo32();
  }

  lemma ShiftBigitParts(x: Bigit, t: nat, f: nat, carry: Bigit)
    requires t > 0 && f > 0 && f * t == 0x1_0000_0000 && carry < f
    ensures 0 <= x / t < f
    ensures (x * f) % 0x1_0000_0000 + carry < 0x1_0000_0000
    ensures (x * f) % 0x1_0000_0000 + 0x1_0000_0000 * (x / t) == x * f
  {
    var q, r := x / t, x % t;
    assert x == q * t + r;
    if q >= f {
      MulMono(t, f, q);
    }
    Distrib(q * t, r, f);
    Assoc(q, t, f);
    assert x * f == 0x1_0000_0000 * q + r * f;
    MulStrict(f, r, t);
    MulMono(f, 0, r);
    DivModUnique(x * f, 0x1_0000_0000, q, r * f);
  }

  /** A difference that goes below zero shows in the low half and, through the wrap, in the top bit. */
  lemma WrappedDifference(d: int)
    requires -0x1_0000_0000 <= d < 0x1_0000_0000
    ensures var wrapped := d % 0x1_0000_0000_0000_0000;
      && wrapped % 0x1_0000_0000 == (if d >= 0 then d else d + 0x1_0000_0000)
      && wrapped / 0x8000_0000_0000_0000 == (if d >= 0 then 0 else 1)
  {
    var wrapped := if d >= 0 then d else d + 0x1_0000_0000_0000_0000;
    assert d % 0x1_0000_0000_0000_0000 == wrapped;
  }

  // ---- Borrows -------------------------------------------------------------

  /** The part of a that faces b once both are aligned. */
  function LowPart(a: seq<Bigit>, ea: nat, b: seq<Bigit>, eb: nat): seq<Bigit>
    requires ea <= eb
  {
    if |b| + eb - ea <= |a| then a[..|b| + eb - ea] else a
  }

  /**
   The input family on which the unadvanced borrow loop goes wrong: the part of
   a facing b is smaller than b, and the next bigit of a is zero.
   */
  ghost predicate StuckBorrow(a: seq<Bigit>, ea: nat, b: seq<Bigit>, eb: nat)
  {
    ea <= eb
    && |b| + eb - ea < |a|
    && a[|b| + eb - ea] == 0
    && Num(LowPart(a, ea, b, eb), ea) < Num(b, eb)
  }

  /** 2^64 - 1 is computed with a borrow that meets a zero bigit. */
  lemma StuckBorrowExample()
    ensures StuckBorrow([0, 0, 1], 0, [1], 0)
    ensures forall n: nat :: At(0xFFFF_FFFF, n) > 0
  {
    assert LowPart([0, 0, 1], 0, [1], 0) == [0];
    ValOne(0);
    ValOne(1);
    AtZero(1, 0);
    forall n: nat
      ensures At(0xFFFF_FFFF, n) > 0
    {
      AtMono(0, 0xFFFF_FFFF, n);
      AtZero(0, n);
    }
  }

  lemma AlignedSizes(a: seq<Bigit>, ea: nat, b: seq<Bigit>, eb: nat)
    requires Normal(b) && Num(a, ea) >= Num(b, eb)
    ensures |b| + eb <= |a| + ea
  {
    hide Num;
    if |a| + ea < |b| + eb {
      NumLess(a, ea, b, eb);
    }
  }

  lemma SubtractStep(s: seq<Bigit>, x: Bigit, i: nat, j: nat, off: nat,
                     borrow: Bigit, borrow': Bigit, digit: Bigit, sub: nat)
    requires i < |s| && i == off + j
    requires s[i] - digit - borrow == x - borrow' * 0x1_0000_0000
    ensures Val(s[i := x]) - At(borrow', i + 1) + At(sub + At(digit, j), off)
         == Val(s) - At(borrow, i) + At(sub, off)
  {
    hide *;
    var was: int := s[i];
    ValUpdate(s, i, x);
    AtSum(was - digit, borrow, i);
    AtSum(was, digit, i);
    AtSum(x, borrow' * 0x1_0000_0000, i);
    AtNext(borrow', i);
    AtSum(sub, At(digit, j), off);
    AtTwice(digit, j, off);
  }

  /** A round of the borrow loop that stays at index i; a borrow out of it comes back in at the same index. */
  lemma BorrowStep(s: seq<Bigit>, i: nat, x: Bigit, borrow: Bigit, borrow': Bigit)
    requires i < |s| && s[i] - borrow == x - borrow' * 0x1_0000_0000
    ensures Val(s[i := x]) - At(borrow', i) == Val(s) - At(borrow, i) + At(borrow' * 0xFFFF_FFFF, i)
  {
    hide *;
    ValUpdate(s, i, x);
    AtSum(x, borrow', i);
    AtSum(s[i], borrow, i);
    AtSum(x - borrow', borrow' * 0xFFFF_FFFF, i);
  }

  /** After the loop over b, the borrow says whether the facing part was smaller. */
  lemma BorrowMeaning(a: seq<Bigit>, a': seq<Bigit>, b: seq<Bigit>, off: nat, borrow: Bigit)
    requires |a| == |a'| && off + |b| <= |a| && borrow <= 1
    requires a'[off + |b|..] == a[off + |b|..]
    requires Val(a') - At(borrow, off + |b|) + At(Val(b), off) == Val(a)
    ensures borrow == 1 <==> Val(a[..off + |b|]) < At(Val(b), off)
  {
    hide *;
    var k := off + |b|;
    ValSplit(a, k);
    ValSplit(a', k);
    ValBound(a'[..k]);
    AtZero(0, k);
    var high := At(Val(a[k..]), k);
    assert high == At(Val(a'[k..]), k);
    if borrow == 1 {
      assert Val(a[..k]) == Val(a'[..k]) - At(1, k) + At(Val(b), off);
    } else {
      assert Val(a[..k]) == Val(a'[..k]) + At(Val(b), off);
    }
  }

  lemma BorrowFits(a: seq<Bigit>, a': seq<Bigit>, b: seq<Bigit>, off: nat)
    requires |a| == |a'| && off + |b| <= |a|
    requires Val(a) >= At(Val(b), off)
    requires Val(a') - At(1, off + |b|) + At(Val(b), off) == Val(a)
    ensures off + |b| < |a|
  {
    hide *;
    ValBound(a');
  }

  /** Lifts a difference of aligned bigit sequences to the numbers they denote. */
  lemma DifferenceNum(a: seq<Bigit>, r: seq<Bigit>, b: seq<Bigit>, off: nat, extra: int, k: nat, exp: nat)
    requires Val(r) == Val(a) - At(Val(b), off) + At(extra, k)
    ensures Num(r, exp) == Num(a, exp) - Num(b, off + exp) + At(extra, k + exp)
  {
    hide At, Val;
    AtTwice(Val(b), off, exp);
    AtTwice(extra, k, exp);
    AtSum(Val(a), At(Val(b), off), exp);
    AtSum(Val(a) - At(Val(b), off), At(extra, k), exp);
  }

  /** The facing parts compare alike before and after scaling. */
  lemma FacingNum(a: seq<Bigit>, b: seq<Bigit>, off: nat, exp: nat)
    ensures Val(a) < At(Val(b), off) <==> Num(a, exp) < Num(b, off + exp)
  {
    hide At, Val;
    AtTwice(Val(b), off, exp);
    AtMono(Val(a), At(Val(b), off), exp);
    AtMono(At(Val(b), off), Val(a), exp);
  }

  lemma PaddedNum(d: nat, s: seq<Bigit>, exp: nat)
    ensures Num(Zeros(d) + s, exp) == Num(s, exp + d)
  {
    hide At, Val;
    ValConcat(Zeros(d), s);
    ValZero(Zeros(d));
    AtTwice(Val(s), d, exp);
  }
}
