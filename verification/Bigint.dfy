/**
 The multi-word integer used by exact decimal printing
 (include/spdlog/fmt/bundled/format-inl.h, class bigint).

 Machine arithmetic is written out: a cast to a 32-bit bigit is `% 2^32`, and a
 64-bit result that could leave its range is reduced `% 2^64`.
 */
module Bigints {
  import opened Powers
  import opened Digits
  import opened Alignment
  import opened Comparison
  import opened Columns

  class Bigint {
    var bigits: seq<Bigit>
    var exp: nat

    ghost function Value(): nat
      reads this
    {
      Num(bigits, exp)
    }

    predicate IsNormal()
      reads this
    {
      Normal(bigits)
    }

    function NumBigits(): nat
      reads this
    {
      |bigits| + exp
    }

    constructor ()
      ensures bigits == [] && exp == 0
    {
      bigits, exp := [], 0;
    }

    // ---- Assignment --------------------------------------------------------

    method AssignU64(n: U64)
      modifies this
      ensures Value() == n && exp == 0
      ensures n > 0 ==> IsNormal()
      ensures n == 0 ==> bigits == [0]
    {
      hide At, Val;
      var rest: U64 := n;
      bigits := [rest % 0x1_0000_0000];
      ValOne(bigits[0]);
      AtZero(n / 0x1_0000_0000, 0);
      AtNext(n / 0x1_0000_0000, 0);
      rest := rest / 0x1_0000_0000;
      while rest != 0
        invariant |bigits| > 0
        invariant Val(bigits) + At(rest, |bigits|) == n
        invariant n == 0 ==> bigits == [0] && rest == 0
        invariant n > 0 && rest == 0 ==> IsNormal()
        decreases rest
      {
        CarryStep(rest, |bigits|);
        ValSnoc(bigits, rest % 0x1_0000_0000);
        bigits := bigits + [rest % 0x1_0000_0000];
        rest := rest / 0x1_0000_0000;
      }
      AtZero(Val(bigits), |bigits|);
      exp := 0;
    }

    // ---- Multiplication and shifting ---------------------------------------

    method Multiply32(value: Bigit)
      modifies `bigits
      ensures Value() == old(Value()) * value
      ensures old(IsNormal()) && value > 0 ==> IsNormal()
      ensures old(bigits) == [0] ==> bigits == [0]
    {
      hide At, Val, Num;
      ghost var was := bigits;
      var carry: Bigit := 0;
      var i, n := 0, |bigits|;
      AtZero(0, 0);
      ValEmpty();
      while i < n
        invariant 0 <= i <= n == |bigits|
        invariant bigits[i..] == was[i..]
        invariant Val(bigits[..i]) + At(carry, i) == Val(was[..i]) * value
        invariant was == [0] ==> carry == 0 && bigits == [0]
      {
        ghost var prefix := bigits[..i];
        MulBound(bigits[i], value);
        var result: U64 := bigits[i] * value + carry;
        MulStep(i, Val(prefix), carry, Val(was[..i]), value, bigits[i],
                result % 0x1_0000_0000, result / 0x1_0000_0000);
        ValTake(was, i);
        bigits := bigits[i := result % 0x1_0000_0000];
        carry := result / 0x1_0000_0000;
        assert bigits[..i] == prefix;
        ValTake(bigits, i);
        i := i + 1;
      }
      assert bigits[..n] == bigits && was[..n] == was;
      GrownIsNormal(was, bigits, carry, value);
      AtZero(0, n);
      if carry != 0 {
        ValSnoc(bigits, carry);
        bigits := bigits + [carry];
      }
      ScaleNum(was, bigits, value, exp);
    }

    method Multiply64(value: U64)
      modifies `bigits
      ensures Value() == old(Value()) * value
      ensures old(IsNormal()) && value > 0 ==> IsNormal()
    {
      hide At, Val, Num;
      ghost var was := bigits;
      var lower: U64 := value % 0x1_0000_0000;
      var upper: U64 := value / 0x1_0000_0000;
      var carry: U64 := 0;
      var i, n := 0, |bigits|;
      AtZero(0, 0);
      ValEmpty();
      while i < n
        invariant 0 <= i <= n == |bigits|
        invariant bigits[i..] == was[i..]
        invariant Val(bigits[..i]) + At(carry, i) == Val(was[..i]) * value
      {
        ghost var prefix := bigits[..i];
        var result, carry' := MultiplyBigit(bigits[i], lower, upper, carry);
        MulStep(i, Val(prefix), carry, Val(was[..i]), value, bigits[i], result % 0x1_0000_0000, carry');
        ValTake(was, i);
        bigits := bigits[i := result % 0x1_0000_0000];
        carry := carry';
        assert bigits[..i] == prefix;
        ValTake(bigits, i);
        i := i + 1;
      }
      assert bigits[..n] == bigits && was[..n] == was;
      GrownIsNormal(was, bigits, carry, value);
      PushCarry(carry, Val(was) * value, Normal(was) && value > 0);
      ScaleNum(was, bigits, value, exp);
    }

    method PushCarry(c: U64, ghost target: nat, ghost normal: bool)
      requires Val(bigits) + At(c, |bigits|) == target
      requires normal && c == 0 ==> IsNormal()
      modifies `bigits
      ensures Val(bigits) == target
      ensures normal ==> IsNormal()
    {
      hide At, Val;
      var carry := c;
      while carry != 0
        invariant Val(bigits) + At(carry, |bigits|) == target
        invariant normal && carry == 0 ==> IsNormal()
        decreases carry
      {
        CarryLifts(bigits, target, carry);
        CarryStep(carry, |bigits|);
        ValSnoc(bigits, carry % 0x1_0000_0000);
        bigits := bigits + [carry % 0x1_0000_0000];
        carry := carry / 0x1_0000_0000;
        AtZero(0, |bigits|);
        NormalByValue(bigits);
      }
      AtZero(0, |bigits|);
    }

    /** operator<<=. */
    method ShiftLeft(shift: nat)
      modifies this
      ensures Value() == old(Value()) * Pow(2, shift)
      ensures old(IsNormal()) ==> IsNormal()
      ensures exp == old(exp) + shift / 32
    {
      hide At, Val, Pow, Num;
      ghost var was := bigits;
      exp := exp + shift / 32;
      var s := shift % 32;
      PowZero(2);
      if s == 0 {
        ShiftNum(was, bigits, old(exp), shift);
        return;
      }
      ghost var factor := Pow(2, s);
      var carry: Bigit := 0;
      var i, n := 0, |bigits|;
      PowPos(2, s);
      AtZero(0, 0);
      ValEmpty();
      while i < n
        invariant 0 <= i <= n == |bigits|
        invariant bigits[i..] == was[i..]
        invariant carry < factor && exp == old(exp) + shift / 32
        invariant Val(bigits[..i]) + At(carry, i) == Val(was[..i]) * factor
      {
        ghost var prefix := bigits[..i];
        var c, low := ShiftBigit(bigits[i], s, carry);
        MulStep(i, Val(prefix), carry, Val(was[..i]), factor, bigits[i], low, c);
        ValTake(was, i);
        bigits := bigits[i := low];
        carry := c;
        assert bigits[..i] == prefix;
        ValTake(bigits, i);
        i := i + 1;
      }
      assert bigits[..n] == bigits && was[..n] == was;
      GrownIsNormal(was, bigits, carry, factor);
      AtZero(0, n);
      if carry != 0 {
        ValSnoc(bigits, carry);
        bigits := bigits + [carry];
      }
      ShiftNum(was, bigits, old(exp), shift);
    }

    // ---- Subtraction -------------------------------------------------------

    method SubtractBits(index: nat, other: Bigit, borrow: Bigit) returns (borrow': Bigit)
      requires index < |bigits| && borrow <= 1
      modifies `bigits
      ensures |bigits| == old(|bigits|) && bigits == old(bigits)[index := bigits[index]]
      ensures old(bigits[index]) - other - borrow == bigits[index] - borrow' * 0x1_0000_0000
      ensures borrow' <= 1
    {
      WrappedDifference(bigits[index] - other - borrow);
      var result: U64 := (bigits[index] - other - borrow) % 0x1_0000_0000_0000_0000;
      bigits := bigits[index := result % 0x1_0000_0000];
      borrow' := result / 0x8000_0000_0000_0000;
    }

    method RemoveLeadingZeros()
      requires |bigits| > 0
      modifies `bigits
      ensures Val(bigits) == Val(old(bigits)) && Value() == old(Value())
      ensures IsNormal() || bigits == [0]
      ensures |bigits| <= old(|bigits|)
    {
      hide At, Val, Num;
      ghost var was := bigits;
      var top := |bigits| - 1;
      assert bigits[..top + 1] == bigits;
      while top > 0 && bigits[top] == 0
        invariant 0 <= top < |bigits| && bigits == was
        invariant Val(bigits[..top + 1]) == Val(bigits)
      {
        ValTake(bigits, top);
        AtZero(0, top);
        top := top - 1;
      }
      bigits := bigits[..top + 1];
      NumSame(was, bigits, exp);
    }

    /**
     *this -= other. The final borrow loop never advances its index, so the
     result is too large by (2^32 - 1) * 2^(32 * k) exactly when the borrow
     meets a zero bigit at index k: see StuckBorrow.
     */
    method SubtractAligned(other: Bigint)
      requires other != this && other.exp >= exp && other.IsNormal()
      requires Value() >= other.Value()
      modifies `bigits
      ensures Value() == old(Value()) - other.Value()
                         + if old(StuckBorrow(bigits, exp, other.bigits, other.exp))
                           then At(0xFFFF_FFFF, other.NumBigits()) else 0
      ensures IsNormal() || bigits == [0]
      ensures |bigits| <= old(|bigits|)
    {
      hide At, Val, Num;
      ghost var was := bigits;
      ghost var off := other.exp - exp;
      var borrow: Bigit := 0;
      var i := other.exp - exp;
      var j, n := 0, |other.bigits|;
      ghost var k := off + n;
      AlignedSizes(bigits, exp, other.bigits, other.exp);
      AtZero(0, i);
      AtZero(0, off);
      ValEmpty();
      while j != n
        invariant 0 <= j <= n && i == off + j
        invariant |bigits| == |was| && bigits[i..] == was[i..]
        invariant borrow <= 1
        invariant Val(bigits) - At(borrow, i) + At(Val(other.bigits[..j]), off) == Val(was)
      {
        ghost var before, b := bigits, borrow;
        borrow := SubtractBits(i, other.bigits[j], borrow);
        SubtractStep(before, bigits[i], i, j, off, b, borrow, other.bigits[j], Val(other.bigits[..j]));
        ValTake(other.bigits, j);
        i, j := i + 1, j + 1;
      }
      assert other.bigits[..n] == other.bigits;
      ghost var mid := bigits;
      BorrowMeaning(was, mid, other.bigits, off, borrow);
      FacingNum(was[..k], other.bigits, off, exp);
      AtZero(0, k);
      ghost var extra := 0;
      if borrow > 0 {
        FacingNum(was, other.bigits, off, exp);
        BorrowFits(was, mid, other.bigits, off);
      }
      ghost var first := borrow;
      // i stays where it is: a zero bigit becomes 2^32 - 1 and is then decremented itself.
      while borrow > 0
        invariant borrow <= 1 && |bigits| == |mid| && (first > 0 ==> i < |mid|)
        invariant Val(bigits) - At(borrow, i) == Val(mid) - At(first, i) + At(extra, i)
        invariant if borrow == first && bigits == mid then extra == 0
                  else first == 1 && extra == (if mid[i] == 0 then 0xFFFF_FFFF else 0)
                       && (borrow > 0 ==> bigits[i] == 0xFFFF_FFFF)
        decreases borrow + if borrow > 0 && bigits[i] == 0 then 1 else 0
      {
        ghost var before, b := bigits, borrow;
        borrow := SubtractBits(i, 0, borrow);
        BorrowStep(before, i, bigits[i], b, borrow);
        AtSum(extra, borrow * 0xFFFF_FFFF, i);
        extra := extra + borrow * 0xFFFF_FFFF;
      }
      AtZero(0, i);
      DifferenceNum(was, bigits, other.bigits, off, extra, k, exp);
      AtZero(0, k + exp);
      RemoveLeadingZeros();
    }

    /** *this = *this * *this, column by column. */
    method Square()
      requires 0 < |bigits| < 0x4000_0000
      modifies this
      ensures Value() == old(Value()) * old(Value())
      ensures exp == 2 * old(exp)
      ensures IsNormal() || bigits == [0]
    {
      hide At, Val, Num, Cross, Sum;
      var n := bigits;
      var size := |n|;
      bigits := Zeros(2 * size);
      var sum := new Accumulator();
      var k := 0;
      AtZero(0, 0);
      ValEmpty();
      SumEmpty(n, n);
      assert bigits[..0] == [];
      while k < size
        invariant 0 <= k <= size && |bigits| == 2 * size && exp == old(exp)
        invariant sum.Total() <= size * 0x1_0000_0000
        invariant Val(bigits[..k]) + At(sum.Total(), k) == Sum(n, n, k)
      {
        ghost var before, carry := bigits[..k], sum.Total();
        SumColumn(n, k, 0, k + 1, sum);
        CloseColumn(n, k, Val(before), carry, sum.Total());
        var low := sum.Low();
        bigits := bigits[k := low];
        sum.ShiftRight32();
        assert bigits[..k] == before;
        ValTake(bigits, k);
        k := k + 1;
      }
      while k < 2 * size
        invariant size <= k <= 2 * size && |bigits| == 2 * size && exp == old(exp)
        invariant sum.Total() <= size * 0x1_0000_0000
        invariant Val(bigits[..k]) + At(sum.Total(), k) == Sum(n, n, k)
      {
        TopColumn(n, k);
        ghost var before, carry := bigits[..k], sum.Total();
        SumColumn(n, k, k - size + 1, size, sum);
        CloseColumn(n, k, Val(before), carry, sum.Total());
        var low := sum.Low();
        bigits := bigits[k := low];
        sum.ShiftRight32();
        assert bigits[..k] == before;
        ValTake(bigits, k);
        k := k + 1;
      }
      assert bigits[..2 * size] == bigits;
      SumIsProduct(n, n, 2 * size);
      SquareHasNoCarry(n, Val(bigits), sum.Total());
      AtZero(0, 2 * size);
      RemoveLeadingZeros();
      SquareNum(n, bigits, exp);
      exp := exp * 2;
    }

    /** If exp is larger than other's, appends low zero bigits to make them equal. */
    method Align(other: Bigint)
      modifies this
      ensures Value() == old(Value())
      ensures exp == if old(exp) > other.exp then other.exp else old(exp)
      ensures NumBigits() == old(NumBigits())
      ensures old(IsNormal()) ==> IsNormal()
      ensures |bigits| >= old(|bigits|)
    {
      hide At, Val, Num;
      if exp <= other.exp {
        return;
      }
      ghost var was := bigits;
      var d := exp - other.exp;
      var n := |bigits|;
      bigits := bigits + Zeros(d);
      var i, j := n - 1, n - 1 + d;
      while i >= 0
        invariant -1 <= i < n && j == i + d
        invariant |bigits| == n + d && exp == old(exp)
        invariant forall t :: 0 <= t <= i ==> bigits[t] == was[t]
        invariant forall t :: i < t < n ==> bigits[t + d] == was[t]
      {
        bigits := bigits[j := bigits[i]];
        i, j := i - 1, j - 1;
      }
      assert bigits[d..] == was;
      bigits := Zeros(d) + bigits[d..];
      exp := exp - d;
      assert bigits == Zeros(d) + was;
      PaddedNum(d, was, exp);
    }

    /**
     Divides by repeated subtraction: *this becomes the remainder. Correct unless
     the divisor is this number stored with extra low zero bigits, which the
     first comparison takes for a larger number.
     */
    method DivmodAssign(divisor: Bigint) returns (quotient: nat)
      requires divisor != this && divisor.IsNormal()
      requires TopFits(bigits, exp, divisor.bigits, divisor.exp)
      requires Value() < 0x8000_0000 * divisor.Value()
      modifies this
      ensures old(Value()) == quotient * divisor.Value() + Value()
      ensures Value() < divisor.Value() <==> !ShiftedCopy(divisor.bigits, divisor.exp, old(bigits), old(exp))
      ensures quotient < 0x8000_0000
      ensures TopFits(bigits, exp, divisor.bigits, divisor.exp)
      ensures quotient > 0 ==> IsNormal() || bigits == [0]
      ensures if quotient == 0 then bigits == old(bigits) && exp == old(exp) else exp <= divisor.exp
    {
      hide At, Val, Num;
      ghost var d := divisor.Value();
      ghost var start := Value();
      CopiesAreEqual(divisor.bigits, divisor.exp, bigits, exp);
      var c := Compare(this, divisor);
      if c < 0 {
        return 0;
      }
      CopiesAreEqual(bigits, exp, divisor.bigits, divisor.exp);
      NumBound(divisor.bigits, divisor.exp);
      Align(divisor);
      quotient := 0;
      while c >= 0
        invariant exp <= divisor.exp && |bigits| > 0
        invariant IsNormal() || NumBigits() <= divisor.NumBigits()
        invariant Value() <= start && start == quotient * d + Value()
        invariant c >= 0 <==> Value() >= d
        invariant c < 0 ==> quotient > 0
        invariant quotient > 0 ==> IsNormal() || bigits == [0]
        decreases Value()
      {
        OneExtraBigit(bigits, exp, divisor.bigits, divisor.exp);
        SubtractAligned(divisor);
        quotient := quotient + 1;
        Distrib(quotient - 1, 1, d);
        CopiesAreEqual(bigits, exp, divisor.bigits, divisor.exp);
        CopiesAreEqual(divisor.bigits, divisor.exp, bigits, exp);
        c := Compare(this, divisor);
      }
      if quotient >= 0x8000_0000 {
        MulMono(d, 0x8000_0000, quotient);
      }
    }

    /** One round of the exponentiation loop: 5^q becomes 5^(2q) or 5^(2q + 1). */
    method SquareAndMultiply(bit: bool, ghost q: nat)
      requires IsNormal() && exp == 0 && Value() == Pow(5, q) && q < 0x3FFF_FFFF
      modifies this
      ensures IsNormal() && exp == 0 && Value() == Pow(5, 2 * q + if bit then 1 else 0)
    {
      hide At, Val, Num, Pow;
      PowSize(bigits, 5, q);
      PowAdd(5, q, q);
      PowPos(5, q + q);
      PowNext(5, q + q);
      Square();
      ZeroNum(exp);
      if bit {
        Multiply32(5);
      }
    }

    /** *this = 10^e, by squaring 5^k and a final shift. */
    method AssignPow10(e: nat)
      requires e < 0x4000_0000
      modifies this
      ensures Value() == Pow(10, e) && IsNormal()
      ensures exp == e / 32
    {
      hide At, Val, Num, Pow, ShiftRight, HasBit;
      PowZero(10);
      if e == 0 {
        AssignU64(1);
        return;
      }
      var bitmask, k := TopBit(e);
      AssignU64(5);
      PowOne(5);
      UpperTop(e, k);
      ghost var q := 1;
      PowHalves(k);
      bitmask := bitmask / 2;
      while bitmask != 0
        invariant bitmask == if k == 0 then 0 else Pow(2, k - 1)
        invariant q == ShiftRight(e, k) <= e
        invariant exp == 0 && IsNormal() && Value() == Pow(5, q)
        decreases k
      {
        UpperStep(e, k - 1);
        SquareAndMultiply(HasBit(e, bitmask), q);
        k := k - 1;
        q := ShiftRight(e, k);
        PowHalves(k);
        bitmask := bitmask / 2;
      }
      if k > 0 {
        PowPos(2, k - 1);
      }
      UpperAll(e);
      PowTen(e);
      ShiftLeft(e);
    }
  }

  /** Which of the two is larger; exact unless one is a ShiftedCopy of the other. */
  method Compare(lhs: Bigint, rhs: Bigint) returns (r: int)
    requires TopFits(lhs.bigits, lhs.exp, rhs.bigits, rhs.exp)
    requires TopFits(rhs.bigits, rhs.exp, lhs.bigits, lhs.exp)
    ensures r == if ShiftedCopy(lhs.bigits, lhs.exp, rhs.bigits, rhs.exp) then 1
                 else if ShiftedCopy(rhs.bigits, rhs.exp, lhs.bigits, lhs.exp) then -1
                 else Sign(lhs.Value() - rhs.Value())
  {
    hide At, Val, Num, ShiftedCopy;
    var a, b := lhs.bigits, rhs.bigits;
    if lhs.NumBigits() != rhs.NumBigits() {
      if lhs.NumBigits() > rhs.NumBigits() {
        LongerIsAbove(a, lhs.exp, b, rhs.exp);
        return 1;
      }
      LongerIsAbove(b, rhs.exp, a, lhs.exp);
      return -1;
    }
    var i, j := |a| - 1, |b| - 1;
    var end := if i - j < 0 then 0 else i - j;
    while i >= end
      invariant end - 1 <= i < |a| && -1 <= j < |b|
      invariant i - j == |a| - |b|
      invariant forall t :: i < t < |a| ==> a[t] == b[t - (|a| - |b|)]
      decreases i
    {
      if a[i] != b[j] {
        if a[i] > b[j] {
          TopDiffers(a, lhs.exp, i, b, rhs.exp, j);
          return 1;
        }
        TopDiffers(b, rhs.exp, j, a, lhs.exp, i);
        return -1;
      }
      i, j := i - 1, j - 1;
    }
    if |a| >= |b| {
      TailsAgree(a, lhs.exp, b, rhs.exp);
    } else {
      TailsAgree(b, rhs.exp, a, lhs.exp);
    }
    if i != j {
      return if i > j then 1 else -1;
    }
    return 0;
  }

  /** The sign of lhs1 + lhs2 - rhs, without computing the sum. */
  method AddCompare(lhs1: Bigint, lhs2: Bigint, rhs: Bigint) returns (r: int)
    requires rhs.IsNormal()
    requires TopFits(lhs1.bigits, lhs1.exp, rhs.bigits, rhs.exp)
    requires TopFits(lhs2.bigits, lhs2.exp, rhs.bigits, rhs.exp)
    ensures r == Sign(lhs1.Value() + lhs2.Value() - rhs.Value())
  {
    hide At, Val, Num, High;
    var maxLhs := if lhs1.NumBigits() >= lhs2.NumBigits() then lhs1.NumBigits() else lhs2.NumBigits();
    var numRhs := rhs.NumBigits();
    ghost var a, ea, b, eb, c, ec := lhs1.bigits, lhs1.exp, lhs2.bigits, lhs2.exp, rhs.bigits, rhs.exp;
    if maxLhs + 1 < numRhs {
      SumIsShorter(a, ea, b, eb, c, ec);
      return -1;
    }
    if maxLhs > numRhs {
      if lhs1.NumBigits() > numRhs {
        NumLess(c, ec, a, ea);
      } else {
        NumLess(c, ec, b, eb);
      }
      return 1;
    }
    var borrow: U64 := 0;
    var minExp := if lhs1.exp <= lhs2.exp then lhs1.exp else lhs2.exp;
    minExp := if minExp <= rhs.exp then minExp else rhs.exp;
    var i := numRhs - 1;
    HighNothing(a, ea, numRhs);
    HighNothing(b, eb, numRhs);
    HighNothing(c, ec, numRhs);
    while i >= minExp
      invariant minExp - 1 <= i < numRhs
      invariant borrow == 0x1_0000_0000 * (High(c, ec, i + 1) - High(a, ea, i + 1) - High(b, eb, i + 1))
      invariant borrow == 0 || borrow == 0x1_0000_0000
      decreases i
    {
      HighStep(a, ea, i);
      HighStep(b, eb, i);
      HighStep(c, ec, i);
      PrefixesDecide(a, ea, b, eb, c, ec, i);
      var sum: U64 := BigitAt(lhs1.bigits, lhs1.exp, i) + BigitAt(lhs2.bigits, lhs2.exp, i);
      var rhsBigit := BigitAt(rhs.bigits, rhs.exp, i);
      if sum > rhsBigit + borrow {
        return 1;
      }
      borrow := rhsBigit + borrow - sum;
      if borrow > 1 {
        return -1;
      }
      borrow := borrow * 0x1_0000_0000;
      i := i - 1;
    }
    WholeDifference(a, ea, b, eb, c, ec, minExp);
    return if borrow != 0 then -1 else 0;
  }

  /** Two 64-bit words holding one 128-bit sum (struct accumulator). */
  class Accumulator {
    var lower: U64
    var upper: U64

    ghost function Total(): nat
      reads this
    {
      lower + 0x1_0000_0000_0000_0000 * upper
    }

    constructor ()
      ensures Total() == 0
    {
      lower, upper := 0, 0;
    }

    /** operator+=: the carry is seen from the wrapped low word; the sum itself wraps at 2^128. */
    method Add(n: U64)
      modifies this
      ensures Total() == (old(Total()) + n) % 0x1_0000_0000_0000_0000_0000_0000_0000_0000
    {
      lower := (lower + n) % 0x1_0000_0000_0000_0000;
      if lower < n {
        upper := (upper + 1) % 0x1_0000_0000_0000_0000;
      }
    }

    /** operator>>=(32); `upper << 32` drops the bits that stay in upper. */
    method ShiftRight32()
      modifies this
      ensures Total() == old(Total()) / 0x1_0000_0000
    {
      lower := (upper * 0x1_0000_0000) % 0x1_0000_0000_0000_0000 + lower / 0x1_0000_0000;
      upper := upper / 0x1_0000_0000;
    }

    /** The low bigit of the sum. */
    method Low() returns (r: Bigit)
      ensures r == Total() % 0x1_0000_0000
    {
      r := lower % 0x1_0000_0000;
    }
  }

  /** Adds the cross products n[i] * n[k - i] for lo <= i < hi to the accumulator. */
  method SumColumn(n: seq<Bigit>, k: nat, lo: nat, hi: nat, sum: Accumulator)
    requires lo <= hi <= |n| < 0x8000_0000 && hi <= k + 1 && k - lo < |n|
    requires sum.Total() <= |n| * 0x1_0000_0000
    modifies sum
    ensures sum.Total() == old(sum.Total()) + Cross(n, n, k, lo, hi)
    ensures sum.Total() <= |n| * 0x1_0000_0000_0000_0000
  {
    CrossBound(n, n, k, lo, hi);
    var i, j := lo, k - lo;
    while i < hi
      invariant lo <= i <= hi && j == k - i
      invariant sum.Total() == old(sum.Total()) + Cross(n, n, k, lo, i)
    {
      CrossBound(n, n, k, lo, i);
      MulBound(n[i], n[j]);
      var term: U64 := (n[i] as int) * n[j];
      sum.Add(term);
      i, j := i + 1, j - 1;
    }
  }

  /** Storing the low bigit of a column's sum and carrying the rest. */
  lemma CloseColumn(n: seq<Bigit>, k: nat, done: nat, carry: nat, total: nat)
    requires done + At(carry, k) == Sum(n, n, k)
    requires total == carry + Column(n, n, k)
    ensures done + At(total % 0x1_0000_0000, k) + At(total / 0x1_0000_0000, k + 1) == Sum(n, n, k + 1)
  {
    hide At, Column;
    CarryStep(total, k);
    AtSum(carry, Column(n, n, k), k);
  }

  /** The top bit of a positive int. */
  method TopBit(e: nat) returns (bitmask: nat, ghost k: nat)
    requires 0 < e < 0x4000_0000
    ensures bitmask == Pow(2, k) && bitmask <= e < 2 * bitmask
  {
    bitmask, k := 1, 0;
    while e >= bitmask
      invariant bitmask == Pow(2, k) > 0 && bitmask <= 2 * e
      invariant k > 0 ==> bitmask / 2 <= e
      decreases 2 * e - bitmask
    {
      bitmask, k := bitmask * 2, k + 1;
    }
    bitmask, k := bitmask / 2, k - 1;
  }

  /** Shifting one bigit left by s: what leaves at the top and what stays. */
  method ShiftBigit(x: Bigit, s: nat, carry: Bigit) returns (out: Bigit, low: Bigit)
    requires 0 < s < 32 && carry < Pow(2, s)
    ensures low + 0x1_0000_0000 * out == x * Pow(2, s) + carry
    ensures out < Pow(2, s)
  {
    var t, f := Pow(2, 32 - s), Pow(2, s);
    SplitShift(s);
    hide *;
    ShiftBigitParts(x, t, f, carry);
    out := x / t;
    low := (x * f) % 0x1_0000_0000 + carry;
  }

  /** One step of the 32x64-bit product: neither the product nor the new carry leaves 64 bits. */
  method MultiplyBigit(x: Bigit, lower: Bigit, upper: Bigit, carry: U64) returns (result: U64, carry': U64)
    ensures result % 0x1_0000_0000 + 0x1_0000_0000 * carry' == x * (lower + 0x1_0000_0000 * upper) + carry
  {
    hide *;
    MulBound(x, lower);
    MulBound(x, upper);
    result := x * lower + carry % 0x1_0000_0000;
    carry' := x * upper + result / 0x1_0000_0000 + carry / 0x1_0000_0000;
    assert x * (lower + 0x1_0000_0000 * upper) == x * lower + 0x1_0000_0000 * (x * upper);
  }
}
