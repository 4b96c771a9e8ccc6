/** Lemmas about comparing scaled bigit sequences from the top down. */
module Comparison {
  import opened Powers
  import opened Digits
  import opened Alignment

  function Sign(x: int): int
  {
    if x > 0 then 1 else if x < 0 then -1 else 0
  }

  /**
   What comparison relies on: the operand has no leading zero, or is at least
   not longer than the other one (as a zero operand can be).
   */
  predicate TopFits(a: seq<Bigit>, ea: nat, b: seq<Bigit>, eb: nat)
  {
    Normal(a) || (|a| > 0 && |a| + ea <= |b| + eb)
  }

  /**
   a is b written with extra low zero bigits. The two are equal as numbers, but
   compare() breaks the tie by stored length.
   */
  predicate ShiftedCopy(a: seq<Bigit>, ea: nat, b: seq<Bigit>, eb: nat)
  {
    |a| + ea == |b| + eb && |a| > |b| && a == Zeros(|a| - |b|) + b
  }

  lemma NumSplit(s: seq<Bigit>, exp: nat, i: nat)
    requires i <= |s|
    ensures Num(s, exp) == Num(s[..i], exp) + Num(s[i..], exp + i)
  {
    hide At, Val;
    ValSplit(s, i);
    AtSum(Val(s[..i]), At(Val(s[i..]), i), exp);
    AtTwice(Val(s[i..]), i, exp);
  }

  lemma NumZero(s: seq<Bigit>, exp: nat)
    ensures Num(s, exp) == 0 <==> Val(s) == 0
  {
    hide At, Val;
    AtMono(0, Val(s), exp);
    AtZero(0, exp);
  }

  /** Shifted copies are equal as numbers; the longer one has the smaller exponent. */
  lemma CopiesAreEqual(a: seq<Bigit>, ea: nat, b: seq<Bigit>, eb: nat)
    ensures ShiftedCopy(a, ea, b, eb) ==> Num(a, ea) == Num(b, eb) && ea < eb
  {
    hide At, Val, Num;
    if ShiftedCopy(a, ea, b, eb) {
      PaddedNum(|a| - |b|, b, ea);
    }
  }

  /** 2^32 written with one bigit and exponent 1, and with two bigits. */
  lemma ShiftedCopyExample()
    ensures ShiftedCopy([0, 1], 0, [1], 1) && Num([0, 1], 0) == Num([1], 1)
  {
    assert Zeros(1) + [1] == [0, 1];
    CopiesAreEqual([0, 1], 0, [1], 1);
  }

  /** a denotes the larger number, and compare() sees it that way. */
  ghost predicate Above(a: seq<Bigit>, ea: nat, b: seq<Bigit>, eb: nat)
  {
    Num(a, ea) > Num(b, eb) && !ShiftedCopy(a, ea, b, eb) && !ShiftedCopy(b, eb, a, ea)
  }

  /** More bigits: larger. */
  lemma LongerIsAbove(a: seq<Bigit>, ea: nat, b: seq<Bigit>, eb: nat)
    requires |a| + ea > |b| + eb && Normal(a)
    ensures Above(a, ea, b, eb)
  {
    hide Num;
    NumLess(b, eb, a, ea);
  }

  /** The first differing bigit from the top decides. */
  lemma TopDiffers(a: seq<Bigit>, ea: nat, i: nat, b: seq<Bigit>, eb: nat, j: nat)
    requires i < |a| && j < |b| && i + ea == j + eb && i - j == |a| - |b|
    requires forall t :: i < t < |a| ==> a[t] == b[t - (|a| - |b|)]
    requires a[i] > b[j]
    ensures Above(a, ea, b, eb)
  {
    hide At, Val, Num, ShiftedCopy;
    assert a[i + 1..] == b[j + 1..];
    PartsAt(a, ea, i);
    PartsAt(b, eb, j);
    AtMono(b[j], a[i], i + ea);
    CopiesAreEqual(a, ea, b, eb);
    CopiesAreEqual(b, eb, a, ea);
  }

  /** Num split around index i: what is below stays below one unit of index i. */
  lemma PartsAt(s: seq<Bigit>, exp: nat, i: nat)
    requires i < |s|
    ensures Num(s, exp) == Num(s[..i], exp) + At(s[i], i + exp) + Num(s[i + 1..], exp + i + 1)
    ensures Num(s[..i], exp) < At(1, i + exp)
  {
    hide At, Val;
    NumSplit(s, exp, i + 1);
    NumSplit(s[..i + 1], exp, i);
    assert s[..i + 1][..i] == s[..i] && s[..i + 1][i..] == [s[i]];
    ValOne(s[i]);
    NumBound(s[..i], exp);
  }

  /** When the longer operand ends in the shorter one, only its low bigits count. */
  lemma TailsAgree(a: seq<Bigit>, ea: nat, b: seq<Bigit>, eb: nat)
    requires |a| >= |b| && |a| + ea == |b| + eb
    requires forall t :: |a| - |b| <= t < |a| ==> a[t] == b[t - (|a| - |b|)]
    ensures !ShiftedCopy(b, eb, a, ea)
    ensures |a| == |b| ==> Num(a, ea) == Num(b, eb) && !ShiftedCopy(a, ea, b, eb)
    ensures |a| > |b| ==> ShiftedCopy(a, ea, b, eb) || Above(a, ea, b, eb)
  {
    hide At, Val, Num;
    var d := |a| - |b|;
    NumSplit(a, ea, d);
    NumZero(a[..d], ea);
    ValZero(a[..d]);
    assert a[d..] == b;
    assert a == a[..d] + b;
    if Num(a, ea) == Num(b, eb) {
      assert a[..d] == Zeros(d);
    }
    CopiesAreEqual(a, ea, b, eb);
  }

  // ---- Prefixes: the number above bigit i ----------------------------------

  /** The bigit at absolute index i, zero outside the stored ones. */
  function BigitAt(s: seq<Bigit>, exp: nat, i: nat): Bigit
  {
    if exp <= i < exp + |s| then s[i - exp] else 0
  }

  /** Num(s, exp) without its bigits below absolute index i. */
  ghost function High(s: seq<Bigit>, exp: nat, i: nat): int
  {
    if i <= exp then At(Val(s), exp - i)
    else if i < exp + |s| then Val(s[i - exp..])
    else 0
  }

  lemma HighStep(s: seq<Bigit>, exp: nat, i: nat)
    ensures High(s, exp, i) == 0x1_0000_0000 * High(s, exp, i + 1) + BigitAt(s, exp, i)
  {
    hide At;
    if i < exp {
      AtNext(Val(s), exp - i - 1);
    } else if i < exp + |s| {
      var t := s[i - exp..];
      assert Val(t) == t[0] + 0x1_0000_0000 * Val(t[1..]);
      assert t[1..] == s[i - exp + 1..];
      AtZero(Val(s), 0);
      assert i == exp ==> t == s;
    } else {
      AtZero(Val(s), 0);
    }
  }

  lemma HighBounds(s: seq<Bigit>, exp: nat, i: nat)
    ensures At(High(s, exp, i), i) <= Num(s, exp) < At(High(s, exp, i) + 1, i)
    ensures i <= exp ==> At(High(s, exp, i), i) == Num(s, exp)
  {
    hide At, Val;
    if i <= exp {
      AtTwice(Val(s), exp - i, i);
      AtMono(High(s, exp, i), High(s, exp, i) + 1, i);
    } else if i < exp + |s| {
      NumSplit(s, exp, i - exp);
      NumBound(s[..i - exp], exp);
      AtSum(Val(s[i - exp..]), 1, i);
    } else {
      NumBound(s, exp);
      AtGrows(|s| + exp, i);
      AtZero(0, i);
    }
  }

  /** Numbers not longer than i bigits have nothing above i. */
  lemma HighNothing(s: seq<Bigit>, exp: nat, i: nat)
    requires |s| + exp <= i
    ensures High(s, exp, i) == 0
  {
    hide At;
    if i == exp {
      assert s == [];
      AtZero(Val(s), 0);
    }
  }

  /** The prefix difference decides the sign as soon as it leaves {0, 1}. */
  lemma PrefixesDecide(a: seq<Bigit>, ea: nat, b: seq<Bigit>, eb: nat, c: seq<Bigit>, ec: nat, i: nat)
    ensures High(c, ec, i) < High(a, ea, i) + High(b, eb, i) ==> Num(a, ea) + Num(b, eb) > Num(c, ec)
    ensures High(c, ec, i) > High(a, ea, i) + High(b, eb, i) + 1 ==> Num(a, ea) + Num(b, eb) < Num(c, ec)
  {
    hide *;
    HighBounds(a, ea, i);
    HighBounds(b, eb, i);
    HighBounds(c, ec, i);
    var ha, hb, hc := High(a, ea, i), High(b, eb, i), High(c, ec, i);
    AtSum(ha, hb, i);
    AtSum(ha + 1, hb + 1, i);
    AtMono(hc + 1, ha + hb, i);
    AtMono(ha + 1 + (hb + 1), hc, i);
  }

  /** Nothing is lost by scaling down to the smallest exponent. */
  lemma WholeDifference(a: seq<Bigit>, ea: nat, b: seq<Bigit>, eb: nat, c: seq<Bigit>, ec: nat, i: nat)
    requires i <= ea && i <= eb && i <= ec
    ensures var d := High(c, ec, i) - High(a, ea, i) - High(b, eb, i);
            (d == 0 ==> Num(a, ea) + Num(b, eb) == Num(c, ec)) && (d == 1 ==> Num(a, ea) + Num(b, eb) < Num(c, ec))
  {
    hide *;
    HighBounds(a, ea, i);
    HighBounds(b, eb, i);
    HighBounds(c, ec, i);
    var ha, hb, hc := High(a, ea, i), High(b, eb, i), High(c, ec, i);
    AtSum(ha, hb, i);
    AtMono(ha + hb, hc, i);
  }

  /** A sum of numbers more than one bigit shorter cannot reach c. */
  lemma SumIsShorter(a: seq<Bigit>, ea: nat, b: seq<Bigit>, eb: nat, c: seq<Bigit>, ec: nat)
    requires |a| + ea + 1 < |c| + ec && |b| + eb + 1 < |c| + ec && Normal(c)
    ensures Num(a, ea) + Num(b, eb) < Num(c, ec)
  {
    hide At, Val, Num;
    var n := |c| + ec;
    NumBound(a, ea);
    NumBound(b, eb);
    NumBound(c, ec);
    AtGrows(|a| + ea, n - 2);
    AtGrows(|b| + eb, n - 2);
    AtNext(1, n - 2);
  }

  /** A quotient below 2^32 leaves at most one bigit above the divisor, so no borrow gets stuck. */
  lemma OneExtraBigit(a: seq<Bigit>, ea: nat, b: seq<Bigit>, eb: nat)
    requires TopFits(a, ea, b, eb) && Normal(b)
    requires Num(a, ea) < 0x1_0000_0000 * Num(b, eb)
    ensures !StuckBorrow(a, ea, b, eb)
  {
    hide At, Val, Num;
    NumBound(a, ea);
    NumBound(b, eb);
    AtNext(1, |b| + eb);
    if Normal(a) {
      AtGrows(|a| + ea - 1, |b| + eb + 1);
    }
  }

  lemma ZeroNum(exp: nat)
    ensures Num([0], exp) == 0
  {
    ValOne(0);
    NumZero([0], exp);
  }

  /** A power of a one-bigit base needs no more bigits than its exponent, plus one. */
  lemma PowSize(s: seq<Bigit>, base: Bigit, q: nat)
    requires Normal(s) && Num(s, 0) == Pow(base, q)
    ensures |s| <= q + 1
  {
    hide At, Val, Num, Pow;
    PowAt(base, q);
    NumBound(s, 0);
    AtNext(1, q);
    AtMono(0, 1, q);
    AtGrows(|s| - 1, q + 1);
  }

  lemma {:induction false} PowAt(base: Bigit, q: nat)
    ensures Pow(base, q) <= At(1, q)
  {
    hide At;
    AtZero(1, 0);
    if q > 0 {
      PowAt(base, q - 1);
      AtNext(1, q - 1);
      MulMono(Pow(base, q - 1), base, 0x1_0000_0000);
    }
  }

  // ---- The bit mask of assign_pow10 ----------------------------------------

  lemma PowHalves(k: nat)
    ensures Pow(2, k) / 2 == if k == 0 then 0 else Pow(2, k - 1)
  {}

  lemma UpperTop(e: nat, k: nat)
    requires Pow(2, k) <= e < 2 * Pow(2, k)
    ensures ShiftRight(e, k) == 1
  {
    PowPos(2, k);
    DivModUnique(e, Pow(2, k), 1, e - Pow(2, k));
  }

  lemma UpperAll(e: nat)
    ensures ShiftRight(e, 0) == e
  {}

  /** Whether e & bit is non-zero, for a single bit. */
  predicate HasBit(e: nat, bit: nat)
    requires bit > 0
  {
    (e / bit) % 2 != 0
  }

  /** Reading one more bit. */
  lemma UpperStep(e: nat, k: nat)
    ensures Pow(2, k) > 0
    ensures ShiftRight(e, k) == 2 * ShiftRight(e, k + 1) + if HasBit(e, Pow(2, k)) then 1 else 0
    ensures ShiftRight(e, k) <= e
  {
    PowPos(2, k);
    PowNext(2, k);
    hide Pow;
    HalveMask(e, Pow(2, k));
  }

  lemma HalveMask(e: nat, bit: nat)
    requires bit > 0
    ensures e / bit == 2 * (e / (2 * bit)) + (e / bit) % 2
    ensures e / bit <= e
  {
    var x, r := e / bit, e % bit;
    assert e == x * bit + r;
    var h, m := x / 2, x % 2;
    Distrib(2 * h, m, bit);
    Swap(2, h, bit);
    Assoc(h, 2, bit);
    assert e == h * (2 * bit) + (m * bit + r);
    if m == 0 {
      DivModUnique(e, 2 * bit, h, r);
    } else {
      DivModUnique(e, 2 * bit, h, bit + r);
    }
    MulMono(x, 1, bit);
  }
}
