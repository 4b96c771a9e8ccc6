/** Decimal digit strings and rounding half to even. */
module Rounding {
  import opened Powers

  predicate IsDigit(c: char)
  {
    '0' <= c <= '9'
  }

  predicate AllDigits(s: seq<char>)
  {
    forall i :: 0 <= i < |s| ==> IsDigit(s[i])
  }

  /** The number a digit string reads as; characters above '9' count as their offset from '0'. */
  function Decimal(s: seq<char>): int
  {
    if s == [] then 0 else 10 * Decimal(s[..|s| - 1]) + (s[|s| - 1] as int - '0' as int)
  }

  /** r is the integer nearest to n / d, the even one when two are equally near. */
  ghost predicate HalfEven(n: int, d: int, r: int)
  {
    d > 0
    && -d <= 2 * (n - r * d) <= d
    && (2 * (n - r * d) == d || 2 * (n - r * d) == -d ==> r % 2 == 0)
  }

  /** HalfEven singles out one integer. */
  lemma HalfEvenUnique(n: int, d: int, r: int, s: int)
    requires HalfEven(n, d, r) && HalfEven(n, d, s)
    ensures r == s
  {
    if r < s {
      OnlyNearest(n, d, r, s);
    }
    if s < r {
      OnlyNearest(n, d, s, r);
    }
  }

  lemma OnlyNearest(n: int, d: int, r: int, s: int)
    requires HalfEven(n, d, r) && r < s
    ensures !HalfEven(n, d, s)
  {
    Distrib(r, 1, d);
    if s > r + 1 {
      MulStrict(d, r + 1, s);
    }
  }

  lemma HalfEvenScale(n: nat, d: nat, k: nat, r: int)
    requires k > 0
    ensures HalfEven(n * k, d * k, r) <==> HalfEven(n, d, r)
  {
    MulZero(d, k);
    var x := n - r * d;
    assert n * k - r * (d * k) == x * k by {
      Assoc(r, d, k);
      Distrib(n, r * d, k);
    }
    Assoc(2, x, k);
    var e: int := d;
    ScaleOrder(2 * x, e, k);
    ScaleOrder(-e, 2 * x, k);
  }

  /** Rounding depends on the quotient only. */
  lemma HalfEvenRatio(n: nat, d: nat, n': nat, d': nat, r: int)
    requires d > 0 && d' > 0 && n * d' == n' * d
    ensures HalfEven(n, d, r) <==> HalfEven(n', d', r)
  {
    hide HalfEven;
    HalfEvenScale(n, d, d', r);
    HalfEvenScale(n', d', d, r);
    assert d * d' == d' * d;
  }

  lemma ScaleOrder(x: int, y: int, k: int)
    requires k > 0
    ensures x <= y <==> x * k <= y * k
    ensures x == y ==> x * k == y * k
  {
    if x <= y {
      MulMono(k, x, y);
    } else {
      MulStrict(k, y, x);
    }
  }

  lemma RoundUpwards(n: nat, d: nat, head: nat, rest: nat)
    requires n == head * d + rest && rest < d
    requires 2 * rest > d || (2 * rest == d && head % 2 != 0)
    ensures HalfEven(n, d, head + 1)
  {
    Distrib(head, 1, d);
  }

  lemma RoundDownwards(n: nat, d: nat, head: nat, rest: nat)
    requires n == head * d + rest && rest < d
    requires 2 * rest < d || (2 * rest == d && head % 2 == 0)
    ensures HalfEven(n, d, head)
  {}

  /** Rounding a fraction below 1 to 0 or 1. */
  lemma RoundToBit(n: nat, d: nat, r: int)
    requires n < d
    requires r == if 2 * n > d then 1 else 0
    ensures HalfEven(n, d, r)
  {}

  // ---- Digit strings -------------------------------------------------------

  lemma DecimalEmpty()
    ensures Decimal([]) == 0
  {}

  lemma DecimalPush(s: seq<char>, digit: nat)
    requires digit <= 10
    ensures Decimal(s + [('0' as int + digit) as char]) == 10 * Decimal(s) + digit
  {
    var t := s + [('0' as int + digit) as char];
    assert t[..|t| - 1] == s;
  }

  lemma DecimalOne(c: char)
    ensures Decimal([c]) == c as int - '0' as int
  {
    assert [c][..0] == [];
  }

  lemma {:induction false} DecimalConcat(a: seq<char>, b: seq<char>)
    ensures Decimal(a + b) == Decimal(a) * Pow(10, |b|) + Decimal(b)
  {
    if b == [] {
      assert a + b == a;
    } else {
      var b' := b[..|b| - 1];
      DecimalConcat(a, b');
      assert (a + b)[..|a + b| - 1] == a + b';
      PowNext(10, |b'|);
      hide Pow;
      Swap(10, Decimal(a), Pow(10, |b'|));
      Assoc(10, Decimal(a), Pow(10, |b'|));
      Assoc(10, Pow(10, |b'|), Decimal(a));
      assert Decimal(a) * (10 * Pow(10, |b'|)) == 10 * (Decimal(a) * Pow(10, |b'|)) by {
        Assoc(Decimal(a), 10, Pow(10, |b'|));
        Swap(Decimal(a), 10, Pow(10, |b'|));
      }
    }
  }

  /** Moving ten units of position i to one unit of position i - 1. */
  lemma DecimalCarry(s: seq<char>, i: nat)
    requires 0 < i < |s| && s[i] == ('0' as int + 10) as char && IsDigit(s[i - 1])
    ensures Decimal(s[i := '0'][i - 1 := (s[i - 1] as int + 1) as char]) == Decimal(s)
  {
    var t := s[i := '0'][i - 1 := (s[i - 1] as int + 1) as char];
    var head, head' := s[..i + 1], t[..i + 1];
    assert s == head + s[i + 1..];
    assert t == head' + s[i + 1..];
    DecimalConcat(head, s[i + 1..]);
    DecimalConcat(head', s[i + 1..]);
    assert head[..i] == s[..i] && s[..i][..i - 1] == s[..i - 1];
    assert head'[..i] == t[..i] && t[..i][..i - 1] == s[..i - 1];
  }

  lemma {:induction false} DecimalZeros(s: seq<char>)
    requires forall t :: 0 <= t < |s| ==> s[t] == '0'
    ensures Decimal(s) == 0
  {
    if s != [] {
      DecimalZeros(s[..|s| - 1]);
    }
  }

  /** 10 followed by zeros becomes 1 followed by zeros: a tenth of it. */
  lemma DecimalRoll(s: seq<char>)
    requires |s| > 0 && s[0] == ('0' as int + 10) as char
    requires forall t :: 0 < t < |s| ==> s[t] == '0'
    ensures 10 * Decimal(s[0 := '1']) == Decimal(s)
  {
    var rest := s[1..];
    assert s == [s[0]] + rest && s[0 := '1'] == ['1'] + rest;
    DecimalConcat([s[0]], rest);
    DecimalConcat(['1'], rest);
    DecimalOne(s[0]);
    DecimalOne('1');
    DecimalZeros(rest);
  }

  /** A one and zeros: what a carry through nines leaves. */
  lemma DecimalOneZeros(s: seq<char>)
    requires |s| > 0 && s[0] == '1' && forall t :: 0 < t < |s| ==> s[t] == '0'
    ensures Decimal(s) == Pow(10, |s| - 1)
  {
    assert s == ['1'] + s[1..];
    DecimalConcat(['1'], s[1..]);
    DecimalOne('1');
    DecimalZeros(s[1..]);
  }

  /** Decimal notation. */
  function ToString(n: nat): (s: string)
    ensures |s| > 0
  {
    if n < 10 then [('0' as int + n) as char]
    else ToString(n / 10) + [('0' as int + n % 10) as char]
  }

  lemma {:induction false} ToStringReads(n: nat)
    ensures Decimal(ToString(n)) == n && AllDigits(ToString(n))
    ensures n > 0 ==> ToString(n)[0] != '0'
  {
    if n < 10 {
      DecimalOne(('0' as int + n) as char);
    } else {
      ToStringReads(n / 10);
      DecimalPush(ToString(n / 10), n % 10);
    }
  }

  /** Digits without a leading zero are the notation of the number they read as. */
  lemma {:induction false} ToStringOf(s: string)
    requires s != "" && AllDigits(s) && (s[0] != '0' || |s| == 1)
    ensures Decimal(s) >= 0 && ToString(Decimal(s)) == s
  {
    var n := |s| - 1;
    if n == 0 {
      DecimalOne(s[0]);
      assert s == [s[0]];
    } else {
      ToStringOf(s[..n]);
      DecimalPositive(s[..n]);
      assert s == s[..n] + [s[n]];
    }
  }

  lemma {:induction false} DecimalPositive(s: string)
    requires s != "" && AllDigits(s) && s[0] != '0'
    ensures Decimal(s) > 0
  {
    if |s| == 1 {
      DecimalOne(s[0]);
      assert s == [s[0]];
    } else {
      DecimalPositive(s[..|s| - 1]);
    }
  }
}
