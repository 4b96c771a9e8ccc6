/**
 Scanning of format strings (include/spdlog/fmt/bundled/core.h):
 parse_format_string in its two forms, and what it calls.
 Positions are indices into the string; a handler that throws ends the scan.
 */
module FormatScanner {
  import opened Powers
  import opened Rounding

  datatype ArgId = Auto | Index(n: int) | Name(name: string)

  /** What a scan produces, with literal text one character at a time. */
  datatype Item = Chr(c: char) | Field(id: ArgId) | FieldWithSpecs(id: ArgId, begin: nat, end: nat)

  /**
   The formatting side of the handler. It may look at all it was given so far.
   specEnd says where the format specs starting at a position end; a negative
   answer stands for an exception.
   */
  datatype Policy = Policy(accepts: (seq<Item>, ArgId) -> bool, specEnd: (seq<Item>, ArgId, nat) -> int)

  datatype Outcome = Failed | Parsed(items: seq<Item>)

  datatype FieldOutcome = BadField | GoodField(item: Item, next: nat)

  const INT_MAX := 0x7FFF_FFFF

  // ---- The language --------------------------------------------------------

  predicate IsNameStart(c: char)
  {
    'a' <= c <= 'z' || 'A' <= c <= 'Z' || c == '_'
  }

  /** The end of the longest run of digits from i. */
  function DigitsEnd(s: string, i: nat): (j: nat)
    requires i <= |s|
    ensures i <= j <= |s| && AllDigits(s[i..j]) && (j < |s| ==> !IsDigit(s[j]))
    decreases |s| - i
  {
    if i < |s| && IsDigit(s[i]) then
      var j := DigitsEnd(s, i + 1);
      assert s[i..j] == [s[i]] + s[i + 1..j];
      j
    else i
  }

  function NameEnd(s: string, i: nat): (j: nat)
    requires i <= |s|
    ensures i <= j <= |s|
    decreases |s| - i
  {
    if i < |s| && (IsNameStart(s[i]) || IsDigit(s[i])) then NameEnd(s, i + 1) else i
  }

  datatype IdOutcome = BadId | GoodId(id: ArgId, next: nat)

  /** An argument id at i: nothing, an index without leading zeros, or a name. */
  function ArgIdAt(s: string, i: nat): (r: IdOutcome)
    requires i < |s|
    ensures r.GoodId? ==> i <= r.next <= |s|
  {
    if s[i] == '}' || s[i] == ':' then GoodId(Auto, i)
    else if IsDigit(s[i]) then
      var j := if s[i] == '0' then i + 1 else DigitsEnd(s, i);
      if j == |s| || (s[j] != '}' && s[j] != ':') then BadId
      else
        var n := Decimal(s[i..j]);
        GoodId(Index(if n <= INT_MAX then n else INT_MAX), j)
    else if !IsNameStart(s[i]) then BadId
    else
      var j := NameEnd(s, i + 1);
      GoodId(Name(s[i..j]), j)
  }

  /** A replacement field that opens with the brace at i; a doubled brace is none. */
  function FieldAt(s: string, i: nat, out: seq<Item>, policy: Policy): (r: FieldOutcome)
    requires i < |s|
    ensures r.GoodField? ==> i < r.next <= |s|
  {
    if i + 1 == |s| then BadField
    else if s[i + 1] == '{' then GoodField(Chr('{'), i + 2)
    else
      var id := ArgIdAt(s, i + 1);
      if id.BadId? || id.next == |s| then BadField
      else if !policy.accepts(out, id.id) then BadField
      else if s[id.next] == '}' then GoodField(Field(id.id), id.next + 1)
      else if s[id.next] == ':' then
        var end := policy.specEnd(out, id.id, id.next + 1);
        if !(id.next + 1 <= end < |s|) || s[end] != '}' then BadField
        else GoodField(FieldWithSpecs(id.id, id.next + 1, end), end + 1)
      else BadField
  }

  /** What the string from i on means, after `out` has been produced. */
  function Meaning(s: string, i: nat, out: seq<Item>, policy: Policy): Outcome
    requires i <= |s|
    decreases |s| - i
  {
    if i == |s| then Parsed(out)
    else if s[i] == '{' then
      var f := FieldAt(s, i, out, policy);
      if f.BadField? then Failed else Meaning(s, f.next, out + [f.item], policy)
    else if s[i] == '}' then
      if i + 1 < |s| && s[i + 1] == '}' then Meaning(s, i + 2, out + [Chr('}')], policy) else Failed
    else Meaning(s, i + 1, out + [Chr(s[i])], policy)
  }

  function Chars(text: string): (r: seq<Item>)
    ensures |r| == |text| && forall k :: 0 <= k < |r| ==> r[k] == Chr(text[k])
  {
    seq(|text|, k requires 0 <= k < |text| => Chr(text[k]))
  }

  /** Text without braces stands for itself. */
  lemma {:induction false} PlainText(s: string, i: nat, j: nat, out: seq<Item>, policy: Policy)
    requires i <= j <= |s|
    requires forall k :: i <= k < j ==> s[k] != '{' && s[k] != '}'
    ensures Meaning(s, i, out, policy) == Meaning(s, j, out + Chars(s[i..j]), policy)
    decreases j - i
  {
    if i == j {
      assert out + Chars(s[i..j]) == out;
    } else {
      PlainText(s, i + 1, j, out + [Chr(s[i])], policy);
      assert s[i..j] == [s[i]] + s[i + 1..j];
      assert out + [Chr(s[i])] + Chars(s[i + 1..j]) == out + Chars(s[i..j]);
    }
  }

  lemma AtField(s: string, i: nat, out: seq<Item>, policy: Policy)
    requires i < |s| && s[i] == '{'
    ensures var f := FieldAt(s, i, out, policy);
      Meaning(s, i, out, policy) == if f.BadField? then Failed else Meaning(s, f.next, out + [f.item], policy)
  {}

  /** A closing brace in the text, after the text from i to j. */
  lemma AtClosing(s: string, i: nat, j: nat, out: seq<Item>, policy: Policy)
    requires i <= j < |s| && s[j] == '}'
    requires forall k :: i <= k < j ==> s[k] != '{' && s[k] != '}'
    ensures Meaning(s, i, out, policy)
         == if j + 1 < |s| && s[j + 1] == '}' then Meaning(s, j + 2, out + Chars(s[i..j + 1]), policy) else Failed
  {
    PlainText(s, i, j, out, policy);
    assert s[i..j + 1] == s[i..j] + [s[j]];
    assert out + Chars(s[i..j]) + [Chr(s[j])] == out + Chars(s[i..j + 1]);
  }

  lemma AtEnd(s: string, out: seq<Item>, policy: Policy)
    ensures Meaning(s, |s|, out, policy) == Parsed(out)
  {}

  // ---- The handler and the scanners ----------------------------------------

  class Handler {
    const policy: Policy
    var out: seq<Item>
    var failed: bool

    constructor (policy: Policy)
      ensures this.policy == policy && out == [] && !failed
    {
      this.policy, out, failed := policy, [], false;
    }

    method OnText(text: string)
      modifies `out
      ensures out == old(out) + Chars(text)
    {
      out := out + Chars(text);
    }

    method OnError()
      modifies `failed
      ensures failed
    {
      failed := true;
    }
  }

  /** memchr. */
  method Find(s: string, first: nat, last: nat, c: char) returns (found: bool, p: nat)
    requires first <= last <= |s|
    ensures first <= p <= last && (found <==> p < last)
    ensures found ==> s[p] == c
    ensures forall k :: first <= k < p ==> s[k] != c
  {
    p := first;
    while p != last
      invariant first <= p <= last
      invariant forall k :: first <= k < p ==> s[k] != c
    {
      if s[p] == c {
        return true, p;
      }
      p := p + 1;
    }
    found := false;
  }

  /**
   Reads the digits at begin as an int. The accumulator wraps at 32 bits; the
   number of digits decides whether it can have.
   */
  method ParseNonnegativeInt(s: string, begin: nat, errorValue: int) returns (value: int, end: nat)
    requires begin < |s| && IsDigit(s[begin])
    ensures end == DigitsEnd(s, begin)
    ensures value == if end - begin <= 10 && Decimal(s[begin..end]) <= INT_MAX then Decimal(s[begin..end])
                     else errorValue
  {
    hide Decimal, AllDigits, DigitsEnd;
    var acc, prev := 0, 0;
    end := begin;
    NoDigits(s, begin);
    while end != |s| && IsDigit(s[end])
      invariant begin <= end <= |s| && AllDigits(s[begin..end])
      invariant DigitsEnd(s, end) == DigitsEnd(s, begin)
      invariant acc == Decimal(s[begin..end]) % 0x1_0000_0000
      invariant end > begin ==> IsDigit(s[end - 1]) && AllDigits(s[begin..end - 1])
      invariant end > begin ==> prev == Decimal(s[begin..end - 1]) % 0x1_0000_0000
    {
      MoreDigits(s, begin, end);
      prev := acc;
      acc := (acc * 10 + (s[end] as int - '0' as int)) % 0x1_0000_0000;
      end := end + 1;
    }
    DigitsStop(s, end);
    MoreDigits(s, begin, end - 1);
    DecimalRange(s[begin..end]);
    DecimalRange(s[begin..end - 1]);
    if end - begin <= 9 {
      return acc, end;
    }
    var last := s[end - 1] as int - '0' as int;
    value := if end - begin == 10 && prev * 10 + last <= INT_MAX then acc else errorValue;
  }

  lemma NoDigits(s: string, i: nat)
    requires i < |s| && IsDigit(s[i])
    ensures AllDigits(s[i..i]) && Decimal(s[i..i]) == 0
    ensures DigitsEnd(s, i) > i
  {
    assert s[i..i] == "";
    DecimalEmpty();
  }

  lemma DigitsStop(s: string, i: nat)
    requires i <= |s| && (i < |s| ==> !IsDigit(s[i]))
    ensures DigitsEnd(s, i) == i
  {}

  /** One more digit of a run. */
  lemma MoreDigits(s: string, begin: nat, i: nat)
    requires begin <= i < |s| && IsDigit(s[i]) && AllDigits(s[begin..i])
    ensures AllDigits(s[begin..i + 1]) && DigitsEnd(s, i) == DigitsEnd(s, i + 1)
    ensures Decimal(s[begin..i + 1]) == 10 * Decimal(s[begin..i]) + (s[i] as int - '0' as int)
    ensures (10 * (Decimal(s[begin..i]) % 0x1_0000_0000) + (s[i] as int - '0' as int)) % 0x1_0000_0000
         == Decimal(s[begin..i + 1]) % 0x1_0000_0000
  {
    assert s[begin..i + 1] == s[begin..i] + [s[i]];
    assert s[begin..i + 1][..i - begin] == s[begin..i];
    WrapStep(Decimal(s[begin..i]), s[i] as int - '0' as int);
  }

  lemma WrapStep(x: int, digit: int)
    ensures (10 * (x % 0x1_0000_0000) + digit) % 0x1_0000_0000 == (10 * x + digit) % 0x1_0000_0000
  {
    assert 10 * x + digit == 0x1_0000_0000 * (10 * (x / 0x1_0000_0000)) + (10 * (x % 0x1_0000_0000) + digit);
  }

  /** n digits denote a number below 10^n. */
  lemma DecimalRange(s: string)
    requires AllDigits(s)
    ensures Decimal(s) >= 0
    ensures |s| <= 9 ==> Decimal(s) < 1000000000
  {
    DecimalBound(s);
    TenPowers(|s|);
  }

  lemma {:induction false} DecimalBound(s: string)
    requires AllDigits(s)
    ensures 0 <= Decimal(s) < Pow(10, |s|)
  {
    if s != "" {
      DecimalBound(s[..|s| - 1]);
    }
  }

  lemma TenPowers(n: nat)
    ensures n <= 9 ==> Pow(10, n) <= 1000000000
  {
    TenIsTen();
    if n <= 9 {
      PowMono(10, n, 9);
    }
  }

  /** Without a leading zero, more than ten digits are more than an int. */
  lemma NoLeadingZero(s: string)
    requires AllDigits(s) && s != "" && s[0] != '0'
    ensures |s| > 10 ==> Decimal(s) > INT_MAX
  {
    DecimalLower(s);
    if |s| > 10 {
      PowMono(10, 10, |s| - 1);
      TenIsTen();
    }
  }

  lemma TenIsTen()
    ensures Pow(10, 9) == 1000000000 && Pow(10, 10) == 10000000000
  {
    assert Pow(10, 3) == 1000;
    PowAdd(10, 3, 3);
    PowAdd(10, 6, 3);
    PowNext(10, 9);
  }

  lemma {:induction false} DecimalLower(s: string)
    requires AllDigits(s) && s != "" && s[0] != '0'
    ensures Decimal(s) >= Pow(10, |s| - 1)
  {
    if |s| == 1 {
      assert s[..0] == "";
    } else {
      DecimalLower(s[..|s| - 1]);
    }
  }

  /** parse_replacement_field at the brace at begin. */
  method ParseReplacementField(s: string, begin: nat, handler: Handler) returns (next: nat)
    requires begin < |s| && !handler.failed
    modifies handler
    ensures var f := FieldAt(s, begin, old(handler.out), handler.policy);
      && (handler.failed <==> f.BadField?)
      && (f.GoodField? ==> next == f.next && handler.out == old(handler.out) + [f.item])
    ensures begin < next <= |s|
  {
    var p := begin + 1;
    if p == |s| {
      handler.OnError();
      return |s|;
    }
    if s[p] == '{' {
      handler.OnText(s[p..p + 1]);
      return p + 1;
    }
    var id, bad;
    id, p, bad := ParseArgId(s, p);
    if bad || !handler.policy.accepts(handler.out, id) {
      handler.OnError();
      return |s|;
    }
    if p != |s| && s[p] == '}' {
      handler.out := handler.out + [Field(id)];
    } else if p != |s| && s[p] == ':' {
      var end := handler.policy.specEnd(handler.out, id, p + 1);
      if !(p + 1 <= end < |s|) || s[end] != '}' {
        handler.OnError();
        return |s|;
      }
      handler.out := handler.out + [FieldWithSpecs(id, p + 1, end)];
      p := end;
    } else {
      handler.OnError();
      return |s|;
    }
    next := p + 1;
  }

  method ParseArgId(s: string, begin: nat) returns (id: ArgId, p: nat, bad: bool)
    requires begin < |s|
    ensures bad <==> ArgIdAt(s, begin).BadId?
    ensures !bad ==> ArgIdAt(s, begin) == GoodId(id, p)
  {
    id, p, bad := Auto, begin, false;
    var c := s[begin];
    if c == '}' || c == ':' {
      return;
    }
    if IsDigit(c) {
      var index := 0;
      if c != '0' {
        index, p := ParseNonnegativeInt(s, begin, INT_MAX);
        NoLeadingZero(s[begin..p]);
      } else {
        p := begin + 1;
        DecimalOne(c);
        assert s[begin..p] == [c];
      }
      bad := p == |s| || (s[p] != '}' && s[p] != ':');
      id := Index(index);
      return;
    }
    if !IsNameStart(c) {
      bad := true;
      return;
    }
    p := begin + 1;
    while p != |s| && (IsNameStart(s[p]) || IsDigit(s[p]))
      invariant begin < p <= |s| && NameEnd(s, p) == NameEnd(s, begin + 1)
    {
      p := p + 1;
    }
    id := Name(s[begin..p]);
  }

  /** The form for short strings: one loop over the characters. */
  method ScanSimple(s: string, handler: Handler)
    requires !handler.failed
    modifies handler
    ensures Result(handler) == Meaning(s, 0, old(handler.out), handler.policy)
  {
    hide Meaning, FieldAt;
    ghost var meaning := Meaning(s, 0, handler.out, handler.policy);
    var begin, p := 0, 0;
    while p != |s|
      invariant 0 <= begin <= p <= |s| && !handler.failed
      invariant forall k :: begin <= k < p ==> s[k] != '{' && s[k] != '}'
      invariant Meaning(s, begin, handler.out, handler.policy) == meaning
      decreases |s| - p
    {
      var c := s[p];
      p := p + 1;
      if c == '{' {
        PlainText(s, begin, p - 1, handler.out, handler.policy);
        handler.OnText(s[begin..p - 1]);
        AtField(s, p - 1, handler.out, handler.policy);
        p := ParseReplacementField(s, p - 1, handler);
        if handler.failed {
          return;
        }
        begin := p;
      } else if c == '}' {
        AtClosing(s, begin, p - 1, handler.out, handler.policy);
        if p == |s| || s[p] != '}' {
          handler.OnError();
          return;
        }
        handler.OnText(s[begin..p]);
        p := p + 1;
        begin := p;
      }
    }
    PlainText(s, begin, |s|, handler.out, handler.policy);
    handler.OnText(s[begin..|s|]);
    AtEnd(s, handler.out, handler.policy);
  }

  /** What the handler has seen, seen as an outcome. */
  ghost function Result(handler: Handler): Outcome
    reads handler
  {
    if handler.failed then Failed else Parsed(handler.out)
  }

  /** The local class writer: text up to pend, where doubled '}' stand for one. */
  method Write(s: string, pbegin0: nat, pend: nat, handler: Handler)
    requires pbegin0 <= pend <= |s| && !handler.failed
    requires forall k :: pbegin0 <= k < pend ==> s[k] != '{'
    requires pend < |s| ==> s[pend] == '{'
    modifies handler
    ensures handler.failed ==> Meaning(s, pbegin0, old(handler.out), handler.policy) == Failed
    ensures !handler.failed ==>
      Meaning(s, pbegin0, old(handler.out), handler.policy) == Meaning(s, pend, handler.out, handler.policy)
  {
    if pbegin0 == pend {
      return;
    }
    hide Meaning;
    ghost var meaning := Meaning(s, pbegin0, handler.out, handler.policy);
    var pbegin := pbegin0;
    while true
      invariant pbegin0 <= pbegin <= pend && !handler.failed
      invariant Meaning(s, pbegin, handler.out, handler.policy) == meaning
      decreases pend - pbegin
    {
      var found, p := Find(s, pbegin, pend, '}');
      if !found {
        PlainText(s, pbegin, p, handler.out, handler.policy);
        handler.OnText(s[pbegin..pend]);
        return;
      }
      AtClosing(s, pbegin, p, handler.out, handler.policy);
      p := p + 1;
      if p == pend || s[p] != '}' {
        handler.OnError();
        return;
      }
      handler.OnText(s[pbegin..p]);
      pbegin := p + 1;
    }
  }

  /** The form for long strings: one search for '{' and, in Write, one for '}'. */
  method ScanTwoPass(s: string, handler: Handler)
    requires !handler.failed
    modifies handler
    ensures Result(handler) == Meaning(s, 0, old(handler.out), handler.policy)
  {
    hide Meaning, FieldAt;
    ghost var meaning := Meaning(s, 0, handler.out, handler.policy);
    var begin := 0;
    while begin != |s|
      invariant 0 <= begin <= |s| && !handler.failed
      invariant Meaning(s, begin, handler.out, handler.policy) == meaning
      decreases |s| - begin
    {
      var p := begin;
      if s[begin] != '{' {
        var found;
        found, p := Find(s, begin + 1, |s|, '{');
        if !found {
          Write(s, begin, |s|, handler);
          AtEnd(s, handler.out, handler.policy);
          return;
        }
      }
      Write(s, begin, p, handler);
      if handler.failed {
        return;
      }
      AtField(s, p, handler.out, handler.policy);
      begin := ParseReplacementField(s, p, handler);
      if handler.failed {
        return;
      }
    }
    AtEnd(s, handler.out, handler.policy);
  }

  /** parse_format_string: the two forms are one function of the string. */
  method ParseFormatString(s: string, handler: Handler)
    requires !handler.failed
    modifies handler
    ensures Result(handler) == Meaning(s, 0, old(handler.out), handler.policy)
  {
    if |s| < 32 {
      ScanSimple(s, handler);
    } else {
      ScanTwoPass(s, handler);
    }
  }

  /** Leading zeros count: eleven digits are refused even if they say 1. */
  lemma ElevenDigits()
    ensures var s := "00000000001";
      AllDigits(s) && Decimal(s) == 1 && DigitsEnd(s, 0) == 11
  {
    var s := "00000000001";
    DecimalZeros(s[..10]);
    assert DigitsEnd(s, 11) == 11;
    assert DigitsEnd(s, 8) == DigitsEnd(s, 9) == DigitsEnd(s, 10) == 11;
    assert DigitsEnd(s, 4) == DigitsEnd(s, 5) == DigitsEnd(s, 6) == DigitsEnd(s, 7) == 11;
    assert DigitsEnd(s, 0) == DigitsEnd(s, 1) == DigitsEnd(s, 2) == DigitsEnd(s, 3) == 11;
  }

  // ---- Escaping ------------------------------------------------------------

  function DoubledChar(c: char): string
  {
    if c == '{' || c == '}' then [c, c] else [c]
  }

  /** A text with every brace doubled. */
  function Doubled(text: string): string
  {
    if text == "" then "" else Doubled(text[..|text| - 1]) + DoubledChar(text[|text| - 1])
  }

  lemma {:induction false} DoubledConcat(a: string, b: string)
    ensures Doubled(a + b) == Doubled(a) + Doubled(b)
  {
    if b == "" {
      assert a + b == a;
    } else {
      var n := |b| - 1;
      assert (a + b)[..|a + b| - 1] == a + b[..n];
      DoubledConcat(a, b[..n]);
      assert Doubled(a) + Doubled(b[..n]) + DoubledChar(b[n]) == Doubled(a) + (Doubled(b[..n]) + DoubledChar(b[n]));
    }
  }

  /** A string with its braces doubled means itself, and holds no field. */
  lemma DoubledMeansItself(text: string, out: seq<Item>, policy: Policy)
    ensures Meaning(Doubled(text), 0, out, policy) == Parsed(out + Chars(text))
  {
    DoubledFrom(text, 0, out, policy);
    assert text[..0] == "" && text[0..] == text;
  }

  /** Where the k-th character stands in the doubled text. */
  lemma DoubledAt(text: string, k: nat)
    requires k < |text|
    ensures var d, i, c := Doubled(text), |Doubled(text[..k])|, text[k];
      && i + |DoubledChar(c)| == |Doubled(text[..k + 1])| <= |d|
      && d[i] == c && (|DoubledChar(c)| == 2 ==> d[i + 1] == c)
  {
    var c := text[k];
    assert text[..k + 1] == text[..k] + [c];
    DoubledConcat(text[..k], [c]);
    assert [c][..0] == "";
    assert text == text[..k + 1] + text[k + 1..];
    DoubledConcat(text[..k + 1], text[k + 1..]);
  }

  lemma {:induction false} DoubledFrom(text: string, k: nat, out: seq<Item>, policy: Policy)
    requires k <= |text|
    ensures |Doubled(text[..k])| <= |Doubled(text)|
    ensures Meaning(Doubled(text), |Doubled(text[..k])|, out, policy) == Parsed(out + Chars(text[k..]))
    decreases |text| - k
  {
    if k == |text| {
      assert out + Chars(text[k..]) == out;
      assert text[..k] == text;
      AtEnd(Doubled(text), out, policy);
    } else {
      DoubledAt(text, k);
      DoubledFrom(text, k + 1, out + [Chr(text[k])], policy);
      CharsHead(text, k, out);
      hide Doubled, Meaning;
      MeaningStep(Doubled(text), |Doubled(text[..k])|, text[k], out, policy);
    }
  }

  lemma CharsHead(text: string, k: nat, out: seq<Item>)
    requires k < |text|
    ensures out + [Chr(text[k])] + Chars(text[k + 1..]) == out + Chars(text[k..])
  {
    assert text[k..] == [text[k]] + text[k + 1..];
  }

  lemma MeaningStep(d: string, i: nat, c: char, out: seq<Item>, policy: Policy)
    requires i + |DoubledChar(c)| <= |d| && d[i] == c && (|DoubledChar(c)| == 2 ==> d[i + 1] == c)
    ensures Meaning(d, i, out, policy) == Meaning(d, i + |DoubledChar(c)|, out + [Chr(c)], policy)
  {}
}
