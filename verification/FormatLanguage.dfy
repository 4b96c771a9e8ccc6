/**
 The language of format strings, written out piece by piece, and the proof that
 the scanners accept this language and nothing else, with this meaning
 (include/spdlog/fmt/bundled/core.h).
 */
module FormatLanguage {
  import opened FormatScanner
  import opened Rounding

  // ---- The pieces and how they are written ---------------------------------

  /** An argument id as it is written; numbers may exceed an int. */
  datatype WrittenId = NoId | Number(n: nat) | Named(name: string)

  datatype Piece = Text(c: char) | Arg(id: WrittenId) | ArgWithSpecs(id: WrittenId, specs: string)

  predicate WellNamed(id: WrittenId)
  {
    id.Named? ==>
      && id.name != "" && IsNameStart(id.name[0])
      && forall k :: 0 < k < |id.name| ==> IsNameStart(id.name[k]) || IsDigit(id.name[k])
  }

  function RenderId(id: WrittenId): string
  {
    match id
    case NoId => ""
    case Number(n) => ToString(n)
    case Named(name) => name
  }

  function Render(p: Piece): (s: string)
    ensures s != ""
  {
    match p
    case Text(c) => DoubledChar(c)
    case Arg(id) => "{" + RenderId(id) + "}"
    case ArgWithSpecs(id, specs) => "{" + RenderId(id) + ":" + specs + "}"
  }

  function RenderAll(pieces: seq<Piece>): string
  {
    if pieces == [] then "" else Render(pieces[0]) + RenderAll(pieces[1..])
  }

  // ---- What they mean ------------------------------------------------------

  /** A number beyond an int stands for the largest int, which no argument has. */
  function Meant(id: WrittenId): ArgId
  {
    match id
    case NoId => Auto
    case Number(n) => Index(if n <= INT_MAX then n else INT_MAX)
    case Named(name) => Name(name)
  }

  /** The item a piece written at position `at` stands for. */
  function ItemOf(p: Piece, at: nat): Item
  {
    match p
    case Text(c) => Chr(c)
    case Arg(id) => Field(Meant(id))
    case ArgWithSpecs(id, specs) =>
      var begin := at + |RenderId(id)| + 2;
      FieldWithSpecs(Meant(id), begin, begin + |specs|)
  }

  function ItemsOf(pieces: seq<Piece>, at: nat): seq<Item>
  {
    if pieces == [] then [] else [ItemOf(pieces[0], at)] + ItemsOf(pieces[1..], at + |Render(pieces[0])|)
  }

  /** The handler takes the piece: it knows the argument, and finds the end of the specs where it is. */
  predicate Takes(policy: Policy, p: Piece, at: nat, out: seq<Item>)
  {
    match p
    case Text(c) => true
    case Arg(id) => WellNamed(id) && policy.accepts(out, Meant(id))
    case ArgWithSpecs(id, specs) =>
      var begin := at + |RenderId(id)| + 2;
      WellNamed(id) && policy.accepts(out, Meant(id)) && policy.specEnd(out, Meant(id), begin) == begin + |specs|
  }

  predicate TakesAll(policy: Policy, pieces: seq<Piece>, at: nat, out: seq<Item>)
  {
    pieces == []
    || (Takes(policy, pieces[0], at, out)
        && TakesAll(policy, pieces[1..], at + |Render(pieces[0])|, out + [ItemOf(pieces[0], at)]))
  }

  // ---- Reading what is written ---------------------------------------------

  /** s has the string t at position i. */
  predicate At(s: string, i: nat, t: string)
  {
    i + |t| <= |s| && s[i..i + |t|] == t
  }

  lemma AtParts(s: string, i: nat, a: string, b: string)
    ensures At(s, i, a + b) <==> At(s, i, a) && At(s, i + |a|, b)
  {
    var j, k := i + |a|, i + |a| + |b|;
    if k <= |s| {
      assert s[i..k] == s[i..j] + s[j..k];
      assert (a + b)[..|a|] == a && (a + b)[|a|..] == b;
      assert s[i..k][..|a|] == s[i..j] && s[i..k][|a|..] == s[j..k];
    }
  }

  lemma AtOne(s: string, i: nat, c: char)
    ensures At(s, i, [c]) <==> i < |s| && s[i] == c
  {}

  lemma {:induction false} DigitsEndIs(s: string, i: nat, j: nat)
    requires i <= j < |s| && AllDigits(s[i..j]) && !IsDigit(s[j])
    ensures DigitsEnd(s, i) == j
    decreases j - i
  {
    if i < j {
      assert s[i] == s[i..j][0];
      assert s[i + 1..j] == s[i..j][1..];
      DigitsEndIs(s, i + 1, j);
    }
  }

  predicate IsNameChar(c: char)
  {
    IsNameStart(c) || IsDigit(c)
  }

  lemma {:induction false} NameEndIs(s: string, i: nat, j: nat)
    requires i <= j < |s| && (forall k :: i <= k < j ==> IsNameChar(s[k])) && !IsNameChar(s[j])
    ensures NameEnd(s, i) == j
    decreases j - i
  {
    if i < j {
      assert IsNameChar(s[i]);
      NameEndIs(s, i + 1, j);
    }
  }

  lemma {:induction false} NameEndChars(s: string, i: nat)
    requires i <= |s|
    ensures forall k :: i <= k < NameEnd(s, i) ==> IsNameChar(s[k])
    decreases |s| - i
  {
    if i < |s| && IsNameChar(s[i]) {
      NameEndChars(s, i + 1);
    }
  }

  lemma IdReads(s: string, i: nat, id: WrittenId)
    requires WellNamed(id) && At(s, i, RenderId(id))
    requires var j := i + |RenderId(id)|; j < |s| && (s[j] == '}' || s[j] == ':')
    ensures ArgIdAt(s, i) == GoodId(Meant(id), i + |RenderId(id)|)
  {
    match id
    case NoId =>
    case Number(n) => NumberReads(s, i, n, i + |ToString(n)|);
    case Named(name) => NameReads(s, i, name, i + |name|);
  }

  lemma NumberReads(s: string, i: nat, n: nat, j: nat)
    requires i < j < |s| && s[i..j] == ToString(n) && (s[j] == '}' || s[j] == ':')
    ensures ArgIdAt(s, i) == GoodId(Meant(Number(n)), j)
  {
    ToStringReads(n);
    var t := s[i..j];
    assert s[i] == t[0] && IsDigit(t[0]);
    if n > 0 {
      hide ToString, Decimal;
      DigitsEndIs(s, i, j);
    } else {
      assert t == "0";
    }
  }

  lemma NameReads(s: string, i: nat, name: string, j: nat)
    requires i < j < |s| && s[i..j] == name && WellNamed(Named(name)) && (s[j] == '}' || s[j] == ':')
    ensures ArgIdAt(s, i) == GoodId(Name(name), j)
  {
    forall k | i <= k < j
      ensures IsNameChar(s[k])
    {
      assert s[k] == name[k - i];
    }
    assert s[i] == name[0];
    NameEndIs(s, i + 1, j);
  }

  lemma IdWritten(s: string, i: nat, a: ArgId, j: nat) returns (id: WrittenId)
    requires i < |s| && ArgIdAt(s, i) == GoodId(a, j)
    ensures WellNamed(id) && Meant(id) == a && j == i + |RenderId(id)| && At(s, i, RenderId(id))
  {
    var t := s[i..j];
    if s[i] == '}' || s[i] == ':' {
      id := NoId;
    } else if IsDigit(s[i]) {
      assert t[0] == s[i];
      ToStringOf(t);
      id := Number(Decimal(t));
    } else {
      NameEndChars(s, i + 1);
      forall k | 0 < k < |t|
        ensures IsNameChar(t[k])
      {
        assert t[k] == s[i + k];
      }
      id := Named(t);
    }
  }

  /** A piece that is written at i and taken by the handler gives its item. */
  lemma PieceReads(s: string, i: nat, p: Piece, out: seq<Item>, policy: Policy)
    requires At(s, i, Render(p)) && Takes(policy, p, i, out)
    ensures i + |Render(p)| <= |s|
    ensures Meaning(s, i, out, policy) == Meaning(s, i + |Render(p)|, out + [ItemOf(p, i)], policy)
  {
    match p
    case Text(c) => TextReads(s, i, c, out, policy);
    case Arg(id) => ArgReads(s, i, id, out, policy);
    case ArgWithSpecs(id, specs) => SpecsRead(s, i, id, specs, out, policy);
  }

  lemma TextReads(s: string, i: nat, c: char, out: seq<Item>, policy: Policy)
    requires At(s, i, DoubledChar(c))
    ensures Meaning(s, i, out, policy) == Meaning(s, i + |DoubledChar(c)|, out + [Chr(c)], policy)
  {
    var d := DoubledChar(c);
    assert s[i] == s[i..i + |d|][0];
    assert |d| == 2 ==> s[i + 1] == s[i..i + |d|][1];
    MeaningStep(s, i, c, out, policy);
  }

  lemma ArgReads(s: string, i: nat, id: WrittenId, out: seq<Item>, policy: Policy)
    requires At(s, i, "{" + RenderId(id) + "}") && WellNamed(id) && policy.accepts(out, Meant(id))
    ensures var next := i + |RenderId(id)| + 2;
      next <= |s| && Meaning(s, i, out, policy) == Meaning(s, next, out + [Field(Meant(id))], policy)
  {
    FieldParts(s, i, id, "}");
    IdReads(s, i + 1, id);
    hide Meaning, ArgIdAt, RenderId, At;
    AtField(s, i, out, policy);
  }

  lemma SpecsRead(s: string, i: nat, id: WrittenId, specs: string, out: seq<Item>, policy: Policy)
    requires At(s, i, "{" + RenderId(id) + ":" + specs + "}") && Takes(policy, ArgWithSpecs(id, specs), i, out)
    ensures var begin := i + |RenderId(id)| + 2;
      var item := FieldWithSpecs(Meant(id), begin, begin + |specs|);
      begin + |specs| < |s| && Meaning(s, i, out, policy) == Meaning(s, begin + |specs| + 1, out + [item], policy)
  {
    hide Meaning, ArgIdAt, At, RenderId;
    var tail := ":" + specs + "}";
    assert "{" + RenderId(id) + ":" + specs + "}" == "{" + RenderId(id) + tail;
    FieldParts(s, i, id, tail);
    var begin := i + |RenderId(id)| + 2;
    AtParts(s, begin - 1, ":" + specs, "}");
    AtOne(s, begin + |specs|, '}');
    IdReads(s, i + 1, id);
    AtField(s, i, out, policy);
  }

  lemma FieldParts(s: string, i: nat, id: WrittenId, rest: string)
    requires At(s, i, "{" + RenderId(id) + rest) && WellNamed(id)
    requires rest != "" && (rest[0] == '}' || rest[0] == ':')
    ensures var j := i + 1 + |RenderId(id)|;
      && j + |rest| <= |s| && s[i] == '{' && s[i + 1] != '{' && At(s, i + 1, RenderId(id))
      && At(s, j, rest) && s[j] == rest[0]
  {
    AtParts(s, i, "{" + RenderId(id), rest);
    AtParts(s, i, "{", RenderId(id));
    AtOne(s, i, '{');
    var j := i + 1 + |RenderId(id)|;
    assert s[j] == s[j..j + |rest|][0];
    if RenderId(id) != "" {
      assert s[i + 1] == s[i + 1..j][0];
      if id.Number? {
        ToStringReads(id.n);
      }
    }
  }

  lemma Split(s: string, i: nat, a: string, b: string)
    requires i <= |s| && s[i..] == a + b
    ensures At(s, i, a) && s[i + |a|..] == b
  {
    assert |s| == i + |a| + |b|;
    assert s[i..i + |a|] == s[i..][..|a|] && s[i + |a|..] == s[i..][|a|..];
  }

  lemma Regroup(out: seq<Item>, item: Item, rest: seq<Item>)
    ensures out + [item] + rest == out + ([item] + rest)
  {}

  /** Pieces written one after the other, and taken by the handler, give their items. */
  lemma {:induction false} RenderedMeans(s: string, i: nat, pieces: seq<Piece>, out: seq<Item>, policy: Policy)
    requires i <= |s| && s[i..] == RenderAll(pieces) && TakesAll(policy, pieces, i, out)
    ensures Meaning(s, i, out, policy) == Parsed(out + ItemsOf(pieces, i))
    decreases |pieces|
  {
    hide Meaning, Takes, Render, ItemOf, At;
    if pieces == [] {
      AtEnd(s, out, policy);
      assert out + ItemsOf(pieces, i) == out;
    } else {
      var p, n := pieces[0], |Render(pieces[0])|;
      Split(s, i, Render(p), RenderAll(pieces[1..]));
      PieceReads(s, i, p, out, policy);
      RenderedMeans(s, i + n, pieces[1..], out + [ItemOf(p, i)], policy);
      Regroup(out, ItemOf(p, i), ItemsOf(pieces[1..], i + n));
    }
  }

  /** What is read at i, if anything, is a piece. */
  lemma PieceWritten(s: string, i: nat, out: seq<Item>, policy: Policy) returns (p: Piece)
    requires i < |s| && Meaning(s, i, out, policy).Parsed?
    ensures At(s, i, Render(p)) && Takes(policy, p, i, out)
  {
    if s[i] == '{' {
      AtField(s, i, out, policy);
      hide Meaning;
      if s[i + 1] == '{' {
        p := Text('{');
        TextWritten(s, i, '{');
      } else {
        p := FieldWritten(s, i, out, policy);
      }
    } else {
      p := Text(s[i]);
      TextWritten(s, i, s[i]);
    }
  }

  lemma TextWritten(s: string, i: nat, c: char)
    requires i < |s| && s[i] == c && (c == '{' || c == '}' ==> i + 1 < |s| && s[i + 1] == c)
    ensures At(s, i, Render(Text(c)))
  {
    if c == '{' || c == '}' {
      assert s[i..i + 2] == [c, c];
    } else {
      assert s[i..i + 1] == [c];
    }
  }

  lemma FieldWritten(s: string, i: nat, out: seq<Item>, policy: Policy) returns (p: Piece)
    requires i + 1 < |s| && s[i] == '{' && s[i + 1] != '{' && FieldAt(s, i, out, policy).GoodField?
    ensures At(s, i, Render(p)) && Takes(policy, p, i, out)
  {
    hide ArgIdAt, RenderId, Render, At;
    var r := ArgIdAt(s, i + 1);
    var j := r.next;
    var id := IdWritten(s, i + 1, r.id, j);
    if s[j] == '}' {
      p := ArgRendered(s, i, id, j);
    } else {
      p := SpecsRendered(s, i, id, j, FieldAt(s, i, out, policy).item.end);
    }
  }

  lemma ArgRendered(s: string, i: nat, id: WrittenId, j: nat) returns (p: Piece)
    requires At(s, i + 1, RenderId(id)) && j == i + 1 + |RenderId(id)| < |s| && s[i] == '{' && s[j] == '}'
    ensures At(s, i, Render(p)) && p == Arg(id)
  {
    p := Arg(id);
    hide RenderId;
    assert s[i..j + 1] == "{" + s[i + 1..j] + "}";
  }

  lemma SpecsRendered(s: string, i: nat, id: WrittenId, j: nat, end: nat) returns (p: Piece)
    requires At(s, i + 1, RenderId(id)) && j == i + 1 + |RenderId(id)| && j < end < |s|
    requires s[i] == '{' && s[j] == ':' && s[end] == '}'
    ensures At(s, i, Render(p)) && p == ArgWithSpecs(id, s[j + 1..end])
  {
    p := ArgWithSpecs(id, s[j + 1..end]);
    hide RenderId;
    var t := RenderId(id);
    Cut(s, i, i + 1, j);
    assert s[i..j] == "{" + t;
    Cut(s, i, j, j + 1);
    assert s[i..j + 1] == "{" + t + ":";
    Cut(s, i, j + 1, end);
    Cut(s, i, end, end + 1);
    assert s[end..end + 1] == "}";
  }

  lemma Cut(s: string, i: nat, j: nat, k: nat)
    requires i <= j <= k <= |s|
    ensures s[i..k] == s[i..j] + s[j..k]
  {}

  lemma Join(s: string, i: nat, a: string, b: string)
    requires At(s, i, a) && s[i + |a|..] == b
    ensures s[i..] == a + b
  {
    assert s[i..] == s[i..i + |a|] + s[i + |a|..];
  }

  lemma Prepend(s: string, i: nat, p: Piece, rest: seq<Piece>, out: seq<Item>, policy: Policy)
    requires At(s, i, Render(p)) && Takes(policy, p, i, out)
    requires s[i + |Render(p)|..] == RenderAll(rest)
    requires TakesAll(policy, rest, i + |Render(p)|, out + [ItemOf(p, i)])
    ensures s[i..] == RenderAll([p] + rest) && TakesAll(policy, [p] + rest, i, out)
  {
    Join(s, i, Render(p), RenderAll(rest));
    hide Takes, Render, ItemOf, At;
    assert ([p] + rest)[1..] == rest;
  }

  /** A string that is accepted from i on is written in pieces that the handler takes. */
  lemma {:induction false} ParsedIsRendered(s: string, i: nat, out: seq<Item>, policy: Policy)
    returns (pieces: seq<Piece>)
    requires i <= |s| && Meaning(s, i, out, policy).Parsed?
    ensures s[i..] == RenderAll(pieces) && TakesAll(policy, pieces, i, out)
    ensures Meaning(s, i, out, policy) == Parsed(out + ItemsOf(pieces, i))
    decreases |s| - i
  {
    if i == |s| {
      pieces := [];
    } else {
      var p := PieceWritten(s, i, out, policy);
      hide Meaning, Takes, Render, RenderAll, TakesAll, ItemsOf, ItemOf, At;
      var n := |Render(p)|;
      PieceReads(s, i, p, out, policy);
      var rest := ParsedIsRendered(s, i + n, out + [ItemOf(p, i)], policy);
      pieces := [p] + rest;
      Prepend(s, i, p, rest, out, policy);
    }
    RenderedMeans(s, i, pieces, out, policy);
  }

  /** Scanning gives these items exactly if the string is written in pieces that the handler takes and that mean so. */
  lemma AcceptedIsRendered(s: string, items: seq<Item>, policy: Policy)
    ensures Meaning(s, 0, [], policy) == Parsed(items)
       <==> exists pieces :: RenderAll(pieces) == s && TakesAll(policy, pieces, 0, []) && ItemsOf(pieces, 0) == items
  {
    assert s[0..] == s;
    if Meaning(s, 0, [], policy) == Parsed(items) {
      var pieces := ParsedIsRendered(s, 0, [], policy);
      assert RenderAll(pieces) == s && [] + ItemsOf(pieces, 0) == ItemsOf(pieces, 0);
    }
    forall pieces | RenderAll(pieces) == s && TakesAll(policy, pieces, 0, []) && ItemsOf(pieces, 0) == items
      ensures Meaning(s, 0, [], policy) == Parsed(items)
    {
      RenderedMeans(s, 0, pieces, [], policy);
      assert [] + ItemsOf(pieces, 0) == ItemsOf(pieces, 0);
    }
  }
}
