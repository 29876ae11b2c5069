/** The lexical parsers of `Tokens` (whitespace, digit, letter, integer,
    number, identifier, string) and the helpers `token` and `joinedWith`.
    Each compound lexer is written once, over the one-character parsers it is
    built from, so that the older `CommonParsers` (which builds the same
    compounds on regex character classes) can share it. */
module Tokens {
  import opened Core
  import Strings
  import Parsers
  import Repeat
  import OneOf
  import InOrder

  // ---------------------------------------------------------------------------
  // One character

  /** One character of a class, as its one-character string: the evident
      behaviour of the `oneOf(Char...)`, `oneOf(CharRange)` and `noneOf`
      overloads, which are not part of this model. */
  function CharIn<V>(inClass: char -> bool): Parser<string, V> {
    (i: Input<V>) =>
      if i.offset < |i.text| && inClass(i.text[i.offset])
      then Some(Output([i.text[i.offset]], At(i, i.offset + 1)))
      else None
  }

  /** `p` answers exactly as the one-character parser of the class does. */
  ghost predicate ClassParser<V(!new)>(p: Parser<string, V>, inClass: char -> bool) {
    forall i: Input<V> :: p(i) == CharIn(inClass)(i)
  }

  predicate IsWhitespace(c: char) { c == ' ' || c == '\t' || c == '\r' || c == '\n' }
  predicate IsDigit(c: char) { '0' <= c <= '9' }
  predicate IsLower(c: char) { 'a' <= c <= 'z' }
  predicate IsUpper(c: char) { 'A' <= c <= 'Z' }
  predicate IsLetter(c: char) { IsLower(c) || IsUpper(c) }
  predicate IsDollarOrUnderscore(c: char) { c == '$' || c == '_' }
  predicate IsIdentifierPart(c: char) { IsLetter(c) || IsDigit(c) || IsDollarOrUnderscore(c) }
  /** A character a string literal holds as it is: anything but a double
      quote or a line break. */
  predicate IsPlain(c: char) { c != '"' && c != '\n' && c != '\r' }

  function Whitespace<V>(): Parser<string, V> {
    CharIn(IsWhitespace)
  }

  function Digit<V>(): Parser<string, V> {
    CharIn(IsDigit)
  }

  /** `oneOf(oneOf('a'..'z'), oneOf('A'..'Z'))`. */
  function Letter<V>(): Parser<string, V> {
    OneOf.OneOf([CharIn(IsLower), CharIn(IsUpper)])
  }

  /** `oneOf(letter, digit, oneOf('$', '_'))`, what follows an identifier's
      first letter. */
  function IdentifierPart<V>(): Parser<string, V> {
    OneOf.OneOf([Letter(), Digit(), CharIn(IsDollarOrUnderscore)])
  }

  /** `noneOf('"', '\n', '\r')`. */
  function Plain<V>(): Parser<string, V> {
    CharIn(IsPlain)
  }

  /** A one-character parser matches exactly one character, of its class, and
      yields it. */
  lemma ClassParserOutcome<V(!new)>(p: Parser<string, V>, inClass: char -> bool, i: Input<V>)
    requires ClassParser(p, inClass)
    ensures p(i).Some? <==> i.offset < |i.text| && inClass(i.text[i.offset])
    ensures p(i).Some? ==> p(i).value.payload == [i.text[i.offset]] && p(i).value.next == At(i, i.offset + 1)
  {
    assert p(i) == CharIn(inClass)(i);
  }

  lemma CharClasses<V(!new)>()
    ensures ClassParser(Whitespace<V>(), IsWhitespace)
    ensures ClassParser(Digit<V>(), IsDigit)
    ensures ClassParser(Letter<V>(), IsLetter)
    ensures ClassParser(IdentifierPart<V>(), IsIdentifierPart)
    ensures ClassParser(Plain<V>(), IsPlain)
  {
    forall i: Input<V> ensures Letter<V>()(i) == CharIn(IsLetter)(i) {
      LetterIsClass(i);
    }
    forall i: Input<V> ensures IdentifierPart<V>()(i) == CharIn(IsIdentifierPart)(i) {
      LetterIsClass(i);
      var ps := [Letter<V>(), Digit<V>(), CharIn<V>(IsDollarOrUnderscore)];
      assert ps[1..] == [Digit<V>(), CharIn<V>(IsDollarOrUnderscore)];
      FirstOfTwo(Digit<V>(), CharIn<V>(IsDollarOrUnderscore), i);
      assert IdentifierPart<V>()(i) == OneOf.FirstMatch(ps, i);
      assert OneOf.FirstMatch(ps, i) ==
        if Letter<V>()(i).Some? then Letter<V>()(i) else OneOf.FirstMatch(ps[1..], i);
      if i.offset < |i.text| {
        var c := i.text[i.offset];
        assert IsIdentifierPart(c) <==> IsLetter(c) || IsDigit(c) || IsDollarOrUnderscore(c);
      }
    }
  }

  lemma LetterIsClass<V>(i: Input<V>)
    ensures Letter<V>()(i) == CharIn(IsLetter)(i)
  {
    FirstOfTwo(CharIn<V>(IsLower), CharIn<V>(IsUpper), i);
    assert Letter<V>()(i) == OneOf.FirstMatch([CharIn<V>(IsLower), CharIn<V>(IsUpper)], i);
    if i.offset < |i.text| {
      var c := i.text[i.offset];
      assert IsLetter(c) <==> IsLower(c) || IsUpper(c);
    }
  }

  /** Choice between two alternatives. */
  lemma FirstOfTwo<T, V>(a: Parser<T, V>, b: Parser<T, V>, i: Input<V>)
    ensures OneOf.FirstMatch([a, b], i) == if a(i).Some? then a(i) else b(i)
  {
    assert [a, b][1..] == [b] && [b][1..] == [];
    assert OneOf.FirstMatch([b], i) == if b(i).Some? then b(i) else OneOf.FirstMatch([], i);
    assert OneOf.FirstMatch([a, b], i) == if a(i).Some? then a(i) else OneOf.FirstMatch([b], i);
  }

  // ---------------------------------------------------------------------------
  // Runs of characters

  /** `joinToString("")`. */
  function Concat(xs: seq<string>): string {
    if |xs| == 0 then "" else xs[0] + Concat(xs[1..])
  }

  /** How many characters of the class follow `from`, at most `limit`: the
      longest such run. */
  function RunLength(inClass: char -> bool, text: string, from: nat, limit: nat): (n: nat)
    ensures n <= limit
    ensures n > 0 ==> from + n <= |text|
    ensures n < limit && from + n < |text| ==> !inClass(text[from + n])
    decreases |text| - from
  {
    if limit == 0 || from >= |text| || !inClass(text[from]) then 0
    else 1 + RunLength(inClass, text, from + 1, limit - 1)
  }

  /** Every character of the run is of the class. */
  lemma {:induction false} RunLengthInClass(inClass: char -> bool, text: string, from: nat, limit: nat)
    ensures var n := RunLength(inClass, text, from, limit);
      forall k :: from <= k < from + n ==> inClass(text[k])
    decreases |text| - from
  {
    if !(limit == 0 || from >= |text| || !inClass(text[from])) {
      RunLengthInClass(inClass, text, from + 1, limit - 1);
    }
  }

  /** Repeating `p` from `i`, at most `limit` times, collects the longest run
      of the class (up to the cap), one character per payload, in text order. */
  ghost predicate ReadsRun<V(!new)>(p: Parser<string, V>, inClass: char -> bool, limit: int, i: Input<V>)
    requires limit >= 1 && Valid(i)
  {
    CollectsTo(p, limit, i, RunLength(inClass, i.text, i.offset, limit))
  }

  /** Repeating a one-character parser reads the run of its class. */
  lemma {:induction false} CollectClass<V(!new)>(p: Parser<string, V>, inClass: char -> bool, limit: int, i: Input<V>)
    requires ClassParser(p, inClass) && limit >= 1 && Valid(i)
    ensures ReadsRun(p, inClass, limit, i)
    decreases limit
  {
    assert p(i) == CharIn(inClass)(i);
    if i.offset < |i.text| && inClass(i.text[i.offset]) && limit > 1 {
      CollectClass(p, inClass, limit - 1, At(i, i.offset + 1));
    }
    CollectClassStep(p, inClass, limit, i);
  }

  /** One step of CollectClass. */
  lemma CollectClassStep<V(!new)>(p: Parser<string, V>, inClass: char -> bool, limit: int, i: Input<V>)
    requires limit >= 1 && Valid(i) && p(i) == CharIn(inClass)(i)
    requires i.offset < |i.text| && inClass(i.text[i.offset]) && limit > 1 ==>
      ReadsRun(p, inClass, limit - 1, At(i, i.offset + 1))
    ensures ReadsRun(p, inClass, limit, i)
  {
    var text := i.text;
    var here := i.offset;
    if here < |text| && inClass(text[here]) {
      var c := text[here];
      var next := At(i, here + 1);
      SliceOfOne(text, here);
      assert p(i) == Some(Output(text[here..here + 1], next));
      if limit == 1 {
        assert RunLength(inClass, text, here, limit) == 1;
        CollectLastSlice(p, i, 1);
      } else {
        var m := RunLength(inClass, text, here + 1, limit - 1);
        assert RunLength(inClass, text, here, limit) == 1 + m;
        assert CollectsTo(p, limit - 1, next, m);
        CollectSlices(p, limit, i, 1, m);
      }
    } else {
      assert p(i) == None;
      CollectNothing(p, limit, i);
    }
  }

  lemma JoinSlices(text: string, a: nat, b: nat, c: nat)
    requires a <= b <= c <= |text|
    ensures text[a..b] + text[b..c] == text[a..c]
  {
  }

  /** A slice followed by pieces that join to the next slice joins to the
      whole slice. */
  lemma ConcatSlices(text: string, a: nat, b: nat, c: nat, rest: seq<string>)
    requires a <= b <= c <= |text| && Concat(rest) == text[b..c]
    ensures Concat([text[a..b]] + rest) == text[a..c]
  {
    ConcatCons(text[a..b], rest);
    JoinSlices(text, a, b, c);
  }

  lemma ConcatCons(x: string, xs: seq<string>)
    ensures Concat([x] + xs) == x + Concat(xs)
  {
    assert ([x] + xs)[1..] == xs;
  }

  /** Repeating `part` from `i`, at most `limit` times, reads exactly the
      next `n` characters: the pieces join to that slice, and the repetition
      stops right after it. */
  ghost predicate CollectsTo<V(!new)>(part: Parser<string, V>, limit: int, i: Input<V>, n: nat)
    requires limit >= 1
  {
    i.offset + n <= |i.text| &&
    Concat(Repeat.Collect(part, limit, i).0) == i.text[i.offset..i.offset + n] &&
    Repeat.Collect(part, limit, i).1 == At(i, i.offset + n)
  }

  /** No first piece: nothing is read. */
  lemma CollectNothing<V(!new)>(part: Parser<string, V>, limit: int, i: Input<V>)
    requires limit >= 1 && Valid(i) && part(i).None?
    ensures CollectsTo(part, limit, i, 0)
  {
    Repeat.CollectStep(part, limit, i);
    assert i.text[i.offset..i.offset] == [];
  }

  /** The last piece the cap allows, a slice of the text. */
  lemma CollectLastSlice<V(!new)>(part: Parser<string, V>, i: Input<V>, w: nat)
    requires i.offset + w <= |i.text| && part(i) == Some(Output(i.text[i.offset..i.offset + w], At(i, i.offset + w)))
    ensures CollectsTo(part, 1, i, w)
  {
    var piece := i.text[i.offset..i.offset + w];
    Repeat.CollectStep(part, 1, i);
    ConcatCons(piece, []);
  }

  /** A piece that is the slice of width `w`, then pieces that join to the
      slice after it. */
  lemma CollectSlices<V(!new)>(part: Parser<string, V>, limit: int, i: Input<V>, w: nat, m: nat)
    requires limit > 1 && i.offset + w <= |i.text|
    requires part(i) == Some(Output(i.text[i.offset..i.offset + w], At(i, i.offset + w)))
    requires CollectsTo(part, limit - 1, At(i, i.offset + w), m)
    ensures CollectsTo(part, limit, i, w + m)
  {
    var next := At(i, i.offset + w);
    var rest := Repeat.Collect(part, limit - 1, next);
    Repeat.CollectStep(part, limit, i);
    assert At(next, next.offset + m) == At(i, i.offset + w + m);
    ConcatSlices(i.text, i.offset, i.offset + w, i.offset + w + m, rest.0);
  }

  /** The longest run of the class from `from`, under `repeat`'s default cap. */
  function Run(inClass: char -> bool, text: string, from: nat): nat {
    RunLength(inClass, text, from, Repeat.IntMax)
  }

  /** `q` answers as `repeat` of a one-character parser of the class does when
      `atLeast` matches are required: the longest run of the class, or no match
      when that run is too short. */
  ghost predicate RunParser<V(!new)>(q: Parser<seq<string>, V>, inClass: char -> bool, atLeast: nat) {
    forall i: Input<V> {:trigger RunAnswer(q, inClass, atLeast, i)} | Valid(i) :: RunAnswer(q, inClass, atLeast, i)
  }

  /** What `q` answers at `i` when it reads runs of the class. */
  ghost predicate RunAnswer<V>(q: Parser<seq<string>, V>, inClass: char -> bool, atLeast: nat, i: Input<V>)
    requires Valid(i)
  {
    var n := Run(inClass, i.text, i.offset);
    (q(i).Some? <==> n >= atLeast) &&
    (q(i).Some? ==> Concat(q(i).value.payload) == i.text[i.offset..i.offset + n] && q(i).value.next == At(i, i.offset + n))
  }

  /** `zeroOrMore` and `oneOrMore` of a one-character parser read the longest
      run of its class; `oneOrMore` fails on an empty run. */
  lemma RepeatClass<V(!new)>(p: Parser<string, V>, inClass: char -> bool)
    requires ClassParser(p, inClass)
    ensures RunParser(Repeat.ZeroOrMore(p), inClass, 0)
    ensures RunParser(Repeat.OneOrMore(p), inClass, 1)
  {
    forall i: Input<V> | Valid(i)
      ensures RunAnswer(Repeat.ZeroOrMore(p), inClass, 0, i)
      ensures RunAnswer(Repeat.OneOrMore(p), inClass, 1, i)
    {
      CollectClass(p, inClass, Repeat.IntMax, i);
    }
  }

  /** A literal of one character. */
  lemma CharLiteral<V>(s: string, j: Input<V>)
    requires |s| == 1 && Valid(j)
    ensures Strings.Str<V>(s)(j) ==
      if j.offset < |j.text| && j.text[j.offset] == s[0] then Some(Output(s, At(j, j.offset + 1))) else None
  {
    if j.offset < |j.text| {
      assert j.text[j.offset..j.offset + 1] == [j.text[j.offset]];
      assert s == [s[0]];
    }
  }

  /** `q` of a run parser, at one Input. */
  lemma RunAt<V(!new)>(q: Parser<seq<string>, V>, inClass: char -> bool, atLeast: nat, i: Input<V>)
    requires RunParser(q, inClass, atLeast) && Valid(i)
    ensures RunAnswer(q, inClass, atLeast, i)
  {
  }

  /** Where a run parser stops, without what it yields. */
  lemma RunEndAt<V(!new)>(q: Parser<seq<string>, V>, inClass: char -> bool, atLeast: nat, i: Input<V>)
    requires RunParser(q, inClass, atLeast) && Valid(i)
    ensures var n := Run(inClass, i.text, i.offset);
      (q(i).Some? <==> n >= atLeast) && (q(i).Some? ==> q(i).value.next == At(i, i.offset + n))
  {
    assert RunAnswer(q, inClass, atLeast, i);
  }

  // ---------------------------------------------------------------------------
  // integer, number, identifier

  /** `oneOrMore(digit).map { it.joinToString("") }`, over `oneOrMore(digit)`. */
  function IntegerOf<V>(digits: Parser<seq<string>, V>): Parser<string, V> {
    Parsers.Map(digits, Concat)
  }

  function Integer<V(!new)>(): Parser<string, V> {
    IntegerOf(Repeat.OneOrMore(Digit()))
  }

  /** The longest run of digits from the offset; no match without a leading
      digit. */
  lemma IntegerIsDigitRun<V(!new)>(digits: Parser<seq<string>, V>, i: Input<V>)
    requires RunParser(digits, IsDigit, 1) && Valid(i)
    ensures var n := Run(IsDigit, i.text, i.offset);
      IntegerOf(digits)(i) ==
        if n == 0 then None else Some(Output(i.text[i.offset..i.offset + n], At(i, i.offset + n)))
  {
    RunAt(digits, IsDigit, 1, i);
  }

  /** `inOrder(str("."), oneOrMore(digit))`, the fraction of a number. */
  function Fraction<V>(digits: Parser<seq<string>, V>): Parser<InOrder.List2<string, seq<string>>, V> {
    InOrder.InOrder2(Strings.Str("."), digits)
  }

  function FractionText(parts: InOrder.List2<string, seq<string>>): string {
    parts.value1 + Concat(parts.value2)
  }

  /** The payload of `number`: the digits, then the optional "." and digits. */
  function NumberText(parts: InOrder.List2<seq<string>, Option<InOrder.List2<string, seq<string>>>>): string {
    Concat(parts.value1) +
      match parts.value2
      case None => ""
      case Some(fraction) => FractionText(fraction)
  }

  /** `inOrder(oneOrMore(digit), optional(inOrder(str("."), oneOrMore(digit))))`
      mapped to its text. */
  function NumberOf<V(!new)>(digits: Parser<seq<string>, V>): Parser<string, V> {
    NumberFrom(digits, Repeat.Optional(Fraction(digits)))
  }

  /** The digits, then the optional fraction, mapped to their text. */
  function NumberFrom<V>(digits: Parser<seq<string>, V>, fraction: Parser<Option<InOrder.List2<string, seq<string>>>, V>)
    : Parser<string, V>
  {
    Parsers.Map(InOrder.InOrder2(digits, fraction), NumberText)
  }

  function Number<V(!new)>(): Parser<string, V> {
    NumberOf(Repeat.OneOrMore(Digit()))
  }

  /** How many digits a fraction starting at `at` has: none unless a "." is
      there, then the digit run after it. */
  function FractionDigits(text: string, at: nat): nat {
    if at < |text| && text[at] == '.' then Run(IsDigit, text, at + 1) else 0
  }

  /** Where a number starting at `from` ends: after its digits, and after a
      fraction when a "." and at least one digit follow them. */
  function NumberEnd(text: string, from: nat): nat {
    var j := from + Run(IsDigit, text, from);
    var m := FractionDigits(text, j);
    if m > 0 then j + 1 + m else j
  }

  /** A number ends after its digits, or one past them and the fraction's
      digits when there are any. */
  lemma NumberEndSplits(text: string, from: nat)
    requires from <= |text|
    ensures var j := from + Run(IsDigit, text, from);
      var m := FractionDigits(text, j);
      j <= |text| &&
      NumberEnd(text, from) == if m > 0 then j + 1 + m else j
  {
  }

  /** The fraction is a "." and the longest digit run after it, which must not
      be empty. */
  lemma FractionOutcome<V(!new)>(digits: Parser<seq<string>, V>, j: Input<V>)
    requires RunParser(digits, IsDigit, 1) && Valid(j)
    ensures var m := FractionDigits(j.text, j.offset);
      var r := Fraction(digits)(j);
      (r.Some? <==> m > 0) &&
      (m > 0 ==> FractionText(r.value.payload) == j.text[j.offset..j.offset + 1 + m] && r.value.next == At(j, j.offset + 1 + m))
  {
    var m := FractionDigits(j.text, j.offset);
    if j.offset < |j.text| && j.text[j.offset] == '.' {
      RunAt(digits, IsDigit, 1, At(j, j.offset + 1));
      FractionAfterDot(digits, j);
    } else {
      FractionNoDot(digits, j);
    }
  }

  /** A "." then the digit run after it, which must not be empty. */
  lemma FractionAfterDot<V>(digits: Parser<seq<string>, V>, j: Input<V>)
    requires Valid(j) && j.offset < |j.text| && j.text[j.offset] == '.'
    requires RunAnswer(digits, IsDigit, 1, At(j, j.offset + 1))
    ensures var m := FractionDigits(j.text, j.offset);
      var r := Fraction(digits)(j);
      (r.Some? <==> m > 0) &&
      (m > 0 ==> FractionText(r.value.payload) == j.text[j.offset..j.offset + 1 + m] && r.value.next == At(j, j.offset + 1 + m))
  {
    var m := FractionDigits(j.text, j.offset);
    assert m == Run(IsDigit, j.text, j.offset + 1);
    assert Strings.Str<V>(".")(j) == Some(Output(".", At(j, j.offset + 1))) by {
      CharLiteral<V>(".", j);
    }
    if m > 0 {
      DotDigits(digits, j, m);
    } else {
      DotThen(digits, j);
    }
  }

  /** A "." and `m` digits after it. */
  lemma DotDigits<V>(digits: Parser<seq<string>, V>, j: Input<V>, m: nat)
    requires Valid(j) && j.offset < |j.text| && j.text[j.offset] == '.'
    requires Strings.Str<V>(".")(j) == Some(Output(".", At(j, j.offset + 1)))
    requires RunAnswer(digits, IsDigit, 1, At(j, j.offset + 1)) && m == Run(IsDigit, j.text, j.offset + 1) > 0
    ensures Fraction(digits)(j).Some? && Fraction(digits)(j).value.next == At(j, j.offset + 1 + m)
    ensures FractionText(Fraction(digits)(j).value.payload) == j.text[j.offset..j.offset + 1 + m]
  {
    var o := digits(At(j, j.offset + 1)).value;
    assert o.next == At(j, j.offset + 1 + m);
    assert Concat(o.payload) == j.text[j.offset + 1..j.offset + 1 + m];
    DotThen(digits, j);
    DotText(j.text, j.offset, m, o.payload);
  }

  /** A "." then pieces that join to the digits after it. */
  lemma DotText(text: string, from: nat, m: nat, digits: seq<string>)
    requires from + 1 + m <= |text| && text[from] == '.'
    requires Concat(digits) == text[from + 1..from + 1 + m]
    ensures FractionText(InOrder.List2(".", digits)) == text[from..from + 1 + m]
  {
    SliceAfterChar(text, from, from + 1 + m);
    assert [text[from]] == ".";
  }

  /** A slice of one character. */
  lemma SliceOfOne(text: string, k: nat)
    requires k < |text|
    ensures text[k..k + 1] == [text[k]]
  {
  }

  /** A slice of two characters. */
  lemma SliceOfTwo(text: string, k: nat)
    requires k + 1 < |text|
    ensures text[k..k + 2] == [text[k], text[k + 1]]
  {
  }

  /** A slice is its first character followed by the rest. */
  lemma SliceAfterChar(text: string, from: nat, to: nat)
    requires from < to <= |text|
    ensures [text[from]] + text[from + 1..to] == text[from..to]
  {
  }

  /** After a matched ".", the fraction is what the digits answer. */
  lemma DotThen<V>(digits: Parser<seq<string>, V>, j: Input<V>)
    requires Strings.Str<V>(".")(j) == Some(Output(".", At(j, j.offset + 1)))
    ensures var d := digits(At(j, j.offset + 1));
      Fraction(digits)(j) == if d.None? then None else Some(Output(InOrder.List2(".", d.value.payload), d.value.next))
  {
  }

  /** No "." at all: no fraction. */
  lemma FractionNoDot<V>(digits: Parser<seq<string>, V>, j: Input<V>)
    requires Valid(j) && !(j.offset < |j.text| && j.text[j.offset] == '.')
    ensures Fraction(digits)(j) == None
  {
    CharLiteral<V>(".", j);
  }

  /** `q` answers as the optional fraction does: it always matches, and reads
      a fraction exactly when a "." and a digit are there. */
  ghost predicate FractionParser<V(!new)>(q: Parser<Option<InOrder.List2<string, seq<string>>>, V>) {
    forall j: Input<V> {:trigger FractionAnswer(q, j)} | Valid(j) :: FractionAnswer(q, j)
  }

  /** What the optional fraction answers at `j`. */
  ghost predicate FractionAnswer<V>(q: Parser<Option<InOrder.List2<string, seq<string>>>, V>, j: Input<V>)
    requires Valid(j)
  {
    var m := FractionDigits(j.text, j.offset);
    q(j).Some? &&
    (m == 0 ==> q(j).value == Output(None, j)) &&
    (m > 0 ==>
      q(j).value.payload.Some? &&
      FractionText(q(j).value.payload.value) == j.text[j.offset..j.offset + 1 + m] &&
      q(j).value.next == At(j, j.offset + 1 + m))
  }

  /** The optional fraction, at one Input. */
  lemma FractionParserAt<V(!new)>(q: Parser<Option<InOrder.List2<string, seq<string>>>, V>, j: Input<V>)
    requires FractionParser(q) && Valid(j)
    ensures FractionAnswer(q, j)
  {
    assert FractionAnswer(q, j);
  }

  lemma OptionalFraction<V(!new)>(digits: Parser<seq<string>, V>)
    requires RunParser(digits, IsDigit, 1)
    ensures FractionParser(Repeat.Optional(Fraction(digits)))
  {
    forall j: Input<V> | Valid(j)
      ensures FractionAnswer(Repeat.Optional(Fraction(digits)), j)
    {
      OptionalFractionAt(digits, j);
    }
  }

  lemma OptionalFractionAt<V(!new)>(digits: Parser<seq<string>, V>, j: Input<V>)
    requires RunParser(digits, IsDigit, 1) && Valid(j)
    ensures FractionAnswer(Repeat.Optional(Fraction(digits)), j)
  {
    var f := Fraction(digits);
    Repeat.OptionalOutcome(f, j);
    FractionOutcome(digits, j);
    if FractionDigits(j.text, j.offset) > 0 {
      assert Repeat.Optional(f)(j).value.payload == Some(f(j).value.payload);
    } else {
      assert f(j).None?;
    }
  }

  /** The digit run, then the fraction when there is one. */
  lemma NumberFromOutcome<V(!new)>(
    digits: Parser<seq<string>, V>, fraction: Parser<Option<InOrder.List2<string, seq<string>>>, V>, i: Input<V>)
    requires RunParser(digits, IsDigit, 1) && FractionParser(fraction) && Valid(i)
    ensures var n := Run(IsDigit, i.text, i.offset);
      var e := NumberEnd(i.text, i.offset);
      NumberFrom(digits, fraction)(i) ==
        if n == 0 then None else Some(Output(i.text[i.offset..e], At(i, e)))
  {
    RunAt(digits, IsDigit, 1, i);
    var n := Run(IsDigit, i.text, i.offset);
    if n > 0 {
      var j := At(i, i.offset + n);
      FractionParserAt(fraction, j);
      NumberWithDigits(digits, fraction, i, n);
    }
  }

  /** The same, from what the two parsers answer at the two positions. */
  lemma NumberWithDigits<V>(
    digits: Parser<seq<string>, V>, fraction: Parser<Option<InOrder.List2<string, seq<string>>>, V>,
    i: Input<V>, n: nat)
    requires Valid(i) && n == Run(IsDigit, i.text, i.offset) > 0
    requires RunAnswer(digits, IsDigit, 1, i) && FractionAnswer(fraction, At(i, i.offset + n))
    ensures var e := NumberEnd(i.text, i.offset);
      NumberFrom(digits, fraction)(i) == Some(Output(i.text[i.offset..e], At(i, e)))
  {
    var e := NumberEnd(i.text, i.offset);
    var j := At(i, i.offset + n);
    NumberEndSplits(i.text, i.offset);
    NumberJoins(digits, fraction, i, j, e);
  }

  /** The digits up to `j` and the optional fraction up to `e` join to the
      text between. */
  lemma NumberJoins<V>(
    digits: Parser<seq<string>, V>, fraction: Parser<Option<InOrder.List2<string, seq<string>>>, V>,
    i: Input<V>, j: Input<V>, e: nat)
    requires i.offset <= j.offset <= e <= |i.text| && j == At(i, j.offset)
    requires digits(i).Some? && digits(i).value.next == j
    requires Concat(digits(i).value.payload) == i.text[i.offset..j.offset]
    requires fraction(j).Some? && fraction(j).value.next == At(j, e)
    requires fraction(j).value.payload.None? ==> e == j.offset
    requires fraction(j).value.payload.Some? ==>
      FractionText(fraction(j).value.payload.value) == i.text[j.offset..e]
    ensures NumberFrom(digits, fraction)(i) == Some(Output(i.text[i.offset..e], At(i, e)))
  {
    var whole := digits(i).value;
    var optional := fraction(j).value;
    assert InOrder.InOrder2(digits, fraction)(i) ==
      Some(Output(InOrder.List2(whole.payload, optional.payload), optional.next));
    var text := NumberText(InOrder.List2(whole.payload, optional.payload));
    JoinSlices(i.text, i.offset, j.offset, e);
    if optional.payload.None? {
      assert text == i.text[i.offset..j.offset] + "";
    }
    assert At(j, e) == At(i, e);
  }

  /** `number` is the longest digit run, extended by a fraction exactly when a
      "." follows that is itself followed by a digit; a "." not followed by a
      digit stays unread. */
  lemma NumberIsDigitsThenFraction<V(!new)>(digits: Parser<seq<string>, V>, i: Input<V>)
    requires RunParser(digits, IsDigit, 1) && Valid(i)
    ensures var n := Run(IsDigit, i.text, i.offset);
      var e := NumberEnd(i.text, i.offset);
      NumberOf(digits)(i) ==
        if n == 0 then None else Some(Output(i.text[i.offset..e], At(i, e)))
  {
    OptionalFraction(digits);
    NumberFromOutcome(digits, Repeat.Optional(Fraction(digits)), i);
  }

  /** `inOrder(letter, repeat(rest)).map { letter + rest.joinToString("") }`,
      over `repeat(rest)`. */
  function IdentifierOf<V>(letter: Parser<string, V>, rest: Parser<seq<string>, V>): Parser<string, V> {
    Parsers.Map(
      InOrder.InOrder2(letter, rest),
      (parts: InOrder.List2<string, seq<string>>) => parts.value1 + Concat(parts.value2))
  }

  /** `repeat` with its default bounds is `zeroOrMore`. */
  function Identifier<V(!new)>(): Parser<string, V> {
    IdentifierOf(Letter(), Repeat.ZeroOrMore(IdentifierPart()))
  }

  /** An identifier is one character of the first class, then the longest run
      of the second. */
  lemma IdentifierIsRun<V(!new)>(
    letter: Parser<string, V>, first: char -> bool, rest: Parser<seq<string>, V>, part: char -> bool, i: Input<V>)
    requires ClassParser(letter, first) && RunParser(rest, part, 0) && Valid(i)
    ensures var m := Run(part, i.text, i.offset + 1);
      IdentifierOf(letter, rest)(i) ==
        if i.offset < |i.text| && first(i.text[i.offset])
        then Some(Output(i.text[i.offset..i.offset + 1 + m], At(i, i.offset + 1 + m)))
        else None
  {
    assert letter(i) == CharIn(first)(i);
    if i.offset < |i.text| && first(i.text[i.offset]) {
      RunAt(rest, part, 0, At(i, i.offset + 1));
      IdentifierFromParts(letter, rest, part, i);
    } else {
      IdentifierNeedsLetter(letter, rest, i);
    }
  }

  /** The same, from what the two parsers answer. */
  lemma IdentifierFromParts<V>(letter: Parser<string, V>, rest: Parser<seq<string>, V>, part: char -> bool, i: Input<V>)
    requires Valid(i) && i.offset < |i.text|
    requires letter(i) == Some(Output([i.text[i.offset]], At(i, i.offset + 1)))
    requires RunAnswer(rest, part, 0, At(i, i.offset + 1))
    ensures var m := Run(part, i.text, i.offset + 1);
      IdentifierOf(letter, rest)(i) == Some(Output(i.text[i.offset..i.offset + 1 + m], At(i, i.offset + 1 + m)))
  {
    var next := At(i, i.offset + 1);
    var m := Run(part, i.text, i.offset + 1);
    assert rest(next).Some? && rest(next).value.next == At(i, i.offset + 1 + m) &&
      Concat(rest(next).value.payload) == i.text[i.offset + 1..i.offset + 1 + m];
    IdentifierJoins(letter, rest, i, m);
  }

  lemma IdentifierNeedsLetter<V>(letter: Parser<string, V>, rest: Parser<seq<string>, V>, i: Input<V>)
    requires letter(i).None?
    ensures IdentifierOf(letter, rest)(i) == None
  {
  }

  /** A first character, then a run of `m` characters after it. */
  lemma IdentifierJoins<V>(letter: Parser<string, V>, rest: Parser<seq<string>, V>, i: Input<V>, m: nat)
    requires i.offset + 1 + m <= |i.text|
    requires letter(i) == Some(Output([i.text[i.offset]], At(i, i.offset + 1)))
    requires var next := At(i, i.offset + 1);
      rest(next).Some? && rest(next).value.next == At(i, i.offset + 1 + m) &&
      Concat(rest(next).value.payload) == i.text[i.offset + 1..i.offset + 1 + m]
    ensures IdentifierOf(letter, rest)(i) ==
      Some(Output(i.text[i.offset..i.offset + 1 + m], At(i, i.offset + 1 + m)))
  {
    assert [i.text[i.offset]] + i.text[i.offset + 1..i.offset + 1 + m] == i.text[i.offset..i.offset + 1 + m];
  }

  // ---------------------------------------------------------------------------
  // string

  /** The escape `\"`, kept as its two characters. */
  const Escape: string := "\\\""

  /** The width of the body part at `from`: 2 for an escape (tried first), 1
      for a plain character, 0 when the body ends there. */
  function BodyStep(text: string, from: nat): (w: nat)
    ensures w <= 2 && (w > 0 ==> from + w <= |text|)
  {
    if from + 1 < |text| && text[from] == '\\' && text[from + 1] == '"' then 2
    else if from < |text| && IsPlain(text[from]) then 1
    else 0
  }

  /** The body of a string literal from `from`: escapes and plain characters,
      at most `limit` of them; it stops where no body part fits. */
  function BodyLength(text: string, from: nat, limit: nat): (n: nat)
    ensures n > 0 ==> from + n <= |text|
    decreases |text| - from
  {
    if limit == 0 then 0
    else
      var w := BodyStep(text, from);
      if w == 0 then 0 else w + BodyLength(text, from + w, limit - 1)
  }

  /** The body under `repeat`'s default cap. */
  function Body(text: string, from: nat): nat {
    BodyLength(text, from, Repeat.IntMax)
  }

  /** The body holds no line break, and each double quote in it is the second
      character of an escape. */
  lemma {:induction false} BodyIsClean(text: string, from: nat, limit: nat)
    ensures var n := BodyLength(text, from, limit);
      (forall k :: from <= k < from + n ==> text[k] != '\n' && text[k] != '\r') &&
      (forall k :: from <= k < from + n && text[k] == '"' ==> from < k && text[k - 1] == '\\')
    decreases limit
  {
    var n := BodyLength(text, from, limit);
    if limit > 0 && BodyStep(text, from) > 0 {
      var w := BodyStep(text, from);
      BodyIsClean(text, from + w, limit - 1);
      assert n == w + BodyLength(text, from + w, limit - 1);
      if w == 1 {
        assert IsPlain(text[from]);
      }
    } else {
      assert n == 0;
    }
  }

  /** How many body parts BodyLength reads: one per escape or plain
      character. */
  function BodyParts(text: string, from: nat, limit: nat): (c: nat)
    ensures c <= limit
    decreases |text| - from
  {
    if limit == 0 then 0
    else
      var w := BodyStep(text, from);
      if w == 0 then 0 else 1 + BodyParts(text, from + w, limit - 1)
  }

  /** The body stops only where no body part fits, or when the cap on parts
      is reached. */
  lemma {:induction false} BodyIsLongest(text: string, from: nat, limit: nat)
    ensures BodyParts(text, from, limit) < limit ==> BodyStep(text, from + BodyLength(text, from, limit)) == 0
    decreases limit
  {
    if limit > 0 && BodyStep(text, from) > 0 {
      BodyIsLongest(text, from + BodyStep(text, from), limit - 1);
    }
  }

  /** `oneOf(str("\\\""), plain)`. */
  function BodyPart<V>(plain: Parser<string, V>): Parser<string, V> {
    OneOf.OneOf([Strings.Str(Escape), plain])
  }

  /** What the body part answers at `i`: the next body step, as it stands in
      the text, or no match where the body ends. */
  function BodyPartAnswer<V>(i: Input<V>): Option<Output<string, V>>
    requires Valid(i)
  {
    var w := BodyStep(i.text, i.offset);
    if w == 0 then None else Some(Output(i.text[i.offset..i.offset + w], At(i, i.offset + w)))
  }

  ghost predicate BodyPartParser<V(!new)>(part: Parser<string, V>) {
    forall i: Input<V> {:trigger part(i)} | Valid(i) :: part(i) == BodyPartAnswer(i)
  }

  lemma BodyPartIsEscapeOrPlain<V(!new)>(plain: Parser<string, V>)
    requires ClassParser(plain, IsPlain)
    ensures BodyPartParser(BodyPart(plain))
  {
    forall i: Input<V> | Valid(i) {
      BodyPartAt(plain, i);
    }
  }

  lemma BodyPartAt<V(!new)>(plain: Parser<string, V>, i: Input<V>)
    requires ClassParser(plain, IsPlain) && Valid(i)
    ensures BodyPart(plain)(i) == BodyPartAnswer(i)
  {
    var escape := Strings.Str<V>(Escape);
    FirstOfTwo(escape, plain, i);
    assert BodyPart(plain)(i) == OneOf.FirstMatch([escape, plain], i);
    assert plain(i) == CharIn(IsPlain)(i);
    Strings.StrMatchesIffPrefix<V>(Escape, i);
    var t := i.text;
    var k := i.offset;
    assert Strings.IsPrefixAt(Escape, t, k) <==> k + 1 < |t| && t[k] == '\\' && t[k + 1] == '"' by {
      if k + 1 < |t| {
        SliceOfTwo(t, k);
      }
    }
    if !Strings.IsPrefixAt(Escape, t, k) && k < |t| && IsPlain(t[k]) {
      SliceOfOne(t, k);
    }
  }

  /** Repeating the body part from `i`, at most `limit` times, reads the body
      as it stands in the text. */
  ghost predicate ReadsBody<V(!new)>(part: Parser<string, V>, limit: int, i: Input<V>)
    requires limit >= 1 && Valid(i)
  {
    CollectsTo(part, limit, i, BodyLength(i.text, i.offset, limit))
  }

  lemma {:induction false} CollectBody<V(!new)>(part: Parser<string, V>, limit: int, i: Input<V>)
    requires BodyPartParser(part) && limit >= 1 && Valid(i)
    ensures ReadsBody(part, limit, i)
    decreases limit
  {
    assert part(i) == BodyPartAnswer(i);
    var w := BodyStep(i.text, i.offset);
    if w > 0 && limit > 1 {
      CollectBody(part, limit - 1, At(i, i.offset + w));
    }
    CollectBodyStep(part, limit, i);
  }

  /** One step of CollectBody: the body part at `i`, then the rest as the
      induction hypothesis gives it. */
  lemma CollectBodyStep<V(!new)>(part: Parser<string, V>, limit: int, i: Input<V>)
    requires limit >= 1 && Valid(i) && part(i) == BodyPartAnswer(i)
    requires var w := BodyStep(i.text, i.offset);
      w > 0 && limit > 1 ==> ReadsBody(part, limit - 1, At(i, i.offset + w))
    ensures ReadsBody(part, limit, i)
  {
    var w := BodyStep(i.text, i.offset);
    if w == 0 {
      assert part(i) == None;
      CollectNothing(part, limit, i);
    } else if limit == 1 {
      CollectLastSlice(part, i, w);
    } else {
      var m := BodyLength(i.text, i.offset + w, limit - 1);
      assert BodyLength(i.text, i.offset, limit) == w + m;
      assert CollectsTo(part, limit - 1, At(i, i.offset + w), m);
      CollectSlices(part, limit, i, w, m);
    }
  }

  /** `q` reads the body of a string literal. */
  ghost predicate BodyParser<V(!new)>(q: Parser<seq<string>, V>) {
    forall i: Input<V> {:trigger q(i)} | Valid(i) ::
      q(i).Some? &&
      Concat(q(i).value.payload) == i.text[i.offset..i.offset + Body(i.text, i.offset)] &&
      q(i).value.next == At(i, i.offset + Body(i.text, i.offset))
  }

  lemma RepeatBody<V(!new)>(plain: Parser<string, V>)
    requires ClassParser(plain, IsPlain)
    ensures BodyParser(Repeat.ZeroOrMore(BodyPart(plain)))
  {
    BodyPartIsEscapeOrPlain(plain);
    forall i: Input<V> | Valid(i) {
      CollectBody(BodyPart(plain), Repeat.IntMax, i);
    }
  }

  /** `inOrder(str("\""), repeat(oneOf(str("\\\""), plain)), str("\""))`
      mapped to the body's text, over the repeated body part. */
  function StringOf<V>(body: Parser<seq<string>, V>): Parser<string, V> {
    Parsers.Map(
      InOrder.InOrder3(Strings.Str("\""), body, Strings.Str("\"")),
      (parts: InOrder.List3<string, seq<string>, string>) => Concat(parts.value2))
  }

  function StringLiteral<V(!new)>(): Parser<string, V> {
    StringOf(Repeat.ZeroOrMore(BodyPart(Plain())))
  }

  /** A string literal is a double quote, the body, and a double quote; the
      payload is the body exactly as written (see BodyIsClean). */
  lemma StringIsQuotedBody<V(!new)>(body: Parser<seq<string>, V>, i: Input<V>)
    requires BodyParser(body) && Valid(i)
    ensures var s := i.offset + 1;
      var e := s + Body(i.text, s);
      StringOf(body)(i) ==
        if i.offset < |i.text| && i.text[i.offset] == '"' && e < |i.text| && i.text[e] == '"'
        then Some(Output(i.text[s..e], At(i, e + 1)))
        else None
  {
    assert "\"" == ['"'];
    CharLiteral<V>("\"", i);
    if i.offset < |i.text| && i.text[i.offset] == '"' {
      var s := At(i, i.offset + 1);
      var _ := body(s);
      var e := s.offset + Body(i.text, s.offset);
      CharLiteral<V>("\"", At(i, e));
    }
  }

  // ---------------------------------------------------------------------------
  // token, joinedWith

  /** `inOrder(zeroOrMore(whitespace), str(s), zeroOrMore(whitespace)).skipWrapper()`,
      over `zeroOrMore(whitespace)`: the middle payload. */
  function TokenWith<V>(spaces: Parser<seq<string>, V>, s: string): Parser<string, V> {
    Parsers.Map(
      InOrder.InOrder3(spaces, Strings.Str(s), spaces),
      (parts: InOrder.List3<seq<string>, string, seq<string>>) => parts.value2)
  }

  function Token<V(!new)>(s: string): Parser<string, V> {
    TokenWith(Repeat.ZeroOrMore(Whitespace()), s)
  }

  /** Where `token(s)` stops reading `text` from `from`: past the whitespace
      run, `s` and the whitespace run after it; None when `s` does not follow
      the first run. */
  function TokenEnd(skip: char -> bool, s: string, text: string, from: nat): Option<nat> {
    var a := from + Run(skip, text, from);
    if Strings.IsPrefixAt(s, text, a) then Some(a + |s| + Run(skip, text, a + |s|)) else None
  }

  /** The token parser's answer for a given end. */
  function TokenResult<V>(s: string, i: Input<V>, end: Option<nat>): Option<Output<string, V>> {
    if end.None? then None else Some(Output(s, At(i, end.value)))
  }

  /** `token(s)` skips the whitespace before `s`, requires `s` there, skips the
      whitespace after it, and yields exactly `s`. */
  lemma TokenOutcome<V(!new)>(spaces: Parser<seq<string>, V>, skip: char -> bool, s: string, i: Input<V>)
    requires RunParser(spaces, skip, 0) && Valid(i)
    ensures TokenWith(spaces, s)(i) == TokenResult(s, i, TokenEnd(skip, s, i.text, i.offset))
  {
    var a := i.offset + Run(skip, i.text, i.offset);
    if Strings.IsPrefixAt(s, i.text, a) {
      var c := a + |s| + Run(skip, i.text, a + |s|);
      TokenOutcomePresent(spaces, skip, s, i, a);
      TokenEndPresent(skip, s, i.text, i.offset, a);
      assert TokenResult(s, i, Some(c)) == Some(Output(s, At(i, c)));
    } else {
      TokenOutcomeAbsent(spaces, skip, s, i, a);
      TokenEndAbsent(skip, s, i.text, i.offset, a);
    }
  }

  lemma TokenEndPresent(skip: char -> bool, s: string, text: string, from: nat, a: nat)
    requires a == from + Run(skip, text, from) && Strings.IsPrefixAt(s, text, a)
    ensures TokenEnd(skip, s, text, from) == Some(a + |s| + Run(skip, text, a + |s|))
  {
  }

  lemma TokenEndAbsent(skip: char -> bool, s: string, text: string, from: nat, a: nat)
    requires a == from + Run(skip, text, from) && !Strings.IsPrefixAt(s, text, a)
    ensures TokenEnd(skip, s, text, from) == None
  {
  }

  /** `s` follows the leading whitespace, which ends at `a`. */
  lemma TokenOutcomePresent<V(!new)>(spaces: Parser<seq<string>, V>, skip: char -> bool, s: string, i: Input<V>, a: nat)
    requires RunParser(spaces, skip, 0) && Valid(i)
    requires a == i.offset + Run(skip, i.text, i.offset) && Strings.IsPrefixAt(s, i.text, a)
    ensures TokenWith(spaces, s)(i) == Some(Output(s, At(i, a + |s| + Run(skip, i.text, a + |s|))))
  {
    RunEndAt(spaces, skip, 0, i);
    RunEndAt(spaces, skip, 0, At(i, a + |s|));
    TokenPresent(spaces, s, i, a, a + |s| + Run(skip, i.text, a + |s|));
  }

  /** `s` does not follow the leading whitespace, which ends at `a`. */
  lemma TokenOutcomeAbsent<V(!new)>(spaces: Parser<seq<string>, V>, skip: char -> bool, s: string, i: Input<V>, a: nat)
    requires RunParser(spaces, skip, 0) && Valid(i)
    requires a == i.offset + Run(skip, i.text, i.offset) && !Strings.IsPrefixAt(s, i.text, a)
    ensures TokenWith(spaces, s)(i) == None
  {
    RunEndAt(spaces, skip, 0, i);
    TokenAbsent(spaces, s, i, a);
  }

  /** `s` after the leading whitespace, which ends at `a`; the trailing
      whitespace ends at `c`. */
  lemma TokenPresent<V>(spaces: Parser<seq<string>, V>, s: string, i: Input<V>, a: nat, c: nat)
    requires Valid(i) && a <= |i.text| && Strings.IsPrefixAt(s, i.text, a)
    requires spaces(i).Some? && spaces(i).value.next == At(i, a)
    requires spaces(At(i, a + |s|)).Some? && spaces(At(i, a + |s|)).value.next == At(i, c)
    ensures TokenWith(spaces, s)(i) == Some(Output(s, At(i, c)))
  {
    assert Strings.Str<V>(s)(At(i, a)) == Some(Output(s, At(i, a + |s|))) by {
      Strings.StrMatchesIffPrefix<V>(s, At(i, a));
    }
    TokenAround(spaces, s, i, a, c);
  }

  /** No `s` after the leading whitespace. */
  lemma TokenAbsent<V>(spaces: Parser<seq<string>, V>, s: string, i: Input<V>, a: nat)
    requires Valid(i) && a <= |i.text| && !Strings.IsPrefixAt(s, i.text, a)
    requires spaces(i).Some? && spaces(i).value.next == At(i, a)
    ensures TokenWith(spaces, s)(i) == None
  {
    assert Strings.Str<V>(s)(At(i, a)).None? by {
      Strings.StrMatchesIffPrefix<V>(s, At(i, a));
    }
    TokenMissing(spaces, s, i, a);
  }

  /** Whitespace up to `a`, `s` there, whitespace up to `c`. */
  lemma TokenAround<V>(spaces: Parser<seq<string>, V>, s: string, i: Input<V>, a: nat, c: nat)
    requires spaces(i).Some? && spaces(i).value.next == At(i, a)
    requires Strings.Str<V>(s)(At(i, a)) == Some(Output(s, At(i, a + |s|)))
    requires spaces(At(i, a + |s|)).Some? && spaces(At(i, a + |s|)).value.next == At(i, c)
    ensures TokenWith(spaces, s)(i) == Some(Output(s, At(i, c)))
  {
  }

  /** Whitespace up to `a`, and not `s` there. */
  lemma TokenMissing<V>(spaces: Parser<seq<string>, V>, s: string, i: Input<V>, a: nat)
    requires spaces(i).Some? && spaces(i).value.next == At(i, a)
    requires Strings.Str<V>(s)(At(i, a)).None?
    ensures TokenWith(spaces, s)(i) == None
  {
  }

  // ---------------------------------------------------------------------------
  // The parsers of `Tokens`

  lemma TokensRuns<V(!new)>()
    ensures RunParser(Repeat.OneOrMore(Digit<V>()), IsDigit, 1)
    ensures RunParser(Repeat.ZeroOrMore(Whitespace<V>()), IsWhitespace, 0)
    ensures RunParser(Repeat.ZeroOrMore(IdentifierPart<V>()), IsIdentifierPart, 0)
    ensures BodyParser(Repeat.ZeroOrMore(BodyPart(Plain<V>())))
  {
    CharClasses<V>();
    RepeatClass(Digit<V>(), IsDigit);
    RepeatClass(Whitespace<V>(), IsWhitespace);
    RepeatClass(IdentifierPart<V>(), IsIdentifierPart);
    RepeatBody(Plain<V>());
  }

  /** `Tokens.integer`: the longest digit run, of at least one digit. */
  lemma TokensInteger<V(!new)>(i: Input<V>)
    requires Valid(i)
    ensures var n := Run(IsDigit, i.text, i.offset);
      Integer<V>()(i) ==
        if n == 0 then None else Some(Output(i.text[i.offset..i.offset + n], At(i, i.offset + n)))
  {
    TokensRuns<V>();
    IntegerIsDigitRun(Repeat.OneOrMore(Digit<V>()), i);
  }

  /** `Tokens.number`: digits, then a fraction only when a digit follows the ".". */
  lemma TokensNumber<V(!new)>(i: Input<V>)
    requires Valid(i)
    ensures var n := Run(IsDigit, i.text, i.offset);
      var e := NumberEnd(i.text, i.offset);
      Number<V>()(i) == if n == 0 then None else Some(Output(i.text[i.offset..e], At(i, e)))
  {
    TokensRuns<V>();
    NumberIsDigitsThenFraction(Repeat.OneOrMore(Digit<V>()), i);
  }

  /** `Tokens.identifier`: a letter, then letters, digits, '$' and '_'. */
  lemma TokensIdentifier<V(!new)>(i: Input<V>)
    requires Valid(i)
    ensures var m := Run(IsIdentifierPart, i.text, i.offset + 1);
      Identifier<V>()(i) ==
        if i.offset < |i.text| && IsLetter(i.text[i.offset])
        then Some(Output(i.text[i.offset..i.offset + 1 + m], At(i, i.offset + 1 + m)))
        else None
  {
    TokensRuns<V>();
    CharClasses<V>();
    IdentifierIsRun(Letter(), IsLetter, Repeat.ZeroOrMore(IdentifierPart<V>()), IsIdentifierPart, i);
  }

  /** `Tokens.string`: quotes around a body of escapes and plain characters. */
  lemma TokensString<V(!new)>(i: Input<V>)
    requires Valid(i)
    ensures var s := i.offset + 1;
      var e := s + Body(i.text, s);
      StringLiteral<V>()(i) ==
        if i.offset < |i.text| && i.text[i.offset] == '"' && e < |i.text| && i.text[e] == '"'
        then Some(Output(i.text[s..e], At(i, e + 1)))
        else None
  {
    TokensRuns<V>();
    StringIsQuotedBody(Repeat.ZeroOrMore(BodyPart(Plain<V>())), i);
  }

  /** `token(s)` of `Tokens`. */
  lemma TokensToken<V(!new)>(s: string, i: Input<V>)
    requires Valid(i)
    ensures var end := TokenEnd(IsWhitespace, s, i.text, i.offset);
      Token<V>(s)(i) == if end.None? then None else Some(Output(s, At(i, end.value)))
  {
    TokensRuns<V>();
    TokenOutcome(Repeat.ZeroOrMore(Whitespace<V>()), IsWhitespace, s, i);
  }

  /** The second payloads of the separator-element pairs. */
  function Seconds<S, T>(pairs: seq<InOrder.List2<S, T>>): (r: seq<T>)
    ensures |r| == |pairs| && forall k :: 0 <= k < |pairs| ==> r[k] == pairs[k].value2
  {
    seq(|pairs|, k requires 0 <= k < |pairs| => pairs[k].value2)
  }

  /** `optional(inOrder(this, repeat(inOrder(separator, this))))` mapped to the
      head followed by the elements of the pairs. */
  function JoinedWith<S, T, V(!new)>(p: Parser<T, V>, separator: Parser<S, V>): Parser<seq<T>, V> {
    Parsers.Map(
      Repeat.Optional(InOrder.InOrder2(p, Repeat.Repeat(InOrder.InOrder2(separator, p), 0, Repeat.IntMax))),
      (found: Option<InOrder.List2<T, seq<InOrder.List2<S, T>>>>) =>
        match found
        case None => []
        case Some(parts) => [parts.value1] + Seconds(parts.value2))
  }

  /** No first element: an empty list, nothing consumed. */
  lemma JoinedWithEmpty<S, T, V(!new)>(p: Parser<T, V>, separator: Parser<S, V>, i: Input<V>)
    requires p(i).None?
    ensures JoinedWith(p, separator)(i) == Some(Output([], i))
  {
    var inner := InOrder.InOrder2(p, Repeat.Repeat(InOrder.InOrder2(separator, p), 0, Repeat.IntMax));
    Repeat.OptionalOutcome(inner, i);
  }

  /** With a first element: the head, then the element of each
      separator-element pair matched in turn after it, separators dropped,
      up to the first pair that fails (or the cap). */
  lemma JoinedWithElements<S, T, V(!new)>(p: Parser<T, V>, separator: Parser<S, V>, i: Input<V>)
    returns (pairs: seq<InOrder.List2<S, T>>)
    requires p(i).Some?
    ensures var r := JoinedWith(p, separator)(i);
      var pair := InOrder.InOrder2(separator, p);
      r.Some? && r.value.payload == [p(i).value.payload] + Seconds(pairs) &&
      Repeat.IsRun(pair, p(i).value.next, pairs, r.value.next) &&
      Repeat.Halted(pair, Repeat.IntMax, pairs, r.value.next)
  {
    var pair := InOrder.InOrder2(separator, p);
    var tail := Repeat.Repeat(pair, 0, Repeat.IntMax);
    var inner := InOrder.InOrder2(p, tail);
    var head := p(i).value;
    Repeat.CollectIsHaltedRun(pair, Repeat.IntMax, head.next);
    var (xs, j) := Repeat.Collect(pair, Repeat.IntMax, head.next);
    assert tail(head.next) == Some(Output(xs, j));
    assert inner(i) == Some(Output(InOrder.List2(head.payload, xs), j));
    Repeat.OptionalOutcome(inner, i);
    pairs := xs;
  }
}
