/** The older `CommonParsers` object: the lexical parsers of `Tokens` built
    again, each one-character class read by `regex` with a character-class
    pattern. The compounds are the shared definitions of module Tokens, so
    what differs is only the classes, and `letter` admits '$' and '_'. */
module CommonParsers {
  import opened Core
  import Strings
  import Repeat
  import OneOf
  import Tokens

  /** `[a-zA-Z$_]`. */
  predicate IsLetter(c: char) { Tokens.IsLetter(c) || Tokens.IsDollarOrUnderscore(c) }

  /** `regex` over a one-character class pattern. */
  function ClassRegex<V>(inClass: char -> bool): Parser<string, V> {
    Strings.ClassFinderOk(inClass);
    Strings.Regex(Strings.ClassFinder(inClass))
  }

  /** `regex("[ \\t\\r\\n]")`. */
  function Whitespace<V>(): Parser<string, V> {
    ClassRegex(Tokens.IsWhitespace)
  }

  /** `regex("[0-9]")`. */
  function Digit<V>(): Parser<string, V> {
    ClassRegex(Tokens.IsDigit)
  }

  /** `regex("[a-zA-Z\$_]")`. */
  function Letter<V>(): Parser<string, V> {
    ClassRegex(IsLetter)
  }

  /** `oneOf(letter, digit)`, what follows an identifier's first letter: the
      same class as the identifier part of `Tokens` (letters, digits, '$',
      '_'). */
  function LetterOrDigit<V>(): Parser<string, V> {
    OneOf.OneOf([Letter(), Digit()])
  }

  /** `regex("[^\"\n\r]")`, a character a string literal holds as it is. */
  function Plain<V>(): Parser<string, V> {
    ClassRegex(Tokens.IsPlain)
  }

  function Integer<V(!new)>(): Parser<string, V> {
    Tokens.IntegerOf(Repeat.OneOrMore(Digit()))
  }

  function Number<V(!new)>(): Parser<string, V> {
    Tokens.NumberOf(Repeat.OneOrMore(Digit()))
  }

  /** `inOrder(letter, repeat(oneOf(letter, digit)))` joined into one string. */
  function Identifier<V(!new)>(): Parser<string, V> {
    Tokens.IdentifierOf(Letter(), Repeat.ZeroOrMore(LetterOrDigit()))
  }

  function StringLiteral<V(!new)>(): Parser<string, V> {
    Tokens.StringOf(Repeat.ZeroOrMore(Tokens.BodyPart(Plain())))
  }

  function Token<V(!new)>(s: string): Parser<string, V> {
    Tokens.TokenWith(Repeat.ZeroOrMore(Whitespace()), s)
  }

  // ---------------------------------------------------------------------------
  // One character

  /** A class pattern matches one character of the class at the offset, and
      nothing else: the engine's first hit further on is refused because it
      does not start at the offset. */
  lemma ClassRegexReadsOne<V>(inClass: char -> bool, i: Input<V>)
    ensures ClassRegex<V>(inClass)(i) == Tokens.CharIn(inClass)(i)
  {
    Strings.ClassFinderOk(inClass);
    var r := Strings.FirstInClass(inClass, i.text, i.offset);
    assert Strings.ClassFinder(inClass)(i.text, i.offset) == r;
    if i.offset < |i.text| && inClass(i.text[i.offset]) {
      assert r == Some(Strings.Match(i.offset, i.offset + 1));
      assert i.text[i.offset..i.offset + 1] == [i.text[i.offset]];
    } else if r.Some? {
      assert r.value.start != i.offset;
    }
  }

  lemma CharClasses<V(!new)>()
    ensures Tokens.ClassParser(Whitespace<V>(), Tokens.IsWhitespace)
    ensures Tokens.ClassParser(Digit<V>(), Tokens.IsDigit)
    ensures Tokens.ClassParser(Letter<V>(), IsLetter)
    ensures Tokens.ClassParser(LetterOrDigit<V>(), Tokens.IsIdentifierPart)
    ensures Tokens.ClassParser(Plain<V>(), Tokens.IsPlain)
  {
    forall i: Input<V>
      ensures Whitespace<V>()(i) == Tokens.CharIn(Tokens.IsWhitespace)(i)
      ensures Digit<V>()(i) == Tokens.CharIn(Tokens.IsDigit)(i)
      ensures Letter<V>()(i) == Tokens.CharIn(IsLetter)(i)
      ensures Plain<V>()(i) == Tokens.CharIn(Tokens.IsPlain)(i)
    {
      ClassRegexReadsOne<V>(Tokens.IsWhitespace, i);
      ClassRegexReadsOne<V>(Tokens.IsDigit, i);
      ClassRegexReadsOne<V>(IsLetter, i);
      ClassRegexReadsOne<V>(Tokens.IsPlain, i);
    }
    forall i: Input<V> ensures LetterOrDigit<V>()(i) == Tokens.CharIn(Tokens.IsIdentifierPart)(i) {
      LetterOrDigitAt(i);
    }
  }

  lemma LetterOrDigitAt<V>(i: Input<V>)
    ensures LetterOrDigit<V>()(i) == Tokens.CharIn(Tokens.IsIdentifierPart)(i)
  {
    ClassRegexReadsOne<V>(Tokens.IsDigit, i);
    ClassRegexReadsOne<V>(IsLetter, i);
    Tokens.FirstOfTwo(Letter<V>(), Digit<V>(), i);
    assert LetterOrDigit<V>()(i) == OneOf.FirstMatch([Letter<V>(), Digit<V>()], i);
    if i.offset < |i.text| {
      var c := i.text[i.offset];
      assert Tokens.IsIdentifierPart(c) <==> IsLetter(c) || Tokens.IsDigit(c);
    }
  }

  lemma Runs<V(!new)>()
    ensures Tokens.RunParser(Repeat.OneOrMore(Digit<V>()), Tokens.IsDigit, 1)
    ensures Tokens.RunParser(Repeat.ZeroOrMore(Whitespace<V>()), Tokens.IsWhitespace, 0)
    ensures Tokens.RunParser(Repeat.ZeroOrMore(LetterOrDigit<V>()), Tokens.IsIdentifierPart, 0)
    ensures Tokens.BodyParser(Repeat.ZeroOrMore(Tokens.BodyPart(Plain<V>())))
  {
    CharClasses<V>();
    Tokens.RepeatClass(Digit<V>(), Tokens.IsDigit);
    Tokens.RepeatClass(Whitespace<V>(), Tokens.IsWhitespace);
    Tokens.RepeatClass(LetterOrDigit<V>(), Tokens.IsIdentifierPart);
    Tokens.RepeatBody(Plain<V>());
  }

  // ---------------------------------------------------------------------------
  // The parsers of `CommonParsers`

  /** `whitespace`, `digit` and `letter` each read one character of their
      class; `letter` reads '$' and '_' as well as the ASCII letters. */
  lemma OneCharacter<V(!new)>(i: Input<V>)
    ensures Whitespace<V>()(i).Some? <==> i.offset < |i.text| && Tokens.IsWhitespace(i.text[i.offset])
    ensures Digit<V>()(i).Some? <==> i.offset < |i.text| && Tokens.IsDigit(i.text[i.offset])
    ensures Letter<V>()(i).Some? <==>
      i.offset < |i.text| && (Tokens.IsLetter(i.text[i.offset]) || i.text[i.offset] in "$_")
    ensures Letter<V>()(i).Some? ==>
      Letter<V>()(i) == Some(Output([i.text[i.offset]], At(i, i.offset + 1)))
  {
    CharClasses<V>();
    Tokens.ClassParserOutcome(Whitespace<V>(), Tokens.IsWhitespace, i);
    Tokens.ClassParserOutcome(Digit<V>(), Tokens.IsDigit, i);
    Tokens.ClassParserOutcome(Letter<V>(), IsLetter, i);
  }

  /** `integer`: the longest digit run, of at least one digit. */
  lemma IntegerIsDigitRun<V(!new)>(i: Input<V>)
    requires Valid(i)
    ensures var n := Tokens.Run(Tokens.IsDigit, i.text, i.offset);
      Integer<V>()(i) ==
        if n == 0 then None else Some(Output(i.text[i.offset..i.offset + n], At(i, i.offset + n)))
  {
    Runs<V>();
    Tokens.IntegerIsDigitRun(Repeat.OneOrMore(Digit<V>()), i);
  }

  /** `number`: digits, then a fraction only when a digit follows the ".". */
  lemma NumberIsDigitsThenFraction<V(!new)>(i: Input<V>)
    requires Valid(i)
    ensures var n := Tokens.Run(Tokens.IsDigit, i.text, i.offset);
      var e := Tokens.NumberEnd(i.text, i.offset);
      Number<V>()(i) == if n == 0 then None else Some(Output(i.text[i.offset..e], At(i, e)))
  {
    Runs<V>();
    Tokens.NumberIsDigitsThenFraction(Repeat.OneOrMore(Digit<V>()), i);
  }

  /** `identifier`: a letter ('$' and '_' included), then the longest run of
      letters and digits ('$' and '_' again included). */
  lemma IdentifierIsRun<V(!new)>(i: Input<V>)
    requires Valid(i)
    ensures var m := Tokens.Run(Tokens.IsIdentifierPart, i.text, i.offset + 1);
      Identifier<V>()(i) ==
        if i.offset < |i.text| && IsLetter(i.text[i.offset])
        then Some(Output(i.text[i.offset..i.offset + 1 + m], At(i, i.offset + 1 + m)))
        else None
  {
    Runs<V>();
    CharClasses<V>();
    Tokens.IdentifierIsRun(Letter(), IsLetter, Repeat.ZeroOrMore(LetterOrDigit<V>()), Tokens.IsIdentifierPart, i);
  }

  /** `string`: quotes around a body of escaped quotes and plain characters;
      the payload is the body as written. */
  lemma StringIsQuotedBody<V(!new)>(i: Input<V>)
    requires Valid(i)
    ensures var s := i.offset + 1;
      var e := s + Tokens.Body(i.text, s);
      StringLiteral<V>()(i) ==
        if i.offset < |i.text| && i.text[i.offset] == '"' && e < |i.text| && i.text[e] == '"'
        then Some(Output(i.text[s..e], At(i, e + 1)))
        else None
  {
    Runs<V>();
    Tokens.StringIsQuotedBody(Repeat.ZeroOrMore(Tokens.BodyPart(Plain<V>())), i);
  }

  /** `token(s)`: whitespace skipped on both sides of `s`, payload `s`. */
  lemma TokenSkipsWhitespace<V(!new)>(s: string, i: Input<V>)
    requires Valid(i)
    ensures var end := Tokens.TokenEnd(Tokens.IsWhitespace, s, i.text, i.offset);
      Token<V>(s)(i) == if end.None? then None else Some(Output(s, At(i, end.value)))
  {
    Runs<V>();
    Tokens.TokenOutcome(Repeat.ZeroOrMore(Whitespace<V>()), Tokens.IsWhitespace, s, i);
  }

  // ---------------------------------------------------------------------------
  // The two generations side by side

  /** `integer`, `number`, `string` and `token` answer exactly as their
      counterparts in `Tokens` do. */
  lemma SameAsTokens<V(!new)>(s: string, i: Input<V>)
    requires Valid(i)
    ensures Integer<V>()(i) == Tokens.Integer<V>()(i)
    ensures Number<V>()(i) == Tokens.Number<V>()(i)
    ensures StringLiteral<V>()(i) == Tokens.StringLiteral<V>()(i)
    ensures Token<V>(s)(i) == Tokens.Token<V>(s)(i)
  {
    IntegerIsDigitRun(i);
    Tokens.TokensInteger(i);
    NumberIsDigitsThenFraction(i);
    Tokens.TokensNumber(i);
    StringIsQuotedBody(i);
    Tokens.TokensString(i);
    TokenSkipsWhitespace(s, i);
    Tokens.TokensToken(s, i);
  }

  /** The two `identifier`s read the same characters after the first one, so
      they agree exactly when the first character is not '$' or '_', which
      only the older `letter` admits. */
  lemma IdentifiersDifferOnlyAtDollarOrUnderscore<V(!new)>(i: Input<V>)
    requires Valid(i)
    ensures Identifier<V>()(i) == Tokens.Identifier<V>()(i) <==>
      !(i.offset < |i.text| && Tokens.IsDollarOrUnderscore(i.text[i.offset]))
  {
    IdentifierIsRun(i);
    Tokens.TokensIdentifier(i);
  }
}
