/** The driver: parse a whole text with a root parser, or report why not. */
module Util {
  import opened Core

  /** The payload, or one of the two parsing errors with its message. */
  datatype Result<T> =
    | Parsed(payload: T)
    | NoMatchingParsers(message: string)
    | InputIsNotConsumed(message: string)

  /** `n` spaces. */
  function Spaces(n: nat): (s: string)
    ensures |s| == n && forall k :: 0 <= k < n ==> s[k] == ' '
  {
    if n == 0 then "" else Spaces(n - 1) + " "
  }

  /** The message of `InputIsNotConsumed`: the text on its own line, a caret
      under the offset where parsing stopped, then the payload as `show`
      renders it (Kotlin's `toString`, which is not modelled). */
  function NotConsumedMessage<T, V>(o: Output<T, V>, show: T -> string): string {
    "\n" + o.next.text + "\n" + Spaces(o.next.offset) + "^\n" + "payload = " + show(o.payload)
  }

  /** `text.parseWith(parser)`: start at offset 0 with nothing injected; no
      match, or a match that stops short of the end of its text, is an error. */
  function ParseWith<T, V>(text: string, parser: Parser<T, V>, show: T -> string): Result<T> {
    match parser(FromText(text))
    case None => NoMatchingParsers(text)
    case Some(o) =>
      if o.next.offset < |o.next.text| then InputIsNotConsumed(NotConsumedMessage(o, show))
      else Parsed(o.payload)
  }

  /** The parser sees the bare text at offset 0; for a parser keeping the
      contract, the result is the payload exactly when the parser matches and
      ends at the end of the text, and the two errors tell the other cases
      apart. */
  lemma ParseWithOutcome<T, V(!new)>(text: string, parser: Parser<T, V>, show: T -> string)
    requires WellBehaved(parser)
    ensures var start: Input<V> := Input(text, 0, None, NoLeft);
      ParseWith(text, parser, show).Parsed? <==>
        parser(start).Some? && parser(start).value.next.offset == |text|
    ensures var start: Input<V> := Input(text, 0, None, NoLeft);
      ParseWith(text, parser, show).Parsed? ==>
        ParseWith(text, parser, show).payload == parser(start).value.payload
    ensures var start: Input<V> := Input(text, 0, None, NoLeft);
      ParseWith(text, parser, show) == NoMatchingParsers(text) <==> parser(start).None?
    ensures var start: Input<V> := Input(text, 0, None, NoLeft);
      ParseWith(text, parser, show).InputIsNotConsumed? <==>
        parser(start).Some? && parser(start).value.next.offset < |text|
  {
    var start: Input<V> := FromText(text);
    assert Valid(start);
  }

  /** The caret of the message sits on the second line, under the character
      at the offset the parse stopped at: the first line is empty, the second
      is the text, the third is `offset` spaces and the caret. */
  lemma CaretUnderOffset<T, V>(o: Output<T, V>, show: T -> string)
    ensures var m := NotConsumedMessage(o, show);
      var textLine := 1;
      var caretLine := textLine + |o.next.text| + 1;
      |m| > caretLine + o.next.offset + 1 &&
      m[0] == '\n' && m[textLine..textLine + |o.next.text|] == o.next.text &&
      m[caretLine - 1] == '\n' &&
      (forall k :: caretLine <= k < caretLine + o.next.offset ==> m[k] == ' ') &&
      m[caretLine + o.next.offset] == '^' && m[caretLine + o.next.offset + 1] == '\n'
  {
    var m := NotConsumedMessage(o, show);
    var t := o.next.text;
    var n := o.next.offset;
    var head := "\n" + t + "\n";
    assert m == head + Spaces(n) + "^\n" + "payload = " + show(o.payload);
    assert m[..|head|] == head;
    assert m[|head|..|head| + n] == Spaces(n);
  }

  /** The calculator's message for "(1))", which stops at offset 3. */
  lemma ParenExampleMessage<T, V>(o: Output<T, V>, show: T -> string)
    requires o.next.text == "(1))" && o.next.offset == 3
    requires show(o.payload) == "Number(value=1)"
    ensures NotConsumedMessage(o, show) == "\n(1))\n   ^\npayload = Number(value=1)"
  {
    assert Spaces(3) == "   " by {
      assert Spaces(1) == " ";
      assert Spaces(2) == "  ";
    }
    assert "\n" + "(1))" + "\n" == "\n(1))\n";
    assert "\n(1))\n" + "   " + "^\n" == "\n(1))\n   ^\n";
    assert "\n(1))\n   ^\n" + "payload = " + "Number(value=1)" == "\n(1))\n   ^\npayload = Number(value=1)";
  }

  /** The calculator's message for "1 + 2 + ", which stops at offset 5: the
      text, five spaces and the caret, then the payload line. */
  lemma PlusExampleMessage<T, V>(o: Output<T, V>, show: T -> string)
    requires o.next.text == "1 + 2 + " && o.next.offset == 5
    requires show(o.payload) == "Plus(left=Number(value=1), right=Number(value=2))"
    ensures NotConsumedMessage(o, show) ==
      "\n1 + 2 + \n     ^\n" + "payload = " + "Plus(left=Number(value=1), right=Number(value=2))"
  {
    assert Spaces(5) == "     " by {
      assert Spaces(1) == " ";
      assert Spaces(2) == "  ";
      assert Spaces(3) == "   ";
      assert Spaces(4) == "    ";
    }
    assert "\n" + o.next.text + "\n" + Spaces(5) + "^\n" == "\n1 + 2 + \n     ^\n";
  }
}
