/** The inject-continuation plumbing of the inject-based left-associative fold.
    A caller may hand a parser a continuation through the Input; whoever returns
    an Input still carrying it gets it applied to their payload exactly once.
    The same two functions appear again in associativity.kt:54-67. */
module LeftAssociativity {
  import opened Core

  /** `noInjectPayload()`: the same Input without a continuation. */
  function NoInject<V>(i: Input<V>): Input<V> {
    i.(inject := None)
  }

  /** `parseWithInject(input, inject)`: parse with the continuation `inject`; if
      the Input the parser returns still carries a continuation, apply it to the
      payload; the result never carries one. The payload type is the
      continuation's, as the unchecked cast `as T` of `parseWithInject` requires. */
  function ParseWithInject<V>(p: Parser<V, V>, input: Input<V>, inject: Option<V -> V>): Option<Output<V, V>> {
    match p(input.(inject := inject))
    case None => None
    case Some(o) =>
      Some(Output(
        if o.next.inject.None? then o.payload else o.next.inject.value(o.payload),
        NoInject(o.next)))
  }

  /** The default argument: the Input's own continuation. */
  function ParseWithOwnInject<V>(p: Parser<V, V>, input: Input<V>): Option<Output<V, V>> {
    ParseWithInject(p, input, input.inject)
  }

  /** `parseHidingInject(input)`: parse without a continuation, leave the payload
      alone, and give the caller's continuation back on the result. */
  function ParseHidingInject<T, V>(p: Parser<T, V>, input: Input<V>): Option<Output<T, V>> {
    match p(NoInject(input))
    case None => None
    case Some(o) => Some(Output(o.payload, o.next.(inject := input.inject)))
  }

  /** `parseHidingInject` as a parser in its own right. */
  function HidingInject<T, V>(p: Parser<T, V>): Parser<T, V> {
    (i: Input<V>) => ParseHidingInject(p, i)
  }

  /** `parseWithInject` fails iff the parser fails on the Input carrying the
      continuation. On a match, the payload is the parser's with the continuation
      the parser gave back applied exactly once (none given back, none applied),
      and the position is the parser's with no continuation left over. With the
      default argument the parser sees exactly the caller's Input. */
  lemma ParseWithInjectOutcome<V>(p: Parser<V, V>, input: Input<V>, inject: Option<V -> V>)
    ensures ParseWithInject(p, input, inject).None? <==> p(input.(inject := inject)).None?
    ensures p(input.(inject := inject)).Some? ==>
      var o := p(input.(inject := inject)).value;
      var r := ParseWithInject(p, input, inject).value;
      r.payload == (match o.next.inject case None => o.payload case Some(k) => k(o.payload)) &&
      r.next.inject.None? &&
      r.next.text == o.next.text && r.next.offset == o.next.offset &&
      r.next.leftPayload == o.next.leftPayload
    ensures ParseWithOwnInject(p, input).None? <==> p(input).None?
    ensures p(input).Some? ==> ParseWithOwnInject(p, input).value.next == NoInject(p(input).value.next)
  {
    assert input.(inject := input.inject) == input;
  }

  /** `parseHidingInject` fails iff the parser fails without a continuation; on
      a match the payload is the parser's and the caller's continuation is back,
      everything else of the Input as the parser left it. */
  lemma ParseHidingInjectOutcome<T, V>(p: Parser<T, V>, input: Input<V>)
    ensures ParseHidingInject(p, input).None? <==> p(NoInject(input)).None?
    ensures p(NoInject(input)).Some? ==>
      var o := p(NoInject(input)).value;
      var r := ParseHidingInject(p, input).value;
      r.payload == o.payload && r.next.inject == input.inject &&
      r.next.text == o.next.text && r.next.offset == o.next.offset &&
      r.next.leftPayload == o.next.leftPayload
  {
  }

  /** Handing a continuation f to a parser wrapped in `parseHidingInject`: the
      inner parser runs without any continuation, and f is applied exactly once
      to its payload. */
  lemma HidingThenInjectAppliesOnce<V>(p: Parser<V, V>, input: Input<V>, f: V -> V)
    requires p(NoInject(input)).Some?
    ensures var o := p(NoInject(input)).value;
      ParseWithInject(HidingInject(p), input, Some(f)) ==
        Some(Output(f(o.payload), NoInject(o.next)))
  {
    var k: Option<V -> V> := Some(f);
    var withF: Input<V> := input.(inject := k);
    assert NoInject(withF) == NoInject(input);
    var o := p(NoInject(input)).value;
    var back: Input<V> := o.next.(inject := k);
    assert HidingInject(p)(withF) == Some(Output(o.payload, back));
    assert NoInject(back) == NoInject(o.next);
  }

  /** Both wrappers leave positions to the parser: they keep the parser
      contract. */
  lemma WrappersKeepContract<V(!new)>(p: Parser<V, V>, inject: Option<V -> V>)
    requires WellBehaved(p)
    ensures forall i :: Valid(i) && ParseWithInject(p, i, inject).Some? ==>
      Continues(i, ParseWithInject(p, i, inject).value.next)
    ensures WellBehaved(HidingInject(p))
  {
    forall i: Input<V> | Valid(i) && ParseWithInject(p, i, inject).Some?
      ensures Continues(i, ParseWithInject(p, i, inject).value.next)
    {
      assert Valid(i.(inject := inject));
      assert p(i.(inject := inject)).Some?;
    }
    forall i: Input<V> | Valid(i) && HidingInject(p)(i).Some?
      ensures Continues(i, HidingInject(p)(i).value.next)
    {
      assert Valid(NoInject(i));
      assert p(NoInject(i)).Some?;
    }
  }
}
