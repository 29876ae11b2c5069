/** Sequencing as the other revision defines it: `inOrder` of one parser wraps
    its payload in `List1`, and `inOrder` of n parsers runs `inOrder` of the first
    n - 1, then the last parser on the Input they leave, joining the payloads
    with `plus`. Each arity is proved to give exactly what the flat definition
    gives. */
module InOrderParser {
  import opened Core
  import InOrder

  function InOrder1<T1, V>(p1: Parser<T1, V>): Parser<InOrder.List1<T1>, V> {
    (i: Input<V>) =>
      match p1(i)
      case None => None
      case Some(o) => Some(Output(InOrder.List1(o.payload), o.next))
  }

  function InOrder2<T1, T2, V>(p1: Parser<T1, V>, p2: Parser<T2, V>): Parser<InOrder.List2<T1, T2>, V> {
    (i: Input<V>) =>
      var r := InOrder1(p1)(i); if r.None? then None else
      var last := p2(r.value.next); if last.None? then None else
      Some(Output(r.value.payload.Plus(last.value.payload), last.value.next))
  }

  function InOrder3<T1, T2, T3, V>(p1: Parser<T1, V>, p2: Parser<T2, V>, p3: Parser<T3, V>): Parser<InOrder.List3<T1, T2, T3>, V> {
    (i: Input<V>) =>
      var r := InOrder2(p1, p2)(i); if r.None? then None else
      var last := p3(r.value.next); if last.None? then None else
      Some(Output(r.value.payload.Plus(last.value.payload), last.value.next))
  }

  function InOrder4<T1, T2, T3, T4, V>(p1: Parser<T1, V>, p2: Parser<T2, V>, p3: Parser<T3, V>, p4: Parser<T4, V>): Parser<InOrder.List4<T1, T2, T3, T4>, V> {
    (i: Input<V>) =>
      var r := InOrder3(p1, p2, p3)(i); if r.None? then None else
      var last := p4(r.value.next); if last.None? then None else
      Some(Output(r.value.payload.Plus(last.value.payload), last.value.next))
  }

  function InOrder5<T1, T2, T3, T4, T5, V>(p1: Parser<T1, V>, p2: Parser<T2, V>, p3: Parser<T3, V>, p4: Parser<T4, V>, p5: Parser<T5, V>): Parser<InOrder.List5<T1, T2, T3, T4, T5>, V> {
    (i: Input<V>) =>
      var r := InOrder4(p1, p2, p3, p4)(i); if r.None? then None else
      var last := p5(r.value.next); if last.None? then None else
      Some(Output(r.value.payload.Plus(last.value.payload), last.value.next))
  }

  function InOrder6<T1, T2, T3, T4, T5, T6, V>(p1: Parser<T1, V>, p2: Parser<T2, V>, p3: Parser<T3, V>, p4: Parser<T4, V>, p5: Parser<T5, V>, p6: Parser<T6, V>): Parser<InOrder.List6<T1, T2, T3, T4, T5, T6>, V> {
    (i: Input<V>) =>
      var r := InOrder5(p1, p2, p3, p4, p5)(i); if r.None? then None else
      var last := p6(r.value.next); if last.None? then None else
      Some(Output(r.value.payload.Plus(last.value.payload), last.value.next))
  }

  function InOrder7<T1, T2, T3, T4, T5, T6, T7, V>(p1: Parser<T1, V>, p2: Parser<T2, V>, p3: Parser<T3, V>, p4: Parser<T4, V>, p5: Parser<T5, V>, p6: Parser<T6, V>, p7: Parser<T7, V>): Parser<InOrder.List7<T1, T2, T3, T4, T5, T6, T7>, V> {
    (i: Input<V>) =>
      var r := InOrder6(p1, p2, p3, p4, p5, p6)(i); if r.None? then None else
      var last := p7(r.value.next); if last.None? then None else
      Some(Output(r.value.payload.Plus(last.value.payload), last.value.next))
  }

  function InOrder8<T1, T2, T3, T4, T5, T6, T7, T8, V>(p1: Parser<T1, V>, p2: Parser<T2, V>, p3: Parser<T3, V>, p4: Parser<T4, V>, p5: Parser<T5, V>, p6: Parser<T6, V>, p7: Parser<T7, V>, p8: Parser<T8, V>): Parser<InOrder.List8<T1, T2, T3, T4, T5, T6, T7, T8>, V> {
    (i: Input<V>) =>
      var r := InOrder7(p1, p2, p3, p4, p5, p6, p7)(i); if r.None? then None else
      var last := p8(r.value.next); if last.None? then None else
      Some(Output(r.value.payload.Plus(last.value.payload), last.value.next))
  }

  /** One parser: the same answer as the flat definition. */
  lemma SameAsFlat1<T1, V>(p1: Parser<T1, V>, i: Input<V>)
    ensures InOrder1(p1)(i) == InOrder.InOrder1(p1)(i)
  {
  }

  /** 2 parsers: match or no match, payload and next Input all agree with the
      flat definition. */
  lemma SameAsFlat2<T1, T2, V>(p1: Parser<T1, V>, p2: Parser<T2, V>, i: Input<V>)
    ensures InOrder2(p1, p2)(i) == InOrder.InOrder2(p1, p2)(i)
  {
    SameAsFlat1(p1, i);
  }

  /** 3 parsers: match or no match, payload and next Input all agree with the
      flat definition. */
  lemma SameAsFlat3<T1, T2, T3, V>(p1: Parser<T1, V>, p2: Parser<T2, V>, p3: Parser<T3, V>, i: Input<V>)
    ensures InOrder3(p1, p2, p3)(i) == InOrder.InOrder3(p1, p2, p3)(i)
  {
    SameAsFlat2(p1, p2, i);
  }

  /** 4 parsers: match or no match, payload and next Input all agree with the
      flat definition. */
  lemma SameAsFlat4<T1, T2, T3, T4, V>(p1: Parser<T1, V>, p2: Parser<T2, V>, p3: Parser<T3, V>, p4: Parser<T4, V>, i: Input<V>)
    ensures InOrder4(p1, p2, p3, p4)(i) == InOrder.InOrder4(p1, p2, p3, p4)(i)
  {
    SameAsFlat3(p1, p2, p3, i);
  }

  /** 5 parsers: match or no match, payload and next Input all agree with the
      flat definition. */
  lemma SameAsFlat5<T1, T2, T3, T4, T5, V>(p1: Parser<T1, V>, p2: Parser<T2, V>, p3: Parser<T3, V>, p4: Parser<T4, V>, p5: Parser<T5, V>, i: Input<V>)
    ensures InOrder5(p1, p2, p3, p4, p5)(i) == InOrder.InOrder5(p1, p2, p3, p4, p5)(i)
  {
    SameAsFlat4(p1, p2, p3, p4, i);
  }

  /** 6 parsers: match or no match, payload and next Input all agree with the
      flat definition. */
  lemma SameAsFlat6<T1, T2, T3, T4, T5, T6, V>(p1: Parser<T1, V>, p2: Parser<T2, V>, p3: Parser<T3, V>, p4: Parser<T4, V>, p5: Parser<T5, V>, p6: Parser<T6, V>, i: Input<V>)
    ensures InOrder6(p1, p2, p3, p4, p5, p6)(i) == InOrder.InOrder6(p1, p2, p3, p4, p5, p6)(i)
  {
    SameAsFlat5(p1, p2, p3, p4, p5, i);
  }

  /** 7 parsers: match or no match, payload and next Input all agree with the
      flat definition. */
  lemma SameAsFlat7<T1, T2, T3, T4, T5, T6, T7, V>(p1: Parser<T1, V>, p2: Parser<T2, V>, p3: Parser<T3, V>, p4: Parser<T4, V>, p5: Parser<T5, V>, p6: Parser<T6, V>, p7: Parser<T7, V>, i: Input<V>)
    ensures InOrder7(p1, p2, p3, p4, p5, p6, p7)(i) == InOrder.InOrder7(p1, p2, p3, p4, p5, p6, p7)(i)
  {
    SameAsFlat6(p1, p2, p3, p4, p5, p6, i);
  }

  /** 8 parsers: match or no match, payload and next Input all agree with the
      flat definition. */
  lemma SameAsFlat8<T1, T2, T3, T4, T5, T6, T7, T8, V>(p1: Parser<T1, V>, p2: Parser<T2, V>, p3: Parser<T3, V>, p4: Parser<T4, V>, p5: Parser<T5, V>, p6: Parser<T6, V>, p7: Parser<T7, V>, p8: Parser<T8, V>, i: Input<V>)
    ensures InOrder8(p1, p2, p3, p4, p5, p6, p7, p8)(i) == InOrder.InOrder8(p1, p2, p3, p4, p5, p6, p7, p8)(i)
  {
    SameAsFlat7(p1, p2, p3, p4, p5, p6, p7, i);
  }

}
