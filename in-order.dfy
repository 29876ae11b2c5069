/** Sequencing: `inOrder` for one to eight parsers, written out flat (each
    parser runs on the Input the previous one returned), the result tuples
    `List1` to `List8` with `plus`, and `mapAsBinary`. The tuples and
    `mapAsBinary` are the same code in in-order-parser.kt and are defined here
    once. */
module InOrder {
  import opened Core
  import Strings

  datatype List1<T1> = List1(value1: T1) {
    /** `plus`: the tuple one longer, with `v` appended last. */
    function Plus<T2>(v: T2): List2<T1, T2> {
      List2(value1, v)
    }
  }

  datatype List2<T1, T2> = List2(value1: T1, value2: T2) {
    /** `plus`: the tuple one longer, with `v` appended last. */
    function Plus<T3>(v: T3): List3<T1, T2, T3> {
      List3(value1, value2, v)
    }
  }

  datatype List3<T1, T2, T3> = List3(value1: T1, value2: T2, value3: T3) {
    /** `plus`: the tuple one longer, with `v` appended last. */
    function Plus<T4>(v: T4): List4<T1, T2, T3, T4> {
      List4(value1, value2, value3, v)
    }
  }

  datatype List4<T1, T2, T3, T4> = List4(value1: T1, value2: T2, value3: T3, value4: T4) {
    /** `plus`: the tuple one longer, with `v` appended last. */
    function Plus<T5>(v: T5): List5<T1, T2, T3, T4, T5> {
      List5(value1, value2, value3, value4, v)
    }
  }

  datatype List5<T1, T2, T3, T4, T5> = List5(value1: T1, value2: T2, value3: T3, value4: T4, value5: T5) {
    /** `plus`: the tuple one longer, with `v` appended last. */
    function Plus<T6>(v: T6): List6<T1, T2, T3, T4, T5, T6> {
      List6(value1, value2, value3, value4, value5, v)
    }
  }

  datatype List6<T1, T2, T3, T4, T5, T6> = List6(value1: T1, value2: T2, value3: T3, value4: T4, value5: T5, value6: T6) {
    /** `plus`: the tuple one longer, with `v` appended last. */
    function Plus<T7>(v: T7): List7<T1, T2, T3, T4, T5, T6, T7> {
      List7(value1, value2, value3, value4, value5, value6, v)
    }
  }

  datatype List7<T1, T2, T3, T4, T5, T6, T7> = List7(value1: T1, value2: T2, value3: T3, value4: T4, value5: T5, value6: T6, value7: T7) {
    /** `plus`: the tuple one longer, with `v` appended last. */
    function Plus<T8>(v: T8): List8<T1, T2, T3, T4, T5, T6, T7, T8> {
      List8(value1, value2, value3, value4, value5, value6, value7, v)
    }
  }

  datatype List8<T1, T2, T3, T4, T5, T6, T7, T8> = List8(value1: T1, value2: T2, value3: T3, value4: T4, value5: T5, value6: T6, value7: T7, value8: T8)

  function InOrder1<T1, V>(p1: Parser<T1, V>): Parser<List1<T1>, V> {
    (i: Input<V>) =>
      var r1 := p1(i); if r1.None? then None else
      Some(Output(List1(r1.value.payload), r1.value.next))
  }

  function InOrder2<T1, T2, V>(p1: Parser<T1, V>, p2: Parser<T2, V>): Parser<List2<T1, T2>, V> {
    (i: Input<V>) =>
      var r1 := p1(i); if r1.None? then None else
      var r2 := p2(r1.value.next); if r2.None? then None else
      Some(Output(List2(r1.value.payload, r2.value.payload), r2.value.next))
  }

  function InOrder3<T1, T2, T3, V>(p1: Parser<T1, V>, p2: Parser<T2, V>, p3: Parser<T3, V>): Parser<List3<T1, T2, T3>, V> {
    (i: Input<V>) =>
      var r1 := p1(i); if r1.None? then None else
      var r2 := p2(r1.value.next); if r2.None? then None else
      var r3 := p3(r2.value.next); if r3.None? then None else
      Some(Output(List3(r1.value.payload, r2.value.payload, r3.value.payload), r3.value.next))
  }

  function InOrder4<T1, T2, T3, T4, V>(p1: Parser<T1, V>, p2: Parser<T2, V>, p3: Parser<T3, V>, p4: Parser<T4, V>): Parser<List4<T1, T2, T3, T4>, V> {
    (i: Input<V>) =>
      var r1 := p1(i); if r1.None? then None else
      var r2 := p2(r1.value.next); if r2.None? then None else
      var r3 := p3(r2.value.next); if r3.None? then None else
      var r4 := p4(r3.value.next); if r4.None? then None else
      Some(Output(List4(r1.value.payload, r2.value.payload, r3.value.payload, r4.value.payload), r4.value.next))
  }

  function InOrder5<T1, T2, T3, T4, T5, V>(p1: Parser<T1, V>, p2: Parser<T2, V>, p3: Parser<T3, V>, p4: Parser<T4, V>, p5: Parser<T5, V>): Parser<List5<T1, T2, T3, T4, T5>, V> {
    (i: Input<V>) =>
      var r1 := p1(i); if r1.None? then None else
      var r2 := p2(r1.value.next); if r2.None? then None else
      var r3 := p3(r2.value.next); if r3.None? then None else
      var r4 := p4(r3.value.next); if r4.None? then None else
      var r5 := p5(r4.value.next); if r5.None? then None else
      Some(Output(List5(r1.value.payload, r2.value.payload, r3.value.payload, r4.value.payload, r5.value.payload), r5.value.next))
  }

  function InOrder6<T1, T2, T3, T4, T5, T6, V>(p1: Parser<T1, V>, p2: Parser<T2, V>, p3: Parser<T3, V>, p4: Parser<T4, V>, p5: Parser<T5, V>, p6: Parser<T6, V>): Parser<List6<T1, T2, T3, T4, T5, T6>, V> {
    (i: Input<V>) =>
      var r1 := p1(i); if r1.None? then None else
      var r2 := p2(r1.value.next); if r2.None? then None else
      var r3 := p3(r2.value.next); if r3.None? then None else
      var r4 := p4(r3.value.next); if r4.None? then None else
      var r5 := p5(r4.value.next); if r5.None? then None else
      var r6 := p6(r5.value.next); if r6.None? then None else
      Some(Output(List6(r1.value.payload, r2.value.payload, r3.value.payload, r4.value.payload, r5.value.payload, r6.value.payload), r6.value.next))
  }

  function InOrder7<T1, T2, T3, T4, T5, T6, T7, V>(p1: Parser<T1, V>, p2: Parser<T2, V>, p3: Parser<T3, V>, p4: Parser<T4, V>, p5: Parser<T5, V>, p6: Parser<T6, V>, p7: Parser<T7, V>): Parser<List7<T1, T2, T3, T4, T5, T6, T7>, V> {
    (i: Input<V>) =>
      var r1 := p1(i); if r1.None? then None else
      var r2 := p2(r1.value.next); if r2.None? then None else
      var r3 := p3(r2.value.next); if r3.None? then None else
      var r4 := p4(r3.value.next); if r4.None? then None else
      var r5 := p5(r4.value.next); if r5.None? then None else
      var r6 := p6(r5.value.next); if r6.None? then None else
      var r7 := p7(r6.value.next); if r7.None? then None else
      Some(Output(List7(r1.value.payload, r2.value.payload, r3.value.payload, r4.value.payload, r5.value.payload, r6.value.payload, r7.value.payload), r7.value.next))
  }

  function InOrder8<T1, T2, T3, T4, T5, T6, T7, T8, V>(p1: Parser<T1, V>, p2: Parser<T2, V>, p3: Parser<T3, V>, p4: Parser<T4, V>, p5: Parser<T5, V>, p6: Parser<T6, V>, p7: Parser<T7, V>, p8: Parser<T8, V>): Parser<List8<T1, T2, T3, T4, T5, T6, T7, T8>, V> {
    (i: Input<V>) =>
      var r1 := p1(i); if r1.None? then None else
      var r2 := p2(r1.value.next); if r2.None? then None else
      var r3 := p3(r2.value.next); if r3.None? then None else
      var r4 := p4(r3.value.next); if r4.None? then None else
      var r5 := p5(r4.value.next); if r5.None? then None else
      var r6 := p6(r5.value.next); if r6.None? then None else
      var r7 := p7(r6.value.next); if r7.None? then None else
      var r8 := p8(r7.value.next); if r8.None? then None else
      Some(Output(List8(r1.value.payload, r2.value.payload, r3.value.payload, r4.value.payload, r5.value.payload, r6.value.payload, r7.value.payload, r8.value.payload), r8.value.next))
  }
  /** `mapAsBinary(f)` on a three-element sequence: f of the first and third
      payloads; the middle one (typically an operator) is dropped. */
  function MapAsBinary<A, M, B, R, V>(p: Parser<List3<A, M, B>, V>, f: (A, B) -> R): Parser<R, V> {
    (i: Input<V>) =>
      match p(i)
      case None => None
      case Some(o) => Some(Output(f(o.payload.value1, o.payload.value3), o.next))
  }

  lemma MapAsBinaryOutcome<A, M, B, R, V>(p: Parser<List3<A, M, B>, V>, f: (A, B) -> R, i: Input<V>)
    ensures MapAsBinary(p, f)(i).None? <==> p(i).None?
    ensures p(i).Some? ==>
      var o := p(i).value;
      MapAsBinary(p, f)(i) == Some(Output(f(o.payload.value1, o.payload.value3), o.next))
  {
  }

  /** The first parser yields a at m and the second, from m, yields b at j. */
  ghost predicate SteppedThrough<T1, T2, V>(p1: Parser<T1, V>, p2: Parser<T2, V>, i: Input<V>, a: T1, b: T2, j: Input<V>, m: Input<V>) {
    p1(i) == Some(Output(a, m)) && p2(m) == Some(Output(b, j))
  }

  /** Two in order: a match with payloads (a, b) ending at j is exactly a match
      of the first parser with payload a at some m, then of the second parser
      from m with payload b ending at j; if either fails there is no match. */
  lemma InOrder2Chain<T1, T2, V>(p1: Parser<T1, V>, p2: Parser<T2, V>, i: Input<V>, a: T1, b: T2, j: Input<V>)
    ensures InOrder2(p1, p2)(i) == Some(Output(List2(a, b), j)) <==>
      exists m :: SteppedThrough(p1, p2, i, a, b, j, m)
    ensures InOrder2(p1, p2)(i).None? <==> p1(i).None? || p2(p1(i).value.next).None?
  {
    if InOrder2(p1, p2)(i) == Some(Output(List2(a, b), j)) {
      assert SteppedThrough(p1, p2, i, a, b, j, p1(i).value.next);
    }
  }

  /** Sequencing keeps the parser contract of its parts. */
  lemma InOrder2KeepsContract<T1, T2, V(!new)>(p1: Parser<T1, V>, p2: Parser<T2, V>)
    requires WellBehaved(p1) && WellBehaved(p2)
    ensures WellBehaved(InOrder2(p1, p2))
  {
    forall i | Valid(i) && InOrder2(p1, p2)(i).Some?
      ensures Continues(i, InOrder2(p1, p2)(i).value.next)
    {
      var m := p1(i).value.next;
      assert Continues(i, m);
      assert Valid(m);
      assert Continues(m, p2(m).value.next);
    }
  }

  /** `inOrder(str("a"), str("b"))`, the parser of InOrderParserTests.kt. */
  function AbParser<V>(): Parser<List2<string, string>, V> {
    InOrder2(Strings.Str<V>("a"), Strings.Str<V>("b"))
  }

  /** It fails on too little input and on a mismatch. */
  lemma AbRejects<V>()
    ensures AbParser<V>()(FromText("")) == None
    ensures AbParser<V>()(FromText("a")) == None
    ensures AbParser<V>()(At(FromText("ab"), 1)) == None
    ensures AbParser<V>()(FromText("foo")) == None
    ensures AbParser<V>()(FromText("aa")) == None
  {
    var a, b := Strings.Str<V>("a"), Strings.Str<V>("b");
    assert a(FromText("")) == None;
    assert a(FromText("a")) == Some(Output("a", At(FromText("a"), 1)));
    assert b(At(FromText("a"), 1)) == None;
    assert "ab"[1..2] == "b";
    assert a(At(FromText("ab"), 1)) == None;
    assert "foo"[0..1] == "f";
    assert a(FromText("foo")) == None;
    assert "aa"[0..1] == "a" && "aa"[1..2] == "a";
    assert a(FromText("aa")) == Some(Output("a", At(FromText("aa"), 1)));
    assert b(At(FromText("aa"), 1)) == None;
  }

  /** It matches "ab" at the offset, yielding ("a", "b") two characters on. */
  lemma AbMatches<V>()
    ensures AbParser<V>()(FromText("ab")) == Some(Output(List2("a", "b"), At(FromText("ab"), 2)))
    ensures AbParser<V>()(At(FromText("_ab_"), 1)) ==
      Some(Output(List2("a", "b"), At(FromText("_ab_"), 3)))
  {
    var a, b := Strings.Str<V>("a"), Strings.Str<V>("b");
    assert "ab"[0..1] == "a" && "ab"[1..2] == "b";
    assert a(FromText("ab")) == Some(Output("a", At(FromText("ab"), 1)));
    assert b(At(FromText("ab"), 1)) == Some(Output("b", At(FromText("ab"), 2)));
    assert "_ab_"[1..2] == "a" && "_ab_"[2..3] == "b";
    assert a(At(FromText("_ab_"), 1)) == Some(Output("a", At(FromText("_ab_"), 2)));
    assert b(At(FromText("_ab_"), 2)) == Some(Output("b", At(FromText("_ab_"), 3)));
  }

  // ---------------------------------------------------------------------------
  // The list-based `inOrder` over parsers of one payload type

  /** Run the parsers one after the other, each on the previous one's Input,
      collecting their payloads in order. */
  function SeqFrom<T, V>(ps: seq<Parser<T, V>>, i: Input<V>): Option<Output<seq<T>, V>>
    decreases |ps|
  {
    if |ps| == 0 then Some(Output([], i))
    else
      match ps[0](i)
      case None => None
      case Some(o) =>
        match SeqFrom(ps[1..], o.next)
        case None => None
        case Some(rest) => Some(Output([o.payload] + rest.payload, rest.next))
  }

  /** `inOrder(parsers)` for a list of same-typed parsers. Its definition is not
      part of this model; this is the behaviour the fixed-arity versions have. */
  function InOrderSeq<T, V>(ps: seq<Parser<T, V>>): Parser<seq<T>, V> {
    (i: Input<V>) => SeqFrom(ps, i)
  }

  /** The list-based sequence splits as the recursive definition does: all but
      the last parser, then the last one on the Input they leave, its payload
      appended. In particular a failure anywhere is a failure of the whole, and
      a parser after a failing one plays no part. */
  lemma {:induction false} InOrderSeqSnoc<T, V>(ps: seq<Parser<T, V>>, q: Parser<T, V>, i: Input<V>)
    ensures InOrderSeq(ps + [q])(i) ==
      match InOrderSeq(ps)(i)
      case None => None
      case Some(o) =>
        match q(o.next)
        case None => None
        case Some(l) => Some(Output(o.payload + [l.payload], l.next))
    decreases |ps|
  {
    if |ps| == 0 {
      assert ps + [q] == [q];
      assert [q][1..] == [];
      assert InOrderSeq(ps)(i) == Some(Output([], i));
      match q(i)
      case None =>
      case Some(l) =>
        assert SeqFrom([q][1..], l.next) == Some(Output([], l.next));
        assert [l.payload] + [] == [] + [l.payload];
    } else {
      assert (ps + [q])[0] == ps[0];
      assert (ps + [q])[1..] == ps[1..] + [q];
      match ps[0](i)
      case None =>
      case Some(o) =>
        InOrderSeqSnoc(ps[1..], q, o.next);
        match SeqFrom(ps[1..], o.next)
        case None =>
        case Some(rest) =>
          match q(rest.next)
          case None =>
          case Some(l) =>
            assert [o.payload] + (rest.payload + [l.payload]) == ([o.payload] + rest.payload) + [l.payload];
    }
  }

  /** A match has one payload per parser. */
  lemma {:induction false} InOrderSeqLength<T, V>(ps: seq<Parser<T, V>>, i: Input<V>)
    ensures InOrderSeq(ps)(i).Some? ==> |InOrderSeq(ps)(i).value.payload| == |ps|
    decreases |ps|
  {
    if |ps| > 0 && ps[0](i).Some? {
      InOrderSeqLength(ps[1..], ps[0](i).value.next);
    }
  }

  /** Sequencing keeps the parser contract of its parts. */
  lemma {:induction false} SeqFromContinues<T, V(!new)>(ps: seq<Parser<T, V>>, i: Input<V>)
    requires forall k :: 0 <= k < |ps| ==> WellBehaved(ps[k])
    requires Valid(i) && SeqFrom(ps, i).Some?
    ensures Continues(i, SeqFrom(ps, i).value.next)
    decreases |ps|
  {
    if |ps| > 0 {
      var o := ps[0](i).value;
      assert WellBehaved(ps[0]);
      assert forall k :: 0 <= k < |ps[1..]| ==> ps[1..][k] == ps[k + 1];
      SeqFromContinues(ps[1..], o.next);
    }
  }

  /** When one of the parsers consumes on every match, so does the sequence. */
  lemma {:induction false} SeqFromConsumes<T, V(!new)>(ps: seq<Parser<T, V>>, n: nat, i: Input<V>)
    requires forall k :: 0 <= k < |ps| ==> WellBehaved(ps[k])
    requires n < |ps| && Progressive(ps[n])
    requires Valid(i) && SeqFrom(ps, i).Some?
    ensures Consumes(i, SeqFrom(ps, i).value.next)
    decreases |ps|
  {
    var o := ps[0](i).value;
    assert forall k :: 0 <= k < |ps[1..]| ==> ps[1..][k] == ps[k + 1];
    if n == 0 {
      assert Consumes(i, o.next);
      SeqFromContinues(ps[1..], o.next);
    } else {
      assert WellBehaved(ps[0]);
      SeqFromConsumes(ps[1..], n - 1, o.next);
    }
  }
}
