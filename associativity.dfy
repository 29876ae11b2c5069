/** Left-associative folds over a sequence `first inner... last`, for example
    `expr "+" expr`: `leftAssoc`, a loop that hands the last parser of each round
    a continuation through the Input; and `mapLeftAssoc`, which instead passes
    the value built so far to a retry of its left parser through the Input's left
    payload. */
module Associativity {
  import opened Core
  import opened LeftAssociativity
  import InOrder
  import References

  // ---------------------------------------------------------------------------
  // leftAssoc

  /** `parsers.drop(1).dropLast(1)`. */
  function Inner<V>(ps: seq<Parser<V, V>>): seq<Parser<V, V>> {
    if |ps| >= 2 then ps[1..|ps| - 1] else []
  }

  /** The continuation handed to the last parser of a round: combine the value
      so far, the inner payloads and the last parser's value. */
  function Continuation<V>(transform: seq<V> -> V, acc: V, mids: seq<V>): V -> V {
    (x: V) => transform([acc] + mids + [x])
  }

  /** One round from `start`: the inner parsers one after the other, then the
      last parser with the continuation. */
  function Round<V>(ps: seq<Parser<V, V>>, transform: seq<V> -> V, acc: V, start: Input<V>)
    : Option<Output<V, V>>
    requires |ps| >= 1
  {
    match InOrder.SeqFrom(Inner(ps), start)
    case None => None
    case Some(m) =>
      ParseWithInject(ps[|ps| - 1], m.next, Some(Continuation(transform, acc, m.payload)))
  }

  /** What `leftAssoc` needs for its loop to stop: at least one parser (the
      source takes `first()` and `last()`), and every round that matches from an
      Input within the text has consumed some of it. */
  ghost predicate Folds<V(!new)>(ps: seq<Parser<V, V>>, transform: seq<V> -> V) {
    |ps| >= 1 &&
    forall acc: V, start: Input<V> :: Valid(start) && Round(ps, transform, acc, start).Some? ==>
      Consumes(start, Round(ps, transform, acc, start).value.next)
  }

  /** A round whose parsers keep the parser contract and one of which, inner
      or last, consumes on every match. */
  ghost predicate SomePartConsumes<V(!new)>(ps: seq<Parser<V, V>>) {
    |ps| >= 1 &&
    (forall k :: 0 <= k < |Inner(ps)| ==> WellBehaved(Inner(ps)[k])) && WellBehaved(ps[|ps| - 1]) &&
    (Progressive(ps[|ps| - 1]) || exists k :: 0 <= k < |Inner(ps)| && Progressive(Inner(ps)[k]))
  }

  /** Such a round consumes input whenever it matches. */
  lemma RoundConsumes<V(!new)>(ps: seq<Parser<V, V>>, transform: seq<V> -> V, acc: V, start: Input<V>)
    requires SomePartConsumes(ps) && Valid(start) && Round(ps, transform, acc, start).Some?
    ensures Consumes(start, Round(ps, transform, acc, start).value.next)
  {
    var inner := Inner(ps);
    var last := ps[|ps| - 1];
    var m := InOrder.SeqFrom(inner, start).value;
    var k: Option<V -> V> := Some(Continuation(transform, acc, m.payload));
    var j := m.next.(inject := k);
    assert last(j).Some?;
    if Progressive(last) {
      InOrder.SeqFromContinues(inner, start);
      assert Consumes(j, last(j).value.next);
    } else {
      var n :| 0 <= n < |inner| && Progressive(inner[n]);
      InOrder.SeqFromConsumes(inner, n, start);
      assert Continues(j, last(j).value.next);
    }
  }

  /** So `leftAssoc` over such parsers stops under any transform: for example
      consuming inner parsers (an operator) and an optional last one. */
  lemma SomePartConsumesFolds<V(!new)>(ps: seq<Parser<V, V>>, transform: seq<V> -> V)
    requires SomePartConsumes(ps)
    ensures Folds(ps, transform)
  {
    forall acc: V, start: Input<V> | Valid(start) && Round(ps, transform, acc, start).Some?
      ensures Consumes(start, Round(ps, transform, acc, start).value.next)
    {
      RoundConsumes(ps, transform, acc, start);
    }
  }

  /** The loop from the value `acc` at `next`, `output` being the last completed
      round: while input remains, run a round; a failed round leaves `output` as
      the answer, and its partial consumption is dropped. */
  function Rounds<V(!new)>(
    ps: seq<Parser<V, V>>, transform: seq<V> -> V, acc: V, next: Input<V>, output: Option<Output<V, V>>)
    : Option<Output<V, V>>
    requires Folds(ps, transform)
    decreases Remaining(next)
  {
    if next.offset < |next.text| then
      var r := Round(ps, transform, acc, next);
      if r.None? then output
      else
        assert Consumes(next, r.value.next);
        Rounds(ps, transform, r.value.payload, r.value.next, r)
    else output
  }

  /** `leftAssoc(transform)` over the sequence `ps`. */
  function LeftAssoc<V(!new)>(ps: seq<Parser<V, V>>, transform: seq<V> -> V): Parser<V, V>
    requires Folds(ps, transform)
  {
    (i: Input<V>) =>
      match ParseWithOwnInject(ps[0], i)
      case None => None
      case Some(f) => Rounds(ps, transform, f.payload, f.next, None)
  }

  /** The payloads so far in front of the rest's. */
  function Prepend<V>(payloads: seq<V>, rest: Option<Output<seq<V>, V>>): Option<Output<seq<V>, V>> {
    match rest
    case None => None
    case Some(o) => Some(Output(payloads + o.payload, o.next))
  }

  /** A round's `innerParsers.forEach`: the inner parsers one after the other,
      collecting their payloads; no match as soon as one fails. */
  method ParseInner<V>(innerParsers: seq<Parser<V, V>>, start: Input<V>)
    returns (r: Option<Output<seq<V>, V>>)
    ensures r == InOrder.SeqFrom(innerParsers, start)
  {
    var payloads: seq<V> := [];
    var nextInput := start;
    var j := 0;
    assert innerParsers[0..] == innerParsers;
    if InOrder.SeqFrom(innerParsers, start).Some? {
      assert [] + InOrder.SeqFrom(innerParsers, start).value.payload ==
        InOrder.SeqFrom(innerParsers, start).value.payload;
    }
    while j < |innerParsers|
      invariant 0 <= j <= |innerParsers|
      invariant InOrder.SeqFrom(innerParsers, start) ==
        Prepend(payloads, InOrder.SeqFrom(innerParsers[j..], nextInput))
      decreases |innerParsers| - j
    {
      assert innerParsers[j..][0] == innerParsers[j] && innerParsers[j..][1..] == innerParsers[j + 1..];
      var step := innerParsers[j](nextInput);
      if step.None? {
        return None;
      }
      ghost var rest := InOrder.SeqFrom(innerParsers[j + 1..], step.value.next);
      if rest.Some? {
        assert payloads + ([step.value.payload] + rest.value.payload) ==
          (payloads + [step.value.payload]) + rest.value.payload;
      }
      payloads := payloads + [step.value.payload];
      nextInput := step.value.next;
      j := j + 1;
    }
    assert InOrder.SeqFrom(innerParsers[j..], nextInput) == Some(Output([], nextInput));
    assert payloads + [] == payloads;
    return Some(Output(payloads, nextInput));
  }

  /** The loop of associativity.kt:28-52, proved to compute LeftAssoc. */
  method LeftAssocParse<V(!new)>(ps: seq<Parser<V, V>>, transform: seq<V> -> V, input: Input<V>)
    returns (r: Option<Output<V, V>>)
    requires Folds(ps, transform)
    ensures r == LeftAssoc(ps, transform)(input)
  {
    var firstParser := ps[0];
    var innerParsers := Inner(ps);
    var lastParser := ps[|ps| - 1];

    var output: Option<Output<V, V>> := None;
    var first := ParseWithOwnInject(firstParser, input);
    if first.None? {
      return None;
    }
    var payload := first.value.payload;
    var nextInput := first.value.next;
    while nextInput.offset < |nextInput.text|
      invariant Rounds(ps, transform, payload, nextInput, output) == LeftAssoc(ps, transform)(input)
      decreases Remaining(nextInput)
    {
      var inner := ParseInner(innerParsers, nextInput);
      if inner.None? {
        return output;
      }
      var last := ParseWithInject(lastParser, inner.value.next,
        Some(Continuation(transform, payload, inner.value.payload)));
      assert last == Round(ps, transform, payload, nextInput);
      if last.None? {
        return output;
      }
      assert Consumes(nextInput, last.value.next);
      payload := last.value.payload;
      nextInput := last.value.next;
      output := Some(Output(payload, nextInput));
    }
    return output;
  }

  /** No match if the first parser fails. */
  lemma LeftAssocFirstFails<V(!new)>(ps: seq<Parser<V, V>>, transform: seq<V> -> V, i: Input<V>)
    requires Folds(ps, transform) && ParseWithOwnInject(ps[0], i).None?
    ensures LeftAssoc(ps, transform)(i) == None
  {
  }

  /** No match unless one full round succeeds right after the first parser: the
      answer starts out as no match and is only replaced after a round. */
  lemma LeftAssocNeedsOneRound<V(!new)>(ps: seq<Parser<V, V>>, transform: seq<V> -> V, i: Input<V>)
    requires Folds(ps, transform)
    ensures LeftAssoc(ps, transform)(i).Some? ==>
      var f := ParseWithOwnInject(ps[0], i);
      f.Some? && f.value.next.offset < |f.value.next.text| &&
      Round(ps, transform, f.value.payload, f.value.next).Some?
  {
  }

  /** Where the loop stops: either no round ran (the text was used up or the
      first round failed, and the answer is the one it was given), or the answer
      is a completed round that consumed input, after which the text is used up or
      the next round fails. */
  lemma {:induction false} RoundsStop<V(!new)>(
    ps: seq<Parser<V, V>>, transform: seq<V> -> V, acc: V, next: Input<V>, output: Option<Output<V, V>>)
    requires Folds(ps, transform)
    ensures var r := Rounds(ps, transform, acc, next, output);
      (r == output &&
       (next.offset >= |next.text| || Round(ps, transform, acc, next).None?)) ||
      (r.Some? && Consumes(next, r.value.next) &&
       (exists a: V, s: Input<V> :: s.offset < |s.text| && r == Round(ps, transform, a, s)) &&
       (r.value.next.offset >= |r.value.next.text| ||
        Round(ps, transform, r.value.payload, r.value.next).None?))
    decreases Remaining(next)
  {
    if next.offset < |next.text| {
      var r := Round(ps, transform, acc, next);
      if r.Some? {
        assert Consumes(next, r.value.next);
        RoundsStop(ps, transform, r.value.payload, r.value.next, r);
        var r' := Rounds(ps, transform, r.value.payload, r.value.next, r);
        if r' == r {
          assert next.offset < |next.text| && r' == Round(ps, transform, acc, next);
        }
      }
    }
  }

  /** Where round n of a run starts: the value and Input the loop was given,
      or the output of round n - 1. */
  function RunPoint<V>(from: Output<V, V>, outs: seq<Output<V, V>>, n: nat): Output<V, V>
    requires n <= |outs|
  {
    if n == 0 then from else outs[n - 1]
  }

  /** One pass of the loop from the value and Input `s`: the round, run only
      while input remains. */
  function Step<V>(ps: seq<Parser<V, V>>, transform: seq<V> -> V, s: Output<V, V>): Option<Output<V, V>>
    requires |ps| >= 1
  {
    if s.next.offset < |s.next.text| then Round(ps, transform, s.payload, s.next) else None
  }

  /** `outs` are the outputs of rounds run one after another from `from`: each
      starts within the text, from the value and Input the round before it
      produced. */
  ghost predicate IsRoundRun<V>(ps: seq<Parser<V, V>>, transform: seq<V> -> V, from: Output<V, V>,
                                outs: seq<Output<V, V>>)
    requires |ps| >= 1
  {
    forall n :: 0 <= n < |outs| ==> Step(ps, transform, RunPoint(from, outs, n)) == Some(outs[n])
  }

  /** After the run the loop stops: the text is used up or the next round fails. */
  ghost predicate RoundRunHalted<V>(ps: seq<Parser<V, V>>, transform: seq<V> -> V, from: Output<V, V>,
                                    outs: seq<Output<V, V>>)
    requires |ps| >= 1
  {
    Step(ps, transform, RunPoint(from, outs, |outs|)).None?
  }

  /** The loop's answer is the output of the last round of the halted run, or
      the answer it was given when no round completes. */
  function RunAnswer<V>(outs: seq<Output<V, V>>, output: Option<Output<V, V>>): Option<Output<V, V>> {
    if |outs| == 0 then output else Some(outs[|outs| - 1])
  }

  /** The loop runs rounds until it halts, and answers the last one's output. */
  lemma {:induction false} RoundsIsHaltedRun<V(!new)>(
    ps: seq<Parser<V, V>>, transform: seq<V> -> V, acc: V, next: Input<V>, output: Option<Output<V, V>>)
    returns (outs: seq<Output<V, V>>)
    requires Folds(ps, transform)
    ensures IsRoundRun(ps, transform, Output(acc, next), outs)
    ensures RoundRunHalted(ps, transform, Output(acc, next), outs)
    ensures Rounds(ps, transform, acc, next, output) == RunAnswer(outs, output)
    decreases Remaining(next)
  {
    outs := [];
    if next.offset < |next.text| {
      var r := Round(ps, transform, acc, next);
      if r.Some? {
        assert Consumes(next, r.value.next);
        var rest := RoundsIsHaltedRun(ps, transform, r.value.payload, r.value.next, r);
        outs := [r.value] + rest;
        assert Step(ps, transform, Output(acc, next)) == r;
        RunCons(ps, transform, Output(acc, next), r.value, rest);
        assert RunAnswer(outs, output) == RunAnswer(rest, r);
      }
    }
  }

  /** Conversely, every halted run from the loop's start is the one it runs. */
  lemma HaltedRunIsRounds<V(!new)>(
    ps: seq<Parser<V, V>>, transform: seq<V> -> V, acc: V, next: Input<V>, output: Option<Output<V, V>>,
    outs: seq<Output<V, V>>)
    requires Folds(ps, transform)
    requires IsRoundRun(ps, transform, Output(acc, next), outs)
    requires RoundRunHalted(ps, transform, Output(acc, next), outs)
    ensures Rounds(ps, transform, acc, next, output) == RunAnswer(outs, output)
  {
    var run := RoundsIsHaltedRun(ps, transform, acc, next, output);
    HaltedRunUnique(ps, transform, Output(acc, next), outs, run);
  }

  /** Rounds are deterministic, so there is one halted run from each start. */
  lemma {:induction false} HaltedRunUnique<V>(ps: seq<Parser<V, V>>, transform: seq<V> -> V, from: Output<V, V>,
                                              outs: seq<Output<V, V>>, others: seq<Output<V, V>>)
    requires |ps| >= 1
    requires IsRoundRun(ps, transform, from, outs) && RoundRunHalted(ps, transform, from, outs)
    requires IsRoundRun(ps, transform, from, others) && RoundRunHalted(ps, transform, from, others)
    ensures outs == others
    decreases |outs|
  {
    assert RunPoint(from, outs, 0) == from && RunPoint(from, others, 0) == from;
    if |outs| > 0 && |others| > 0 {
      var r := outs[0];
      assert Step(ps, transform, from) == Some(r) == Some(others[0]);
      assert [r] + outs[1..] == outs && [r] + others[1..] == others;
      RunCons(ps, transform, from, r, outs[1..]);
      RunCons(ps, transform, from, r, others[1..]);
      HaltedRunUnique(ps, transform, r, outs[1..], others[1..]);
    } else if |outs| > 0 || |others| > 0 {
      assert false;
    }
  }

  /** A run is its first round followed by a run from that round's output. */
  lemma {:induction false} RunCons<V>(ps: seq<Parser<V, V>>, transform: seq<V> -> V, from: Output<V, V>,
                   r: Output<V, V>, rest: seq<Output<V, V>>)
    requires |ps| >= 1
    requires Step(ps, transform, from) == Some(r)
    ensures IsRoundRun(ps, transform, from, [r] + rest) <==> IsRoundRun(ps, transform, r, rest)
    ensures RoundRunHalted(ps, transform, from, [r] + rest) <==> RoundRunHalted(ps, transform, r, rest)
  {
    var outs := [r] + rest;
    forall n | 0 <= n < |rest|
      ensures RunPoint(from, outs, n + 1) == RunPoint(r, rest, n) && outs[n + 1] == rest[n]
    {
    }
    assert RunPoint(from, outs, |outs|) == RunPoint(r, rest, |rest|);
    if IsRoundRun(ps, transform, r, rest) {
      forall n | 0 <= n < |outs|
        ensures Step(ps, transform, RunPoint(from, outs, n)) == Some(outs[n])
      {
        if n > 0 {
          assert RunPoint(from, outs, n) == RunPoint(r, rest, n - 1);
        }
      }
    }
  }

  /** `leftAssoc`: no match iff the first parser fails or not one round
      completes; otherwise the output of the last round of the halted run that
      starts from the first parser's output. */
  lemma LeftAssocIsHaltedRun<V(!new)>(ps: seq<Parser<V, V>>, transform: seq<V> -> V, i: Input<V>)
    returns (outs: seq<Output<V, V>>)
    requires Folds(ps, transform)
    ensures ParseWithOwnInject(ps[0], i).None? ==> LeftAssoc(ps, transform)(i) == None
    ensures ParseWithOwnInject(ps[0], i).Some? ==>
      var f := ParseWithOwnInject(ps[0], i).value;
      IsRoundRun(ps, transform, f, outs) && RoundRunHalted(ps, transform, f, outs) &&
      LeftAssoc(ps, transform)(i) == RunAnswer(outs, None)
  {
    outs := [];
    match ParseWithOwnInject(ps[0], i)
    case None =>
    case Some(f) =>
      outs := RoundsIsHaltedRun(ps, transform, f.payload, f.next, None);
      assert Output(f.payload, f.next) == f;
  }

  /** A last parser that hands back the continuation it is given, as the
      primitives do. */
  ghost predicate KeepsInject<V(!new)>(p: Parser<V, V>) {
    forall i :: p(i).Some? ==> p(i).value.next.inject == i.inject
  }

  /** The fold step: when the last parser hands the continuation back, a round
      from the value `acc` with inner payloads `mids` and last value `x` yields
      transform([acc] + mids + [x]). */
  lemma RoundFoldsLeft<V(!new)>(
    ps: seq<Parser<V, V>>, transform: seq<V> -> V, acc: V, start: Input<V>,
    m: Output<seq<V>, V>, x: Output<V, V>)
    requires |ps| >= 1 && KeepsInject(ps[|ps| - 1])
    requires InOrder.SeqFrom(Inner(ps), start) == Some(m)
    requires ps[|ps| - 1](m.next.(inject := Some(Continuation(transform, acc, m.payload)))) == Some(x)
    ensures Round(ps, transform, acc, start) ==
      Some(Output(transform([acc] + m.payload + [x.payload]), NoInject(x.next)))
  {
    var k: Option<V -> V> := Some(Continuation(transform, acc, m.payload));
    assert x.next.inject == k;
  }

  // ---------------------------------------------------------------------------
  // mapLeftAssoc

  /** The answer of `mapLeftAssoc(transform)` over `left mid... right`, its
      left parser guarded as `nonRecRef` guards, with `active` the guard's
      offsets:
      - the right-recursion marker in the left payload: no match;
      - otherwise the left operand is the left payload when present (the payload
        being cleared), or else what the guarded left parser yields;
      - then the middle parsers and the right parser, the latter with the
        marker set, so that it cannot itself start a left-associative chain;
        both see the guard holding `active`;
      - the combined value is put in the left payload and the guarded left
        parser is tried again from there; if it fails, the combined value is
        the answer. */
  function MapLeftAssoc<V(!new)>(
    left: References.GuardedDelegate<V, V>, mid: seq<References.GuardedDelegate<V, V>>,
    right: References.GuardedDelegate<V, V>, transform: seq<V> -> V, active: set<nat>, input: Input<V>)
    : Option<Output<V, V>>
  {
    if input.leftPayload.RightRecursionMarker? then None
    else
      var leftOutput :=
        if input.leftPayload.NoLeft? then References.Guard(active, left)(input)
        else Some(Output(input.leftPayload.value, input.(leftPayload := NoLeft)));
      if leftOutput.None? then None
      else
        var midOutput := InOrder.SeqFrom(References.Bind(mid, active), leftOutput.value.next);
        if midOutput.None? then None
        else
          var rightOutput := right(active, midOutput.value.next.(leftPayload := RightRecursionMarker));
          if rightOutput.None? then None
          else
            var payload := transform([leftOutput.value.payload] + midOutput.value.payload + [rightOutput.value.payload]);
            var nextInput := rightOutput.value.next.(leftPayload := Left(payload));
            var again := References.Guard(active, left)(nextInput);
            if again.Some? then again else Some(Output(payload, nextInput))
  }

  /** `mapLeftAssoc` with the offsets of its `nonRecRef` left parser. */
  class MapLeftAssocParser<V(!new)> {
    const left: References.GuardedDelegate<V, V>
    const mid: seq<References.GuardedDelegate<V, V>>
    const right: References.GuardedDelegate<V, V>
    const transform: seq<V> -> V
    var offsets: set<nat>

    constructor (left: References.GuardedDelegate<V, V>, mid: seq<References.GuardedDelegate<V, V>>,
                 right: References.GuardedDelegate<V, V>, transform: seq<V> -> V)
      ensures this.left == left && this.mid == mid && this.right == right
      ensures this.transform == transform && offsets == {}
    {
      this.left := left;
      this.mid := mid;
      this.right := right;
      this.transform := transform;
      offsets := {};
    }

    /** The guarded left parser, as NonRecRef.Parse runs it. */
    method ParseLeft(input: Input<V>) returns (r: Option<Output<V, V>>)
      modifies this
      ensures offsets == old(offsets)
      ensures r == References.Guard(old(offsets), left)(input)
    {
      if input.offset in offsets {
        return None;
      }
      offsets := offsets + {input.offset};
      r := left(offsets, input);
      offsets := offsets - {input.offset};
    }

    method Parse(input: Input<V>) returns (r: Option<Output<V, V>>)
      modifies this
      ensures offsets == old(offsets)
      ensures r == MapLeftAssoc(left, mid, right, transform, old(offsets), input)
    {
      if input.leftPayload.RightRecursionMarker? {
        return None;
      }
      var leftOutput;
      if input.leftPayload.NoLeft? {
        leftOutput := ParseLeft(input);
        if leftOutput.None? {
          return None;
        }
      } else {
        leftOutput := Some(Output(input.leftPayload.value, input.(leftPayload := NoLeft)));
      }
      var midOutput := InOrder.SeqFrom(References.Bind(mid, offsets), leftOutput.value.next);
      if midOutput.None? {
        return None;
      }
      var rightOutput := right(offsets, midOutput.value.next.(leftPayload := RightRecursionMarker));
      if rightOutput.None? {
        return None;
      }
      var payload := transform([leftOutput.value.payload] + midOutput.value.payload + [rightOutput.value.payload]);
      var nextInput := rightOutput.value.next.(leftPayload := Left(payload));
      r := ParseLeft(nextInput);
      if r.None? {
        r := Some(Output(payload, nextInput));
      }
    }
  }

  /** Called with the right-recursion marker, `mapLeftAssoc` does not match. */
  lemma MarkerRefuses<V(!new)>(
    left: References.GuardedDelegate<V, V>, mid: seq<References.GuardedDelegate<V, V>>,
    right: References.GuardedDelegate<V, V>, transform: seq<V> -> V, active: set<nat>, input: Input<V>)
    requires input.leftPayload == RightRecursionMarker
    ensures MapLeftAssoc(left, mid, right, transform, active, input) == None
  {
  }

  /** With a left payload present, it is the left operand: the left parser is
      not run on the way in, the middle parsers start from the same position with
      the payload cleared, and the right parser always runs with the marker. The
      answer is the retry from the combined value, or that value. */
  lemma PresentLeftIsOperand<V(!new)>(
    left: References.GuardedDelegate<V, V>, mid: seq<References.GuardedDelegate<V, V>>,
    right: References.GuardedDelegate<V, V>, transform: seq<V> -> V, active: set<nat>, input: Input<V>,
    m: Output<seq<V>, V>, x: Output<V, V>)
    requires input.leftPayload.Left?
    requires InOrder.SeqFrom(References.Bind(mid, active), input.(leftPayload := NoLeft)) == Some(m)
    requires right(active, m.next.(leftPayload := RightRecursionMarker)) == Some(x)
    ensures var payload := transform([input.leftPayload.value] + m.payload + [x.payload]);
      var nextInput := x.next.(leftPayload := Left(payload));
      MapLeftAssoc(left, mid, right, transform, active, input) ==
        if nextInput.offset !in active && left(active + {nextInput.offset}, nextInput).Some?
        then left(active + {nextInput.offset}, nextInput)
        else Some(Output(payload, nextInput))
  {
  }

  /** Without a left payload, at an offset the guard already holds, the left
      operand cannot be parsed, so there is no match: this is what stops the
      left recursion `expr := expr "+" expr`. */
  lemma HeldOffsetRefuses<V(!new)>(
    left: References.GuardedDelegate<V, V>, mid: seq<References.GuardedDelegate<V, V>>,
    right: References.GuardedDelegate<V, V>, transform: seq<V> -> V, active: set<nat>, input: Input<V>)
    requires input.leftPayload == NoLeft && input.offset in active
    ensures MapLeftAssoc(left, mid, right, transform, active, input) == None
  {
  }

  /** A delegate that keeps the parser contract whatever offsets the guard
      holds. */
  ghost predicate DelegateWellBehaved<V(!new)>(d: References.GuardedDelegate<V, V>) {
    forall active, i :: Valid(i) && d(active, i).Some? ==> Continues(i, d(active, i).value.next)
  }

  /** `mapLeftAssoc` keeps the parser contract of its parts: a match never
      changes the text, never moves backwards and stays within the text; and
      with a right parser that consumes on every match, a match consumes. */
  lemma MapLeftAssocKeepsContract<V(!new)>(
    left: References.GuardedDelegate<V, V>, mid: seq<References.GuardedDelegate<V, V>>,
    right: References.GuardedDelegate<V, V>, transform: seq<V> -> V, active: set<nat>, input: Input<V>)
    requires DelegateWellBehaved(left) && DelegateWellBehaved(right)
    requires forall k :: 0 <= k < |mid| ==> DelegateWellBehaved(mid[k])
    requires Valid(input)
    ensures var r := MapLeftAssoc(left, mid, right, transform, active, input);
      r.Some? ==> Continues(input, r.value.next)
    ensures var r := MapLeftAssoc(left, mid, right, transform, active, input);
      r.Some? && (forall a, j :: right(a, j).Some? ==> Consumes(j, right(a, j).value.next)) ==>
      Consumes(input, r.value.next)
  {
    var r := MapLeftAssoc(left, mid, right, transform, active, input);
    if r.Some? {
      var leftOutput :=
        if input.leftPayload.NoLeft? then References.Guard(active, left)(input)
        else Some(Output(input.leftPayload.value, input.(leftPayload := NoLeft)));
      var l := leftOutput.value;
      assert Continues(input, l.next);
      var ms := References.Bind(mid, active);
      forall k | 0 <= k < |ms| ensures WellBehaved(ms[k]) {
        assert DelegateWellBehaved(mid[k]);
      }
      var m := InOrder.SeqFrom(ms, l.next).value;
      InOrder.SeqFromContinues(ms, l.next);
      var j := m.next.(leftPayload := RightRecursionMarker);
      var x := right(active, j).value;
      assert Continues(j, x.next);
      var payload := transform([l.payload] + m.payload + [x.payload]);
      var nextInput := x.next.(leftPayload := Left(payload));
      var again := References.Guard(active, left)(nextInput);
      if again.Some? {
        assert Continues(nextInput, again.value.next);
      }
    }
  }
}
