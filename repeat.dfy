/** `repeat(parser, atLeast, atMost)` and its specialisations. */
module Repeat {
  import opened Core
  import Parsers

  /** Kotlin's Int.MAX_VALUE, the default `atMost`. */
  const IntMax: int := 0x7fff_ffff

  /** What the loop needs in order to stop: a cap it can reach, or a parser
      whose every match consumes input. */
  ghost predicate Stops<T, V(!new)>(p: Parser<T, V>, atMost: int) {
    atMost >= 1 || Progressive(p)
  }

  /** The cap left after `taken` matches; a cap below 1 is never reached,
      because the loop compares the count with it only after adding a match. */
  function Budget(atMost: int, taken: nat): int {
    if atMost >= 1 then atMost - taken else atMost
  }

  /** The matches the loop collects from `i` with `limit` still to go, and the
      Input after the last one. */
  function Collect<T, V(!new)>(p: Parser<T, V>, limit: int, i: Input<V>): (seq<T>, Input<V>)
    requires Stops(p, limit)
    decreases if limit >= 1 then limit else Remaining(i)
  {
    match p(i)
    case None => ([], i)
    case Some(o) =>
      if limit == 1 then ([o.payload], o.next)
      else
        assert limit < 1 ==> Consumes(i, o.next);
        var (rest, j) := Collect(p, Budget(limit, 1), o.next);
        ([o.payload] + rest, j)
  }

  /** One step of Collect under a cap. */
  lemma CollectStep<T, V(!new)>(p: Parser<T, V>, limit: int, i: Input<V>)
    requires limit >= 1
    ensures p(i).None? ==> Collect(p, limit, i) == ([], i)
    ensures p(i).Some? && limit == 1 ==> Collect(p, limit, i) == ([p(i).value.payload], p(i).value.next)
    ensures p(i).Some? && limit > 1 ==>
      var rest := Collect(p, limit - 1, p(i).value.next);
      Collect(p, limit, i) == ([p(i).value.payload] + rest.0, rest.1)
  {
  }

  /** `repeat(parser, atLeast, atMost)`. */
  function Repeat<T, V(!new)>(p: Parser<T, V>, atLeast: int, atMost: int): Parser<seq<T>, V>
    requires Stops(p, atMost)
  {
    (i: Input<V>) =>
      var (xs, j) := Collect(p, atMost, i);
      if |xs| >= atLeast then Some(Output(xs, j)) else None
  }

  function ZeroOrMore<T, V(!new)>(p: Parser<T, V>): Parser<seq<T>, V> {
    Repeat(p, 0, IntMax)
  }

  function OneOrMore<T, V(!new)>(p: Parser<T, V>): Parser<seq<T>, V> {
    Repeat(p, 1, IntMax)
  }

  function FirstOrNull<T>(xs: seq<T>): Option<T> {
    if |xs| == 0 then None else Some(xs[0])
  }

  /** `optional(parser)`: zero or one match, as a nullable payload. */
  function Optional<T, V(!new)>(p: Parser<T, V>): Parser<Option<T>, V> {
    Parsers.Map(Repeat(p, 0, 1), FirstOrNull)
  }

  /** The loop of repeat.kt:5-13, proved to compute Repeat. */
  method RepeatParse<T, V(!new)>(p: Parser<T, V>, atLeast: int, atMost: int, input: Input<V>)
    returns (r: Option<Output<seq<T>, V>>)
    requires Stops(p, atMost)
    ensures r == Repeat(p, atLeast, atMost)(input)
  {
    var payload: seq<T> := [];
    var nextInput := input;
    assert payload + Collect(p, atMost, nextInput).0 == Collect(p, atMost, input).0;
    while true
      invariant atMost >= 1 ==> |payload| < atMost
      invariant Collect(p, atMost, input) ==
        (payload + Collect(p, Budget(atMost, |payload|), nextInput).0,
         Collect(p, Budget(atMost, |payload|), nextInput).1)
      decreases if atMost >= 1 then atMost - |payload| else Remaining(nextInput)
    {
      ghost var budget := Budget(atMost, |payload|);
      var output := p(nextInput);
      if output.None? {
        assert payload + [] == payload;
        break;
      }
      assert atMost < 1 ==> Consumes(nextInput, output.value.next);
      ghost var step := Collect(p, budget, nextInput);
      nextInput := output.value.next;
      payload := payload + [output.value.payload];
      if |payload| == atMost {
        assert step == ([output.value.payload], nextInput);
        break;
      }
      ghost var rest := Collect(p, Budget(atMost, |payload|), nextInput);
      assert step == ([output.value.payload] + rest.0, rest.1);
      assert payload[..|payload| - 1] + ([output.value.payload] + rest.0) == payload + rest.0;
    }
    r := if |payload| >= atLeast then Some(Output(payload, nextInput)) else None;
  }

  /** `xs` are the payloads of successive matches of `p` leading from `i` to `j`. */
  ghost predicate IsRun<T, V>(p: Parser<T, V>, i: Input<V>, xs: seq<T>, j: Input<V>)
    decreases |xs|
  {
    if xs == [] then j == i
    else p(i).Some? && p(i).value.payload == xs[0] && IsRun(p, p(i).value.next, xs[1..], j)
  }

  /** The run cannot go on: the next attempt fails, or the cap has been reached. */
  ghost predicate Halted<T, V>(p: Parser<T, V>, atMost: int, xs: seq<T>, j: Input<V>) {
    p(j).None? || (atMost >= 1 && |xs| == atMost)
  }

  /** The loop's result is a run of matches that halts, never longer than the cap. */
  lemma {:induction false} CollectIsHaltedRun<T, V(!new)>(p: Parser<T, V>, limit: int, i: Input<V>)
    requires Stops(p, limit)
    ensures var (xs, j) := Collect(p, limit, i);
      IsRun(p, i, xs, j) && Halted(p, limit, xs, j) && (limit >= 1 ==> |xs| <= limit)
    decreases if limit >= 1 then limit else Remaining(i)
  {
    match p(i)
    case None =>
    case Some(o) =>
      if limit == 1 {
        var (xs, j) := Collect(p, limit, i);
        assert xs == [o.payload] && j == o.next;
        assert IsRun(p, o.next, xs[1..], j);
      } else {
        assert limit < 1 ==> Consumes(i, o.next);
        CollectIsHaltedRun(p, Budget(limit, 1), o.next);
        var (rest, j) := Collect(p, Budget(limit, 1), o.next);
        assert ([o.payload] + rest)[1..] == rest;
      }
  }

  /** A halted run within the cap is the one the loop collects: the matches are
      determined by `p`, in order. */
  lemma {:induction false} HaltedRunIsCollect<T, V(!new)>(
    p: Parser<T, V>, limit: int, i: Input<V>, xs: seq<T>, j: Input<V>)
    requires Stops(p, limit)
    requires IsRun(p, i, xs, j) && Halted(p, limit, xs, j) && (limit >= 1 ==> |xs| <= limit)
    ensures Collect(p, limit, i) == (xs, j)
    decreases |xs|
  {
    if xs == [] {
      assert j == i;
      if limit >= 1 { assert p(j).None?; }
    } else {
      var o := p(i).value;
      if limit == 1 {
        assert |xs| == 1;
        assert xs == [o.payload];
        assert IsRun(p, o.next, xs[1..], j);
        assert xs[1..] == [];
      } else {
        assert limit < 1 ==> Consumes(i, o.next);
        assert Halted(p, Budget(limit, 1), xs[1..], j);
        HaltedRunIsCollect(p, Budget(limit, 1), o.next, xs[1..], j);
        assert [o.payload] + xs[1..] == xs;
      }
    }
  }

  /** `repeat` matches with `xs` up to `j` exactly when `xs` is a run of matches
      from the input to `j` that halts, respects the cap, and is at least
      `atLeast` long. */
  lemma RepeatCharacterized<T, V(!new)>(
    p: Parser<T, V>, atLeast: int, atMost: int, i: Input<V>, xs: seq<T>, j: Input<V>)
    requires Stops(p, atMost)
    ensures Repeat(p, atLeast, atMost)(i) == Some(Output(xs, j)) <==>
      IsRun(p, i, xs, j) && Halted(p, atMost, xs, j) && (atMost >= 1 ==> |xs| <= atMost)
      && |xs| >= atLeast
  {
    CollectIsHaltedRun(p, atMost, i);
    if IsRun(p, i, xs, j) && Halted(p, atMost, xs, j) && (atMost >= 1 ==> |xs| <= atMost) {
      HaltedRunIsCollect(p, atMost, i, xs, j);
    }
  }

  /** With a cap of at least one, never more than `atMost` matches. */
  lemma RepeatRespectsCap<T, V(!new)>(p: Parser<T, V>, atLeast: int, atMost: int, i: Input<V>)
    requires atMost >= 1
    ensures Repeat(p, atLeast, atMost)(i).Some? ==> |Repeat(p, atLeast, atMost)(i).value.payload| <= atMost
  {
    CollectIsHaltedRun(p, atMost, i);
  }

  /** A match iff the loop collected at least `atLeast` payloads. */
  lemma RepeatMatchesIffEnough<T, V(!new)>(p: Parser<T, V>, atLeast: int, atMost: int, i: Input<V>)
    requires Stops(p, atMost)
    ensures Repeat(p, atLeast, atMost)(i).Some? <==> |Collect(p, atMost, i).0| >= atLeast
  {
  }

  /** No match at all: an empty list and the unchanged input when `atLeast` allows it. */
  lemma RepeatNoMatch<T, V(!new)>(p: Parser<T, V>, atLeast: int, atMost: int, i: Input<V>)
    requires Stops(p, atMost) && p(i).None?
    ensures Repeat(p, atLeast, atMost)(i) == if atLeast <= 0 then Some(Output([], i)) else None
  {
  }

  /** `oneOrMore` fails exactly when the first attempt fails. */
  lemma OneOrMoreFailsIffFirstFails<T, V(!new)>(p: Parser<T, V>, i: Input<V>)
    ensures OneOrMore(p)(i).None? <==> p(i).None?
  {
  }

  /** `optional` consumes at most one match: its payload, or null and the
      unchanged input. */
  lemma OptionalOutcome<T, V(!new)>(p: Parser<T, V>, i: Input<V>)
    ensures p(i).None? ==> Optional(p)(i) == Some(Output(None, i))
    ensures p(i).Some? ==> Optional(p)(i) == Some(Output(Some(p(i).value.payload), p(i).value.next))
  {
    if p(i).Some? {
      var o := p(i).value;
      assert Collect(p, 1, i) == ([o.payload], o.next);
      assert Repeat(p, 0, 1)(i) == Some(Output([o.payload], o.next));
    }
  }

  /** Without a reachable cap, the newer `repeat` is the older uncapped one. */
  lemma {:induction false} UncappedIsRepeatAll<T, V(!new)>(p: Parser<T, V>, atMost: int, i: Input<V>)
    requires atMost < 1 && Progressive(p)
    ensures Collect(p, atMost, i) == Parsers.CollectAll(p, i)
    decreases Remaining(i)
  {
    match p(i)
    case None =>
    case Some(o) =>
      assert Consumes(i, o.next);
      UncappedIsRepeatAll(p, atMost, o.next);
  }

  lemma RepeatWithoutCapIsOlderRepeat<T, V(!new)>(p: Parser<T, V>, atLeast: int, atMost: int, i: Input<V>)
    requires atMost < 1 && Progressive(p)
    ensures Repeat(p, atLeast, atMost)(i) == Parsers.RepeatAll(p, atLeast)(i)
  {
    UncappedIsRepeatAll(p, atMost, i);
  }

  /** Every element of a run comes from a match that keeps the contract, so the
      run's end continues its start. */
  lemma {:induction false} RunContinues<T, V(!new)>(p: Parser<T, V>, i: Input<V>, xs: seq<T>, j: Input<V>)
    requires WellBehaved(p) && Valid(i) && IsRun(p, i, xs, j)
    ensures Continues(i, j)
    ensures Progressive(p) && |xs| > 0 ==> Consumes(i, j)
    decreases |xs|
  {
    if xs != [] {
      RunContinues(p, p(i).value.next, xs[1..], j);
    }
  }

  /** `repeat` keeps the parser contract; with `atLeast >= 1` over a consuming
      parser, it consumes too. */
  lemma RepeatKeepsContract<T, V(!new)>(p: Parser<T, V>, atLeast: int, atMost: int)
    requires Stops(p, atMost)
    ensures WellBehaved(p) ==> WellBehaved(Repeat(p, atLeast, atMost))
    ensures Progressive(p) && atLeast >= 1 ==> Progressive(Repeat(p, atLeast, atMost))
  {
    if WellBehaved(p) {
      forall i | Valid(i) && Repeat(p, atLeast, atMost)(i).Some?
        ensures Continues(i, Repeat(p, atLeast, atMost)(i).value.next)
      {
        CollectIsHaltedRun(p, atMost, i);
        var (xs, j) := Collect(p, atMost, i);
        RunContinues(p, i, xs, j);
      }
    }
    if Progressive(p) && atLeast >= 1 {
      ProgressiveIsWellBehaved(p);
      forall i | Repeat(p, atLeast, atMost)(i).Some?
        ensures Consumes(i, Repeat(p, atLeast, atMost)(i).value.next)
      {
        CollectIsHaltedRun(p, atMost, i);
        var (xs, j) := Collect(p, atMost, i);
        assert p(i).Some?;
        assert Consumes(i, p(i).value.next);
        RunContinues(p, i, xs, j);
      }
    }
  }
}
