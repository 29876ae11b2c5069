/** The older revision of the combinator file: `map`, the uncapped `repeat`, and
    `orWithPrecedence` with its `index` field and the `ResetPrecedence` wrapper.
    Its `str`, `regex`, `or`, `ref` and `leftRef` are the same code as the newer
    files and are modelled there (Strings, OneOf, References). */
module Parsers {
  import opened Core
  import OneOf

  /** `p.map(f)`: transform the payload of a match, keep the Input it leads to. */
  function Map<T, R, V>(p: Parser<T, V>, f: T -> R): Parser<R, V> {
    (i: Input<V>) =>
      match p(i)
      case None => None
      case Some(o) => Some(Output(f(o.payload), o.next))
  }

  /** Failure passes through; a match is transformed and keeps its next Input. */
  lemma MapOutcome<T, R, V>(p: Parser<T, V>, f: T -> R, i: Input<V>)
    ensures Map(p, f)(i).None? <==> p(i).None?
    ensures p(i).Some? ==> Map(p, f)(i) == Some(Output(f(p(i).value.payload), p(i).value.next))
  {
  }

  /** `map` changes no position, so it keeps the parser contract. */
  lemma MapKeepsContract<T, R, V(!new)>(p: Parser<T, V>, f: T -> R)
    ensures WellBehaved(p) ==> WellBehaved(Map(p, f))
    ensures Progressive(p) ==> Progressive(Map(p, f))
  {
    if WellBehaved(p) {
      forall i | Valid(i) && Map(p, f)(i).Some?
        ensures Continues(i, Map(p, f)(i).value.next)
      {
        assert p(i).Some?;
      }
    }
    if Progressive(p) {
      forall i | Map(p, f)(i).Some?
        ensures Consumes(i, Map(p, f)(i).value.next)
      {
        assert p(i).Some?;
      }
    }
  }

  /** The successive matches of the uncapped loop: every match until the first
      failure, paired with the Input after the last one. */
  function CollectAll<T, V(!new)>(p: Parser<T, V>, i: Input<V>): (seq<T>, Input<V>)
    requires Progressive(p)
    decreases Remaining(i)
  {
    match p(i)
    case None => ([], i)
    case Some(o) =>
      assert Consumes(i, o.next);
      var (rest, j) := CollectAll(p, o.next);
      ([o.payload] + rest, j)
  }

  /** `repeat(parser, atLeast)` of this revision: no upper bound. */
  function RepeatAll<T, V(!new)>(p: Parser<T, V>, atLeast: int): Parser<seq<T>, V>
    requires Progressive(p)
  {
    (i: Input<V>) =>
      var (xs, j) := CollectAll(p, i);
      if |xs| >= atLeast then Some(Output(xs, j)) else None
  }

  /** The loop of parsers.kt:24-35, proved to compute RepeatAll. */
  method RepeatAllParse<T, V(!new)>(p: Parser<T, V>, atLeast: int, input: Input<V>)
    returns (r: Option<Output<seq<T>, V>>)
    requires Progressive(p)
    ensures r == RepeatAll(p, atLeast)(input)
  {
    var payload: seq<T> := [];
    var nextInput := input;
    assert payload + CollectAll(p, nextInput).0 == CollectAll(p, input).0;
    while true
      invariant CollectAll(p, input) ==
        (payload + CollectAll(p, nextInput).0, CollectAll(p, nextInput).1)
      decreases Remaining(nextInput)
    {
      var output := p(nextInput);
      if output.None? {
        assert CollectAll(p, nextInput) == ([], nextInput);
        assert payload + [] == payload;
        break;
      }
      assert Consumes(nextInput, output.value.next);
      ghost var rest := CollectAll(p, output.value.next);
      assert CollectAll(p, nextInput) == ([output.value.payload] + rest.0, rest.1);
      assert payload + ([output.value.payload] + rest.0) == (payload + [output.value.payload]) + rest.0;
      nextInput := output.value.next;
      payload := payload + [output.value.payload];
    }
    r := if |payload| >= atLeast then Some(Output(payload, nextInput)) else None;
  }

  // ---------------------------------------------------------------------------
  // orWithPrecedence and ResetPrecedence

  /** An alternative's parser as seen from `orWithPrecedence`: its answer may
      depend on the choice's `index` while it runs (a re-entrant call sees it).
      A `ResetPrecedence` wrapper only delegates, so it is recorded as a flag next
      to the wrapped parser's delegate. */
  type IndexDelegate<T, !V> = (nat, Input<V>) -> Option<Output<T, V>>

  /** The `index` alternative start + k runs with, as written: 0 for a
      `ResetPrecedence` alternative, otherwise k, its position within the sublist
      that starts at `start`. */
  function IndexDuring(resets: seq<bool>, start: nat, k: nat): nat
    requires start + k < |resets|
  {
    if resets[start + k] then 0 else k
  }

  /** The first success among the sublist positions k, k+1, ... */
  function OrTryFrom<T, V>(
    ps: seq<IndexDelegate<T, V>>, resets: seq<bool>, start: nat, k: nat, input: Input<V>)
    : Option<Output<T, V>>
    requires |resets| == |ps|
    decreases |ps| - (start + k)
  {
    if start + k >= |ps| then None
    else
      var output := ps[start + k](IndexDuring(resets, start, k), input);
      if output.Some? then output else OrTryFrom(ps, resets, start, k + 1, input)
  }

  /** `orWithPrecedence(parsers)` with its `index` field. */
  class OrWithPrecedence<T, V> {
    const delegates: seq<IndexDelegate<T, V>>
    const resets: seq<bool>
    var index: nat

    ghost predicate Valid()
      reads this
    {
      |resets| == |delegates| && index <= |delegates|
    }

    constructor (delegates: seq<IndexDelegate<T, V>>, resets: seq<bool>)
      requires |resets| == |delegates|
      ensures Valid()
      ensures this.delegates == delegates && this.resets == resets && index == 0
    {
      this.delegates := delegates;
      this.resets := resets;
      index := 0;
    }

    /** Try the alternatives from position `index` on, setting `index` for the
        duration of each attempt and restoring it after; the field is the same
        after the call as before. */
    method Parse(input: Input<V>) returns (r: Option<Output<T, V>>)
      requires Valid()
      modifies this
      ensures Valid() && index == old(index)
      ensures r == OrTryFrom(delegates, resets, old(index), 0, input)
    {
      var start := index;
      var parserIndex := 0;
      while start + parserIndex < |delegates|
        invariant index == start
        invariant OrTryFrom(delegates, resets, start, 0, input) ==
          OrTryFrom(delegates, resets, start, parserIndex, input)
        decreases |delegates| - (start + parserIndex)
      {
        var lastIndex := index;
        index := if resets[start + parserIndex] then 0 else parserIndex;
        var output := delegates[start + parserIndex](index, input);
        index := lastIndex;
        if output.Some? {
          return output;
        }
        parserIndex := parserIndex + 1;
      }
      return None;
    }
  }

  lemma OrTryFromIsFirstSuccess<T, V>(
    ps: seq<IndexDelegate<T, V>>, resets: seq<bool>, start: nat, k: nat, input: Input<V>)
    requires |resets| == |ps|
    ensures OrTryFrom(ps, resets, start, k, input).None? <==>
      forall j :: start + k <= j < |ps| ==> ps[j](IndexDuring(resets, start, j - start), input).None?
    ensures forall j :: (start + k <= j < |ps| &&
      ps[j](IndexDuring(resets, start, j - start), input).Some? &&
      forall l :: start + k <= l < j ==> ps[l](IndexDuring(resets, start, l - start), input).None?) ==>
      OrTryFrom(ps, resets, start, k, input) == ps[j](IndexDuring(resets, start, j - start), input)
  {
    var f := OrAttempts(ps, resets, start, input);
    OrTryFromIsFirstSome(ps, resets, start, k, input);
    OneOf.FirstSomeIsFirst(f, start + k, |ps|);
    forall j | start + k <= j < |ps|
      ensures f(j) == ps[j](IndexDuring(resets, start, j - start), input)
    {
    }
  }

  /** The outcomes of the alternatives from `start` on, by position, each run
      with the index it sees. */
  function OrAttempts<T, V>(ps: seq<IndexDelegate<T, V>>, resets: seq<bool>, start: nat, input: Input<V>)
    : nat -> Option<Output<T, V>>
    requires |resets| == |ps|
  {
    (j: nat) => if start <= j < |ps| then ps[j](IndexDuring(resets, start, j - start), input) else None
  }

  /** Trying the alternatives from `start + k` is taking the first success among
      their outcomes. */
  lemma {:induction false} OrTryFromIsFirstSome<T, V>(
    ps: seq<IndexDelegate<T, V>>, resets: seq<bool>, start: nat, k: nat, input: Input<V>)
    requires |resets| == |ps|
    ensures OrTryFrom(ps, resets, start, k, input) == OneOf.FirstSome(OrAttempts(ps, resets, start, input), start + k, |ps|)
    decreases |ps| - (start + k)
  {
    if start + k < |ps| {
      OrTryFromIsFirstSome(ps, resets, start, k + 1, input);
    }
  }

  /** The choice answers with the first success among the alternatives from
      position `index` on, each run with the index it sees, and with no match when
      they all fail; the alternatives before `index` are never called. */
  lemma OrWithPrecedenceOutcome<T, V>(
    ps: seq<IndexDelegate<T, V>>, qs: seq<IndexDelegate<T, V>>, resets: seq<bool>,
    index: nat, input: Input<V>)
    requires |resets| == |ps| && |qs| == |ps|
    ensures OrTryFrom(ps, resets, index, 0, input).None? <==>
      forall j :: index <= j < |ps| ==> ps[j](IndexDuring(resets, index, j - index), input).None?
    ensures forall j :: (index <= j < |ps| &&
      ps[j](IndexDuring(resets, index, j - index), input).Some? &&
      forall l :: index <= l < j ==> ps[l](IndexDuring(resets, index, l - index), input).None?) ==>
      OrTryFrom(ps, resets, index, 0, input) == ps[j](IndexDuring(resets, index, j - index), input)
    ensures (forall j :: index <= j < |ps| ==> ps[j] == qs[j]) ==>
      OrTryFrom(ps, resets, index, 0, input) == OrTryFrom(qs, resets, index, 0, input)
  {
    OrTryFromIsFirstSuccess(ps, resets, index, 0, input);
    if forall j :: index <= j < |ps| ==> ps[j] == qs[j] {
      OrTryFromIgnoresEarlier(ps, qs, resets, index, 0, input);
    }
  }

  lemma {:induction false} OrTryFromIgnoresEarlier<T, V>(
    ps: seq<IndexDelegate<T, V>>, qs: seq<IndexDelegate<T, V>>, resets: seq<bool>,
    start: nat, k: nat, input: Input<V>)
    requires |resets| == |ps| && |qs| == |ps|
    requires forall j :: start + k <= j < |ps| ==> ps[j] == qs[j]
    ensures OrTryFrom(ps, resets, start, k, input) == OrTryFrom(qs, resets, start, k, input)
    decreases |ps| - (start + k)
  {
    if start + k < |ps| {
      OrTryFromIgnoresEarlier(ps, qs, resets, start, k + 1, input);
    }
  }

  /** As written, the plain alternative at position 1 of two, tried from
      `index` = 1, runs with `index` = 0. A re-entrant call from inside it then
      consults the alternative at position 0, which comes earlier and so binds
      more loosely (in `orWithPrecedence(plus, multiply, ...)`, `plus`), and
      which the choice is meant to exclude there: two choices that agree on
      every alternative from position 1 on answer that call differently. */
  lemma RelativeIndexForgetsPrecedence<V>(input: Input<V>)
    ensures var resets := [false, false];
      var ps: seq<IndexDelegate<int, V>> :=
        [(_: nat, i: Input<V>) => Some(Output(0, i)), (_: nat, i: Input<V>) => None];
      var qs: seq<IndexDelegate<int, V>> :=
        [(_: nat, i: Input<V>) => None, (_: nat, i: Input<V>) => None];
      var nested := IndexDuring(resets, 1, 0);
      nested == 0 && ps[1] == qs[1] &&
      OrTryFrom(ps, resets, nested, 0, input) != OrTryFrom(qs, resets, nested, 0, input)
  {
    var resets := [false, false];
    var ps: seq<IndexDelegate<int, V>> :=
      [(_: nat, i: Input<V>) => Some(Output(0, i)), (_: nat, i: Input<V>) => None];
    var qs: seq<IndexDelegate<int, V>> :=
      [(_: nat, i: Input<V>) => None, (_: nat, i: Input<V>) => None];
    assert OrTryFrom(ps, resets, 0, 0, input) == Some(Output(0, input));
    assert OrTryFrom(qs, resets, 0, 1, input) == OrTryFrom(qs, resets, 0, 2, input) == None;
  }

  /** The index evidently intended, as the newer `oneOfWithPrecedence` computes
      it with `indexOf`: the alternative's absolute position. */
  function CorrectedIndexDuring(resets: seq<bool>, start: nat, k: nat): (r: nat)
    requires start + k < |resets|
    ensures resets[start + k] ==> r == 0
    ensures !resets[start + k] ==> start <= r < |resets| && r == start + k
  {
    if resets[start + k] then 0 else start + k
  }

  /** The first success among positions start + k, start + k + 1, ..., each
      alternative run with the corrected index. A re-entrant call made from
      inside an alternative is again such a choice, from the index that
      alternative runs with. */
  function CorrectedTryFrom<T, V>(
    ps: seq<IndexDelegate<T, V>>, resets: seq<bool>, start: nat, k: nat, input: Input<V>)
    : Option<Output<T, V>>
    requires |resets| == |ps|
    decreases |ps| - (start + k)
  {
    if start + k >= |ps| then None
    else
      var output := ps[start + k](CorrectedIndexDuring(resets, start, k), input);
      if output.Some? then output else CorrectedTryFrom(ps, resets, start, k + 1, input)
  }

  /** The corrected choice never consults an alternative before its start. */
  lemma {:induction false} CorrectedTryFromIgnoresEarlier<T, V>(
    ps: seq<IndexDelegate<T, V>>, qs: seq<IndexDelegate<T, V>>, resets: seq<bool>,
    start: nat, k: nat, input: Input<V>)
    requires |resets| == |ps| && |qs| == |ps|
    requires forall j :: start + k <= j < |ps| ==> ps[j] == qs[j]
    ensures CorrectedTryFrom(ps, resets, start, k, input) == CorrectedTryFrom(qs, resets, start, k, input)
    decreases |ps| - (start + k)
  {
    if start + k < |ps| {
      CorrectedTryFromIgnoresEarlier(ps, qs, resets, start, k + 1, input);
    }
  }

  /** With the corrected index, whatever the entry index, a re-entrant call made
      from inside a plain alternative never tries an alternative before it (of
      lower precedence); every alternative that call tries runs, unless it is a
      `ResetPrecedence`, with an index no smaller again, so the same holds at
      every depth of nesting. */
  lemma CorrectedIndexKeepsPrecedence<T, V>(
    ps: seq<IndexDelegate<T, V>>, qs: seq<IndexDelegate<T, V>>, resets: seq<bool>,
    start: nat, k: nat, input: Input<V>)
    requires |resets| == |ps| && |qs| == |ps| && start + k < |ps| && !resets[start + k]
    requires forall j :: start + k <= j < |ps| ==> ps[j] == qs[j]
    ensures CorrectedIndexDuring(resets, start, k) >= start + k
    ensures var nested := CorrectedIndexDuring(resets, start, k);
      CorrectedTryFrom(ps, resets, nested, 0, input) == CorrectedTryFrom(qs, resets, nested, 0, input)
    ensures var nested := CorrectedIndexDuring(resets, start, k);
      forall j :: nested <= j < |ps| && !resets[j] ==> CorrectedIndexDuring(resets, nested, j - nested) >= start + k
  {
    CorrectedTryFromIgnoresEarlier(ps, qs, resets, start + k, 0, input);
  }
}
