/** Choice: the first alternative that matches, the longest match, and the
    precedence-aware choice that remembers which alternative it is inside. */
module OneOf {
  import opened Core
  import References

  // ---------------------------------------------------------------------------
  // oneOf (and `or` of the older revision, the same loop)

  /** The first alternative's match, trying them in list order. */
  function FirstMatch<T, V>(ps: seq<Parser<T, V>>, i: Input<V>): Option<Output<T, V>>
    decreases |ps|
  {
    if |ps| == 0 then None
    else if ps[0](i).Some? then ps[0](i)
    else FirstMatch(ps[1..], i)
  }

  function OneOf<T, V>(ps: seq<Parser<T, V>>): Parser<T, V> {
    (i: Input<V>) => FirstMatch(ps, i)
  }

  /** Ordered choice: no match iff every alternative fails, and otherwise the
      output of the first alternative that matches. */
  lemma {:induction false} OneOfIsFirstSuccess<T, V>(ps: seq<Parser<T, V>>, i: Input<V>)
    ensures OneOf(ps)(i).None? <==> forall k :: 0 <= k < |ps| ==> ps[k](i).None?
    ensures forall k :: (0 <= k < |ps| && ps[k](i).Some? &&
      forall j :: 0 <= j < k ==> ps[j](i).None?) ==> OneOf(ps)(i) == ps[k](i)
    ensures OneOf(ps)(i).Some? ==> exists k :: 0 <= k < |ps| && OneOf(ps)(i) == ps[k](i)
    decreases |ps|
  {
    if |ps| > 0 && ps[0](i).None? {
      OneOfIsFirstSuccess(ps[1..], i);
      assert OneOf(ps)(i) == OneOf(ps[1..])(i);
      forall k | 1 <= k < |ps|
        ensures ps[1..][k - 1] == ps[k]
      {
      }
      if OneOf(ps)(i).Some? {
        var k :| 0 <= k < |ps[1..]| && OneOf(ps[1..])(i) == ps[1..][k](i);
        assert OneOf(ps)(i) == ps[k + 1](i);
      }
    }
  }

  /** Choice keeps the parser contract of its alternatives. */
  lemma OneOfKeepsContract<T, V(!new)>(ps: seq<Parser<T, V>>)
    ensures (forall k :: 0 <= k < |ps| ==> WellBehaved(ps[k])) ==> WellBehaved(OneOf(ps))
    ensures (forall k :: 0 <= k < |ps| ==> Progressive(ps[k])) ==> Progressive(OneOf(ps))
  {
    forall i | OneOf(ps)(i).Some?
      ensures exists k :: 0 <= k < |ps| && OneOf(ps)(i) == ps[k](i)
    {
      OneOfIsFirstSuccess(ps, i);
    }
  }

  /** The first of `f(k)`, ..., `f(n - 1)` that is a match. */
  function FirstSome<X>(f: nat -> Option<X>, k: nat, n: nat): Option<X>
    decreases n - k
  {
    if k >= n then None
    else if f(k).Some? then f(k)
    else FirstSome(f, k + 1, n)
  }

  /** No match iff every outcome fails; otherwise the first outcome that is a
      match. */
  lemma {:induction false} FirstSomeIsFirst<X>(f: nat -> Option<X>, k: nat, n: nat)
    ensures FirstSome(f, k, n).None? <==> forall j :: k <= j < n ==> f(j).None?
    ensures forall j :: (k <= j < n && f(j).Some? && forall l :: k <= l < j ==> f(l).None?) ==>
      FirstSome(f, k, n) == f(j)
    decreases n - k
  {
    if k < n {
      FirstSomeIsFirst(f, k + 1, n);
    }
  }

  // ---------------------------------------------------------------------------
  // oneOfLongest

  /** Kotlin 1.4's `maxBy` step: the element seen so far is replaced only by a
      match reaching strictly further, so ties keep the earlier one. Failures are
      skipped, as `mapNotNull` drops them. */
  function Pick<T, V>(best: Option<Output<T, V>>, o: Option<Output<T, V>>): Option<Output<T, V>> {
    if o.None? then best
    else if best.None? then o
    else if best.value.next.offset < o.value.next.offset then o
    else best
  }

  /** `mapNotNull` followed by `maxBy`, over the alternatives ps[0..n). */
  function LongestUpTo<T, V>(ps: seq<Parser<T, V>>, i: Input<V>, n: nat): Option<Output<T, V>>
    requires n <= |ps|
  {
    if n == 0 then None else Pick(LongestUpTo(ps, i, n - 1), ps[n - 1](i))
  }

  /** The parser inside `oneOfLongest`. */
  function Longest<T, V>(ps: seq<Parser<T, V>>): Parser<T, V> {
    (i: Input<V>) => LongestUpTo(ps, i, |ps|)
  }

  /** `oneOfLongest`: the longest-match choice behind the `nonRecursive` guard,
      taken to be the offset guard of `nonRecRef` (its definition is not part of
      this model). `active` is the guard's set of offsets. An alternative may
      reach this same choice again (a left-recursive grammar), so it is a
      delegate of the offsets the guard holds while it runs. */
  function OneOfLongest<T, V(!new)>(ps: seq<References.GuardedDelegate<T, V>>, active: set<nat>): Parser<T, V> {
    References.Guard(active, LongestDelegate(ps))
  }

  /** The guarded parser: every alternative runs seeing the offsets `held`. */
  function LongestDelegate<T, V(!new)>(ps: seq<References.GuardedDelegate<T, V>>): References.GuardedDelegate<T, V> {
    (held: set<nat>, i: Input<V>) => Longest(References.Bind(ps, held))(i)
  }

  /** Among ps[0..n), alternative k matches, reaches at least as far as every
      match, and strictly further than every match before it. */
  ghost predicate LongestAt<T, V>(ps: seq<Parser<T, V>>, i: Input<V>, n: nat, k: nat)
    requires n <= |ps|
  {
    k < n && ps[k](i).Some? &&
    (forall j :: 0 <= j < n && ps[j](i).Some? ==>
      ps[j](i).value.next.offset <= ps[k](i).value.next.offset) &&
    (forall j :: 0 <= j < k && ps[j](i).Some? ==>
      ps[j](i).value.next.offset < ps[k](i).value.next.offset)
  }

  /** The fold's answer is no match iff every alternative so far failed, and
      otherwise the first longest match so far, at position k. */
  lemma {:induction false} LongestUpToIsFirstLongest<T, V>(ps: seq<Parser<T, V>>, i: Input<V>, n: nat)
    returns (k: nat)
    requires n <= |ps|
    ensures LongestUpTo(ps, i, n).None? <==> forall j :: 0 <= j < n ==> ps[j](i).None?
    ensures LongestUpTo(ps, i, n).Some? ==> LongestAt(ps, i, n, k) && LongestUpTo(ps, i, n) == ps[k](i)
  {
    k := 0;
    if n > 0 {
      var best := LongestUpTo(ps, i, n - 1);
      var o := ps[n - 1](i);
      var k0 := LongestUpToIsFirstLongest(ps, i, n - 1);
      assert LongestUpTo(ps, i, n) == Pick(best, o);
      if best.Some? {
        if o.Some? && best.value.next.offset < o.value.next.offset {
          LongestExtends(ps, i, n - 1, k0);
          k := n - 1;
        } else {
          LongestKeeps(ps, i, n - 1, k0);
          k := k0;
        }
      } else if o.Some? {
        LongestFirst(ps, i, n - 1);
        k := n - 1;
      }
    }
  }

  /** A match reaching strictly further than the longest so far is the new one. */
  lemma LongestExtends<T, V>(ps: seq<Parser<T, V>>, i: Input<V>, n: nat, k: nat)
    requires n < |ps| && LongestAt(ps, i, n, k)
    requires ps[n](i).Some? && ps[k](i).value.next.offset < ps[n](i).value.next.offset
    ensures LongestAt(ps, i, n + 1, n)
  {
  }

  /** A failure, or a match reaching no further, leaves the longest unchanged. */
  lemma LongestKeeps<T, V>(ps: seq<Parser<T, V>>, i: Input<V>, n: nat, k: nat)
    requires n < |ps| && LongestAt(ps, i, n, k)
    requires ps[n](i).Some? ==> ps[n](i).value.next.offset <= ps[k](i).value.next.offset
    ensures LongestAt(ps, i, n + 1, k)
  {
  }

  /** The first match after only failures is the longest so far. */
  lemma LongestFirst<T, V>(ps: seq<Parser<T, V>>, i: Input<V>, n: nat)
    requires n < |ps| && ps[n](i).Some?
    requires forall j :: 0 <= j < n ==> ps[j](i).None?
    ensures LongestAt(ps, i, n + 1, n)
  {
  }

  /** `oneOfLongest` at a free offset: every alternative runs with that offset
      held; no match iff no alternative matches, and otherwise the match
      reaching furthest, the first such on ties. */
  lemma OneOfLongestOutcome<T, V(!new)>(ps: seq<References.GuardedDelegate<T, V>>, active: set<nat>, i: Input<V>)
    requires i.offset !in active
    ensures OneOfLongest(ps, active)(i).None? <==>
      forall j :: 0 <= j < |ps| ==> ps[j](active + {i.offset}, i).None?
    ensures OneOfLongest(ps, active)(i).Some? ==>
      exists k: nat :: LongestAt(References.Bind(ps, active + {i.offset}), i, |ps|, k) &&
        OneOfLongest(ps, active)(i) == ps[k](active + {i.offset}, i)
  {
    var qs := References.Bind(ps, active + {i.offset});
    assert OneOfLongest(ps, active)(i) == Longest(qs)(i);
    var k := LongestUpToIsFirstLongest(qs, i, |qs|);
  }

  /** At an offset the guard already holds, `oneOfLongest` does not match. */
  lemma OneOfLongestRefusesReentry<T, V(!new)>(ps: seq<References.GuardedDelegate<T, V>>, active: set<nat>, i: Input<V>)
    requires i.offset in active
    ensures OneOfLongest(ps, active)(i) == None
  {
  }

  /** The alternative `expr "+" number` of `expr = oneOfLongest(...)`, its
      first part calling the same choice again. */
  function SumAlternative<V(!new)>(ps: seq<References.GuardedDelegate<V, V>>, rest: Parser<V, V>)
    : References.GuardedDelegate<V, V>
  {
    (held: set<nat>, i: Input<V>) =>
      match OneOfLongest(ps, held)(i)
      case None => None
      case Some(l) => rest(l.next)
  }

  /** Left recursion through an alternative is refused: an alternative that
      starts by calling the same `oneOfLongest` at the same offset fails there,
      because the guard holds that offset while the alternatives run, whatever
      the other alternatives are. */
  lemma LeftRecursiveAlternativeFails<V(!new)>(
    ps: seq<References.GuardedDelegate<V, V>>, rest: Parser<V, V>, active: set<nat>, i: Input<V>)
    requires i.offset !in active
    ensures SumAlternative(ps, rest)(active + {i.offset}, i) == None
    ensures OneOfLongest([SumAlternative(ps, rest)] + ps, active)(i) ==
      OneOfLongest(ps, active)(i)
  {
    var held := active + {i.offset};
    var qs := [SumAlternative(ps, rest)] + ps;
    OneOfLongestRefusesReentry(ps, held, i);
    var bq := References.Bind(qs, held);
    var bp := References.Bind(ps, held);
    BindPrefix(qs, ps, held, i);
    LongestShifts(bq, bp, i, |bp|);
    GuardedLongest(qs, active, i);
    GuardedLongest(ps, active, i);
  }

  /** At a free offset, the guarded choice is the longest match among the
      alternatives seeing the offset held. */
  lemma GuardedLongest<T, V(!new)>(ps: seq<References.GuardedDelegate<T, V>>, active: set<nat>, i: Input<V>)
    requires i.offset !in active
    ensures OneOfLongest(ps, active)(i) == LongestUpTo(References.Bind(ps, active + {i.offset}), i, |ps|)
  {
    var qs := References.Bind(ps, active + {i.offset});
    assert OneOfLongest(ps, active)(i) == LongestDelegate(ps)(active + {i.offset}, i);
    assert LongestDelegate(ps)(active + {i.offset}, i) == Longest(qs)(i);
  }

  lemma BindPrefix<T, V(!new)>(
    qs: seq<References.GuardedDelegate<T, V>>, ps: seq<References.GuardedDelegate<T, V>>, held: set<nat>, i: Input<V>)
    requires |qs| == |ps| + 1 && qs[1..] == ps
    ensures forall k :: 0 <= k < |ps| ==> References.Bind(qs, held)[k + 1](i) == References.Bind(ps, held)[k](i)
    ensures References.Bind(qs, held)[0](i) == qs[0](held, i)
  {
    forall k | 0 <= k < |ps|
      ensures References.Bind(qs, held)[k + 1](i) == References.Bind(ps, held)[k](i)
    {
      assert qs[k + 1] == qs[1..][k];
    }
  }

  /** Prefixing a failing alternative does not change the longest match. */
  lemma {:induction false} LongestShifts<T, V>(qs: seq<Parser<T, V>>, ps: seq<Parser<T, V>>, i: Input<V>, n: nat)
    requires |qs| == |ps| + 1 && n <= |ps| && qs[0](i) == None
    requires forall k :: 0 <= k < |ps| ==> qs[k + 1](i) == ps[k](i)
    ensures LongestUpTo(qs, i, n + 1) == LongestUpTo(ps, i, n)
  {
    if n > 0 {
      LongestShifts(qs, ps, i, n - 1);
      assert qs[n](i) == ps[n - 1](i);
    }
  }

  // ---------------------------------------------------------------------------
  // oneOfWithPrecedence

  /** An alternative of a precedence choice, by identity. `nested` records that it
      is wrapped in `NestedPrecedence`; since that wrapper's parse only delegates,
      the wrapped parser's behaviour is the alternative's behaviour. */
  datatype Alternative = Alternative(id: nat, nested: bool)

  /** An alternative's parser as seen from the choice: its answer may depend on
      the stack of alternatives active while it runs (a re-entrant call sees it).
      Nested calls restore the stack before returning (see Parse below). */
  type StackDelegate<T, !V> = (seq<Alternative>, Input<V>) -> Option<Output<T, V>>

  /** The position of an alternative's first occurrence, or -1 (also for none). */
  function IndexOf(alts: seq<Alternative>, a: Option<Alternative>): (r: int)
    ensures -1 <= r < |alts|
    ensures r == -1 <==> a.None? || a.value !in alts
    ensures r >= 0 ==> alts[r] == a.value
  {
    if a.None? then -1 else Find(alts, a.value)
  }

  function Find(alts: seq<Alternative>, a: Alternative): (r: int)
    ensures -1 <= r < |alts|
    ensures r == -1 <==> a !in alts
    ensures r >= 0 ==> alts[r] == a
  {
    if |alts| == 0 then -1
    else if alts[0] == a then 0
    else
      var r := Find(alts[1..], a);
      if r < 0 then -1 else r + 1
  }

  /** The position found is the first occurrence: no earlier alternative is
      the one looked for. */
  lemma {:induction false} FindIsFirst(alts: seq<Alternative>, a: Alternative)
    ensures forall j :: 0 <= j < Find(alts, a) ==> alts[j] != a
  {
    if |alts| > 0 && alts[0] != a {
      FindIsFirst(alts[1..], a);
      forall j | 0 <= j < Find(alts, a)
        ensures alts[j] != a
      {
        if j > 0 {
          assert alts[j] == alts[1..][j - 1];
        }
      }
    }
  }

  /** `stack.peek()`: the most recently pushed alternative. */
  function Top(stack: seq<Alternative>): Option<Alternative> {
    if |stack| == 0 then None else Some(stack[0])
  }

  /** The entry is fresh, or made from inside a nested alternative. */
  predicate FreshOrNested(prev: Option<Alternative>) {
    prev.None? || prev.value.nested
  }

  /** Only this choice pushes onto its stack, so its entries are its own. */
  ghost predicate StackOf(alts: seq<Alternative>, stack: seq<Alternative>) {
    forall a :: a in stack ==> a in alts
  }

  /** The position of the first alternative tried. */
  function FirstTried(alts: seq<Alternative>, stack: seq<Alternative>): nat
    requires StackOf(alts, stack)
  {
    if FreshOrNested(Top(stack)) then 0
    else
      assert stack[0] in alts;
      IndexOf(alts, Top(stack))
  }

  /** The Input alternative k is called with: leftPayload cleared when it comes
      later than the previous alternative, or on a fresh or nested entry when it is
      not the previous alternative. */
  function AttemptInput<V>(alts: seq<Alternative>, stack: seq<Alternative>, k: nat, input: Input<V>): Input<V>
    requires k < |alts|
  {
    var prev := Top(stack);
    if IndexOf(alts, prev) < IndexOf(alts, Some(alts[k])) ||
       (FreshOrNested(prev) && prev != Some(alts[k]))
    then input.(leftPayload := NoLeft)
    else input
  }

  /** Alternative k's answer: run with itself pushed onto the stack. */
  function Attempt<T, V>(
    alts: seq<Alternative>, ps: seq<StackDelegate<T, V>>, stack: seq<Alternative>, k: nat, input: Input<V>)
    : Option<Output<T, V>>
    requires |ps| == |alts| && k < |alts|
  {
    ps[k]([alts[k]] + stack, AttemptInput(alts, stack, k, input))
  }

  /** The first success among alternatives k, k+1, ... */
  function TryFrom<T, V>(
    alts: seq<Alternative>, ps: seq<StackDelegate<T, V>>, stack: seq<Alternative>, k: nat, input: Input<V>)
    : Option<Output<T, V>>
    requires |ps| == |alts|
    decreases |alts| - k
  {
    if k >= |alts| then None
    else if Attempt(alts, ps, stack, k, input).Some? then Attempt(alts, ps, stack, k, input)
    else TryFrom(alts, ps, stack, k + 1, input)
  }

  /** The answer of `oneOfWithPrecedence` whose stack is `stack` when called. */
  function Precedence<T, V>(
    alts: seq<Alternative>, ps: seq<StackDelegate<T, V>>, stack: seq<Alternative>, input: Input<V>)
    : Option<Output<T, V>>
    requires |ps| == |alts| && StackOf(alts, stack)
  {
    TryFrom(alts, ps, stack, FirstTried(alts, stack), input)
  }

  /** `oneOfWithPrecedence(parsers)` with its stack of active alternatives. */
  class OneOfWithPrecedence<T, V> {
    const alternatives: seq<Alternative>
    const delegates: seq<StackDelegate<T, V>>
    var stack: seq<Alternative>

    ghost predicate Valid()
      reads this
    {
      |delegates| == |alternatives| && StackOf(alternatives, stack)
    }

    constructor (alternatives: seq<Alternative>, delegates: seq<StackDelegate<T, V>>)
      requires |delegates| == |alternatives|
      ensures Valid()
      ensures this.alternatives == alternatives && this.delegates == delegates && stack == []
    {
      this.alternatives := alternatives;
      this.delegates := delegates;
      stack := [];
    }

    /** Each attempt pushes its alternative before the call and pops it after,
        so the stack is the same after the call as before. */
    method Parse(input: Input<V>) returns (r: Option<Output<T, V>>)
      requires Valid()
      modifies this
      ensures Valid() && stack == old(stack)
      ensures r == Precedence(alternatives, delegates, old(stack), input)
    {
      var saved := stack;
      var prevParser := Top(stack);
      var prevParserIndex := IndexOf(alternatives, prevParser);
      var isNestedPrecedence := prevParser.None? || prevParser.value.nested;
      var first: nat := 0;
      if !isNestedPrecedence {
        assert stack[0] in alternatives;
        first := IndexOf(alternatives, prevParser);
      }
      var k := first;
      ghost var answer := Precedence(alternatives, delegates, saved, input);
      while k < |alternatives|
        invariant first <= k <= |alternatives|
        invariant stack == saved
        invariant answer == TryFrom(alternatives, delegates, saved, k, input)
        decreases |alternatives| - k
      {
        var parser := alternatives[k];
        stack := [parser] + stack;
        var parserIndex := IndexOf(alternatives, Some(parser));
        var entry := input;
        if prevParserIndex < parserIndex || (isNestedPrecedence && prevParser != Some(parser)) {
          entry := input.(leftPayload := NoLeft);
        }
        assert entry == AttemptInput(alternatives, saved, k, input);
        var output := delegates[k](stack, entry);
        assert output == Attempt(alternatives, delegates, saved, k, input);
        stack := stack[1..];
        TryFromStep(alternatives, delegates, saved, k, input);
        if output.Some? {
          return output;
        }
        k := k + 1;
      }
      return None;
    }
  }

  /** One step of TryFrom. */
  lemma TryFromStep<T, V>(
    alts: seq<Alternative>, ps: seq<StackDelegate<T, V>>, stack: seq<Alternative>, k: nat, input: Input<V>)
    requires |ps| == |alts| && k < |alts|
    ensures var a := Attempt(alts, ps, stack, k, input);
      TryFrom(alts, ps, stack, k, input) == if a.Some? then a else TryFrom(alts, ps, stack, k + 1, input)
  {
  }

  /** The outcomes of the alternatives, by position. */
  function Attempts<T, V>(alts: seq<Alternative>, ps: seq<StackDelegate<T, V>>, stack: seq<Alternative>, input: Input<V>)
    : nat -> Option<Output<T, V>>
    requires |ps| == |alts|
  {
    (j: nat) => if j < |alts| then Attempt(alts, ps, stack, j, input) else None
  }

  /** Trying the alternatives from k is taking the first success among their
      outcomes. */
  lemma {:induction false} TryFromIsFirstSome<T, V>(
    alts: seq<Alternative>, ps: seq<StackDelegate<T, V>>, stack: seq<Alternative>, k: nat, input: Input<V>)
    requires |ps| == |alts|
    ensures TryFrom(alts, ps, stack, k, input) == FirstSome(Attempts(alts, ps, stack, input), k, |alts|)
    decreases |alts| - k
  {
    if k < |alts| {
      TryFromIsFirstSome(alts, ps, stack, k + 1, input);
    }
  }

  lemma TryFromIsFirstSuccess<T, V>(
    alts: seq<Alternative>, ps: seq<StackDelegate<T, V>>, stack: seq<Alternative>, k: nat, input: Input<V>)
    requires |ps| == |alts|
    ensures TryFrom(alts, ps, stack, k, input).None? <==>
      forall j :: k <= j < |alts| ==> Attempt(alts, ps, stack, j, input).None?
    ensures forall j :: (k <= j < |alts| && Attempt(alts, ps, stack, j, input).Some? &&
      forall l :: k <= l < j ==> Attempt(alts, ps, stack, l, input).None?) ==>
      TryFrom(alts, ps, stack, k, input) == Attempt(alts, ps, stack, j, input)
  {
    var f := Attempts(alts, ps, stack, input);
    TryFromIsFirstSome(alts, ps, stack, k, input);
    FirstSomeIsFirst(f, k, |alts|);
    forall j | k <= j < |alts|
      ensures f(j) == Attempt(alts, ps, stack, j, input)
    {
    }
  }

  /** The choice answers with the first success among the alternatives it tries,
      and with no match when they all fail. */
  lemma PrecedenceIsFirstSuccess<T, V>(
    alts: seq<Alternative>, ps: seq<StackDelegate<T, V>>, stack: seq<Alternative>, input: Input<V>)
    requires |ps| == |alts| && StackOf(alts, stack)
    ensures var first := FirstTried(alts, stack);
      Precedence(alts, ps, stack, input).None? <==>
        forall j :: first <= j < |alts| ==> Attempt(alts, ps, stack, j, input).None?
    ensures var first := FirstTried(alts, stack);
      forall j :: (first <= j < |alts| && Attempt(alts, ps, stack, j, input).Some? &&
        forall l :: first <= l < j ==> Attempt(alts, ps, stack, l, input).None?) ==>
        Precedence(alts, ps, stack, input) == Attempt(alts, ps, stack, j, input)
  {
    TryFromIsFirstSuccess(alts, ps, stack, FirstTried(alts, stack), input);
  }

  lemma {:induction false} TryFromIgnoresEarlier<T, V>(
    alts: seq<Alternative>, ps: seq<StackDelegate<T, V>>, qs: seq<StackDelegate<T, V>>,
    stack: seq<Alternative>, k: nat, input: Input<V>)
    requires |ps| == |alts| && |qs| == |alts|
    requires forall j :: k <= j < |alts| ==> ps[j] == qs[j]
    ensures TryFrom(alts, ps, stack, k, input) == TryFrom(alts, qs, stack, k, input)
    decreases |alts| - k
  {
    if k < |alts| {
      TryFromIgnoresEarlier(alts, ps, qs, stack, k + 1, input);
    }
  }

  /** Which alternatives are tried: all of them on a fresh or nested entry; from
      a plain alternative at position j, only j and later ones, so replacing any
      alternative before j changes nothing. */
  lemma WhichAlternativesAreTried<T, V>(
    alts: seq<Alternative>, ps: seq<StackDelegate<T, V>>, qs: seq<StackDelegate<T, V>>,
    stack: seq<Alternative>, input: Input<V>)
    requires |ps| == |alts| && |qs| == |alts| && StackOf(alts, stack)
    ensures FreshOrNested(Top(stack)) ==> FirstTried(alts, stack) == 0
    ensures !FreshOrNested(Top(stack)) ==>
      FirstTried(alts, stack) < |alts| && alts[FirstTried(alts, stack)] == stack[0]
    ensures (forall j :: FirstTried(alts, stack) <= j < |alts| ==> ps[j] == qs[j]) ==>
      Precedence(alts, ps, stack, input) == Precedence(alts, qs, stack, input)
  {
    if !FreshOrNested(Top(stack)) {
      assert stack[0] in alts;
    }
    if forall j :: FirstTried(alts, stack) <= j < |alts| ==> ps[j] == qs[j] {
      TryFromIgnoresEarlier(alts, ps, qs, stack, FirstTried(alts, stack), input);
    }
  }

  /** No alternative occurs twice. */
  predicate Distinct(alts: seq<Alternative>) {
    forall a, b :: 0 <= a < b < |alts| ==> alts[a] != alts[b]
  }

  /** When the alternatives are distinct, the leftPayload rule reads: on a fresh
      entry every alternative runs with it cleared; on an entry from a nested
      alternative at position j, all but j itself; on an entry from a plain
      alternative at position j, the later ones, while j itself receives the
      input unchanged. */
  lemma LeftPayloadRule<V>(alts: seq<Alternative>, stack: seq<Alternative>, k: nat, input: Input<V>)
    requires Distinct(alts) && StackOf(alts, stack)
    requires FirstTried(alts, stack) <= k < |alts|
    ensures var cleared := input.(leftPayload := NoLeft);
      && (|stack| == 0 ==> AttemptInput(alts, stack, k, input) == cleared)
      && (|stack| > 0 && stack[0].nested ==>
            AttemptInput(alts, stack, k, input) ==
              if alts[k] == stack[0] then input else cleared)
      && (|stack| > 0 && !stack[0].nested ==>
            AttemptInput(alts, stack, k, input) ==
              if alts[k] == stack[0] then input else cleared)
      && (|stack| > 0 && !stack[0].nested ==>
            (alts[k] == stack[0] <==> k == FirstTried(alts, stack)))
  {
    assert IndexOf(alts, Some(alts[k])) == k;
    if |stack| > 0 {
      assert stack[0] in alts;
      var j := IndexOf(alts, Top(stack));
      assert alts[j] == stack[0];
      assert alts[k] == stack[0] <==> k == j;
    }
  }
}
