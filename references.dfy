/** `ref`, which defers to a parser built later, and `nonRecRef`, which also
    refuses to re-enter itself at an offset it is already parsing. The same code
    appears as `ref` and `leftRef` in parsers.kt:74-87. */
module References {
  import opened Core

  /** `ref(f)`: whatever `f()` answers, on the same input. */
  function Ref<T, V>(f: () -> Parser<T, V>): Parser<T, V> {
    (i: Input<V>) => f()(i)
  }

  lemma RefDelegates<T, V>(f: () -> Parser<T, V>, i: Input<V>)
    ensures Ref(f)(i) == f()(i)
  {
  }

  /** The guarded parser `f()`, as seen from inside the guard: its answer may
      depend on the offsets the guard holds while it runs (a re-entrant call of
      the same guard sees them). Any nested call of the guard restores that set
      before returning (see NonRecRef.Parse), so the delegate's only effect on
      the guard is through what it reads. */
  type GuardedDelegate<T, !V> = (set<nat>, Input<V>) -> Option<Output<T, V>>

  /** Delegates as parsers, while the guard holds `active`: each answers what
      it answers seeing that set. */
  function Bind<T, V(!new)>(ds: seq<GuardedDelegate<T, V>>, active: set<nat>): (ps: seq<Parser<T, V>>)
    ensures |ps| == |ds|
    ensures forall k, i :: 0 <= k < |ds| ==> ps[k](i) == ds[k](active, i)
  {
    seq(|ds|, k requires 0 <= k < |ds| => (i: Input<V>) => ds[k](active, i))
  }

  /** The answer of a guard holding `active` when called on `i`. */
  function Guard<T, V>(active: set<nat>, delegate: GuardedDelegate<T, V>): Parser<T, V> {
    (i: Input<V>) =>
      if i.offset in active then None else delegate(active + {i.offset}, i)
  }

  /** `nonRecRef(f)` with its set of offsets being parsed. */
  class NonRecRef<T, V> {
    const delegate: GuardedDelegate<T, V>
    var offsets: set<nat>

    constructor (delegate: GuardedDelegate<T, V>)
      ensures this.delegate == delegate && offsets == {}
    {
      this.delegate := delegate;
      offsets := {};
    }

    /** Refuse an offset already held; otherwise hold it while delegating, then
        release it. The set is the same after the call as before. */
    method Parse(input: Input<V>) returns (r: Option<Output<T, V>>)
      modifies this
      ensures offsets == old(offsets)
      ensures r == Guard(old(offsets), delegate)(input)
    {
      if input.offset in offsets {
        return None;
      }
      offsets := offsets + {input.offset};
      var output := delegate(offsets, input);
      offsets := offsets - {input.offset};
      return output;
    }
  }

  /** A call at an offset the guard already holds is refused outright. */
  lemma GuardRefusesHeldOffset<T, V>(active: set<nat>, delegate: GuardedDelegate<T, V>, i: Input<V>)
    requires i.offset in active
    ensures Guard(active, delegate)(i) == None
  {
  }

  /** Otherwise the delegate's answer is passed on unchanged, and the delegate
      runs with the offset held. */
  lemma GuardPassesAnswerOn<T, V>(active: set<nat>, delegate: GuardedDelegate<T, V>, i: Input<V>)
    requires i.offset !in active
    ensures Guard(active, delegate)(i) == delegate(active + {i.offset}, i)
  {
  }

  /** Inside the delegate's run, re-entering the guard at the same offset yields
      no match, while re-entering at any other free offset still delegates: the
      guard is keyed by offset alone. */
  lemma ReentryKeyedByOffset<T, V>(
    active: set<nat>, delegate: GuardedDelegate<T, V>, i: Input<V>, j: Input<V>)
    requires i.offset !in active
    ensures j.offset == i.offset ==> Guard(active + {i.offset}, delegate)(j) == None
    ensures j.offset != i.offset && j.offset !in active ==>
      Guard(active + {i.offset}, delegate)(j) == delegate(active + {i.offset, j.offset}, j)
  {
    assert active + {i.offset} + {j.offset} == active + {i.offset, j.offset};
  }
}
