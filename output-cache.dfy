/** Packrat memoisation: a map shared by several parsers, keyed by (parser,
    offset), an in-progress marker that makes a re-entrant call at the same
    offset fail, and `reset`, which empties the map when the outermost parse
    returns. A parser's identity, the first half of a key, is a number. */
module OutputCaching {
  import opened Core

  /** A cache key: the parser's identity and the offset it was called at. */
  type Key = (nat, nat)

  /** The cache contents. A stored None is either a no-match result or the
      in-progress marker: `OutputCache.get` does not tell them apart either. */
  type Entries<T, !V> = map<Key, Option<Output<T, V>>>

  /** A parser that shares the cache: its answer depends on the entries it
      finds, and the cached parsers it calls leave entries behind, so it also
      answers the entries as it leaves them. */
  type Stateful<!T, !V> = (Entries<T, V>, Input<V>) -> (Option<Output<T, V>>, Entries<T, V>)

  /** `OutputCache`: a mutable map from keys to optional outputs. */
  class OutputCache<T, V> {
    var entries: Entries<T, V>

    constructor ()
      ensures entries == map[]
    {
      entries := map[];
    }

    /** `contains`: whether anything, the marker included, is stored. */
    function Contains(key: Key): (r: bool)
      reads this
      ensures r <==> key in entries
    {
      key in entries
    }

    /** `get`: a Kotlin map lookup, which answers null for a missing key as
        well as for a stored null. */
    function Get(key: Key): (r: Option<Output<T, V>>)
      reads this
      ensures key in entries ==> r == entries[key]
      ensures key !in entries ==> r == None
    {
      if key in entries then entries[key] else None
    }

    /** `set`: store under one key, all other entries unchanged. */
    method Set(key: Key, output: Option<Output<T, V>>)
      modifies this
      ensures entries == old(entries)[key := output]
    {
      entries := entries[key := output];
    }

    /** `clear`: forget everything. */
    method Clear()
      modifies this
      ensures entries == map[]
    {
      entries := map[];
    }

    /** What the delegate of a cached parser did to the shared map: the
        cached parsers it called stored their own entries. */
    method Become(after: Entries<T, V>)
      modifies this
      ensures entries == after
    {
      entries := after;
    }
  }

  /** `get` does not distinguish a missing key from a stored no-match or
      in-progress marker; only `contains` does. */
  lemma GetConflatesMissingAndMarker<T, V>(entries: Entries<T, V>, key: Key)
    ensures (if key in entries then entries[key] else None) ==
      (if key in entries[key := None] then entries[key := None][key] else None)
      <==> key !in entries || entries[key].None?
  {
  }

  /** `parser.with(cache)` for the parser numbered `id`: on a hit, the stored
      answer and the cache as it was; on a miss, the delegate runs with the
      marker stored, and its answer is stored over whatever the key then held. */
  function With<T, V>(id: nat, delegate: Stateful<T, V>): Stateful<T, V> {
    (entries: Entries<T, V>, i: Input<V>) =>
      var key := (id, i.offset);
      if key in entries then (entries[key], entries)
      else
        var (out, after) := delegate(entries[key := None], i);
        (out, after[key := out])
  }

  /** A parser wrapped by `with(cache)`, sharing `cache` with the others. */
  class Cached<T, V> {
    const id: nat
    const delegate: Stateful<T, V>
    const cache: OutputCache<T, V>

    constructor (id: nat, delegate: Stateful<T, V>, cache: OutputCache<T, V>)
      ensures this.id == id && this.delegate == delegate && this.cache == cache
    {
      this.id := id;
      this.delegate := delegate;
      this.cache := cache;
    }

    method Parse(input: Input<V>) returns (r: Option<Output<T, V>>)
      modifies cache
      ensures (r, cache.entries) == With(id, delegate)(old(cache.entries), input)
    {
      var pair := (id, input.offset);
      if cache.Contains(pair) {
        return cache.Get(pair);
      }
      cache.Set(pair, None);
      var answer := delegate(cache.entries, input);
      cache.Become(answer.1);
      var output := answer.0;
      cache.Set(pair, output);
      return output;
    }
  }

  /** A hit answers what is stored and changes nothing, whatever the wrapped
      parser would have done: it is not called. */
  lemma HitSkipsDelegate<T, V>(
    id: nat, delegate: Stateful<T, V>, other: Stateful<T, V>, entries: Entries<T, V>, i: Input<V>)
    requires (id, i.offset) in entries
    ensures With(id, delegate)(entries, i) == (entries[(id, i.offset)], entries)
    ensures With(id, delegate)(entries, i) == With(id, other)(entries, i)
  {
  }

  /** On a miss the wrapped parser runs on the entries with the marker stored,
      and afterwards the key holds its answer, which is returned. */
  lemma MissStoresAnswer<T, V>(id: nat, delegate: Stateful<T, V>, entries: Entries<T, V>, i: Input<V>)
    requires (id, i.offset) !in entries
    ensures var (out, after) := delegate(entries[(id, i.offset) := None], i);
      With(id, delegate)(entries, i).0 == out &&
      With(id, delegate)(entries, i).1 == after[(id, i.offset) := out]
  {
  }

  /** Inside that run, calling the same cached parser at the same offset is
      a hit on the marker: no match, nothing changed. */
  lemma InProgressYieldsNoMatch<T, V>(
    id: nat, delegate: Stateful<T, V>, entries: Entries<T, V>, i: Input<V>, j: Input<V>)
    requires j.offset == i.offset
    ensures With(id, delegate)(entries[(id, i.offset) := None], j) ==
      (None, entries[(id, i.offset) := None])
  {
  }

  /** A wrapped parser that does not touch the cache: only its own key is
      written. */
  lemma OnlyOwnKeyWritten<T, V>(id: nat, p: Parser<T, V>, entries: Entries<T, V>, i: Input<V>)
    ensures var cached := With(id, (e: Entries<T, V>, j: Input<V>) => (p(j), e))(entries, i);
      (id, i.offset) in cached.1 &&
      forall k :: k != (id, i.offset) ==> (k in cached.1 <==> k in entries)
    ensures var cached := With(id, (e: Entries<T, V>, j: Input<V>) => (p(j), e))(entries, i);
      forall k | k in entries && k != (id, i.offset) :: cached.1[k] == entries[k]
  {
  }

  /** Caching is transparent when what is stored agrees with the wrapped
      parser: around a parser that does not touch the cache, with the entry for
      this offset (if any) holding the parser's own answer on this Input, the
      cached parser answers exactly what the parser answers, and the entry then
      holds that answer. The key leaves out the continuation and the left
      payload, so an entry stored from another Input at the same offset need not
      agree (SecondCallRepeatsFirst); and a re-entrant call sees the marker
      (InProgressYieldsNoMatch). */
  lemma CachingIsTransparent<T, V>(id: nat, p: Parser<T, V>, entries: Entries<T, V>, i: Input<V>)
    requires (id, i.offset) in entries ==> entries[(id, i.offset)] == p(i)
    ensures var cached := With(id, (e: Entries<T, V>, j: Input<V>) => (p(j), e))(entries, i);
      cached.0 == p(i) && (id, i.offset) in cached.1 && cached.1[(id, i.offset)] == p(i)
  {
  }

  /** A cached parser consulted twice at one offset answers the same both
      times, and the second time nothing changes. */
  lemma SecondCallRepeatsFirst<T, V>(id: nat, delegate: Stateful<T, V>, entries: Entries<T, V>, i: Input<V>, j: Input<V>)
    requires j.offset == i.offset
    ensures var (out, after) := With(id, delegate)(entries, i);
      With(id, delegate)(after, j) == (out, after)
  {
  }

  /** The delegate never forgets an entry. Every Stateful built from cached
      parsers and pure combinators is such, until a `reset` clears the map. */
  ghost predicate KeepsKeys<T(!new), V(!new)>(d: Stateful<T, V>) {
    forall e: Entries<T, V>, i: Input<V> :: e.Keys <= d(e, i).1.Keys
  }

  lemma WithKeepsKeys<T(!new), V(!new)>(id: nat, delegate: Stateful<T, V>)
    requires KeepsKeys(delegate)
    ensures KeepsKeys(With(id, delegate))
  {
    forall e: Entries<T, V>, i: Input<V> ensures e.Keys <= With(id, delegate)(e, i).1.Keys {
      var key := (id, i.offset);
      if key !in e {
        assert e.Keys <= e[key := None].Keys <= delegate(e[key := None], i).1.Keys;
      }
    }
  }

  /** A top-level parse that consults one cached parser at the inputs `calls`
      in turn, on a cache starting as `entries`: its answers, the final
      entries, and the offsets at which the wrapped parser actually ran. */
  function Consult<T, V>(id: nat, delegate: Stateful<T, V>, entries: Entries<T, V>, calls: seq<Input<V>>)
    : (Entries<T, V>, seq<nat>)
    decreases |calls|
  {
    if |calls| == 0 then (entries, [])
    else
      var i := calls[0];
      var (_, after) := With(id, delegate)(entries, i);
      var (final, ran) := Consult(id, delegate, after, calls[1..]);
      (final, (if (id, i.offset) in entries then [] else [i.offset]) + ran)
  }

  /** Pairwise distinct. */
  predicate NoRepeats(s: seq<nat>) {
    forall a, b :: 0 <= a < b < |s| ==> s[a] != s[b]
  }

  /** Over top-level calls made one after another, the wrapped parser runs at
      most once per offset: only at offsets it had no entry for, and never twice
      at the same one. Runs from inside other delegates are not counted. */
  lemma {:induction false} RunsAtMostOncePerOffset<T(!new), V(!new)>(
    id: nat, delegate: Stateful<T, V>, entries: Entries<T, V>, calls: seq<Input<V>>)
    requires KeepsKeys(delegate)
    ensures var ran := Consult(id, delegate, entries, calls).1;
      NoRepeats(ran) && forall k :: k in ran ==> (id, k) !in entries
    ensures forall key :: key in entries ==> key in Consult(id, delegate, entries, calls).0
    decreases |calls|
  {
    if |calls| > 0 {
      var i := calls[0];
      var key := (id, i.offset);
      var after := With(id, delegate)(entries, i).1;
      WithKeepsKeys(id, delegate);
      assert key in after && entries.Keys <= after.Keys;
      RunsAtMostOncePerOffset(id, delegate, after, calls[1..]);
      var ran := Consult(id, delegate, after, calls[1..]).1;
      var now := if key in entries then [] else [i.offset];
      assert Consult(id, delegate, entries, calls).1 == now + ran;
      forall k | k in ran ensures k != i.offset && (id, k) !in entries {
      }
    }
  }

  /** `parser.reset(cache)` with its call depth: the wrapped parser runs one
      level deeper, and the cache is emptied when the outermost call returns. */
  function Reset<T, V>(delegate: Stateful<T, V>, depth: nat): Stateful<T, V> {
    (entries: Entries<T, V>, i: Input<V>) =>
      var (out, after) := delegate(entries, i);
      (out, if depth == 0 then map[] else after)
  }

  /** The `reset` wrapper around a parser sharing `cache`. */
  class Resetting<T, V> {
    const delegate: Stateful<T, V>
    const cache: OutputCache<T, V>
    var depth: nat

    constructor (delegate: Stateful<T, V>, cache: OutputCache<T, V>)
      ensures this.delegate == delegate && this.cache == cache && depth == 0
    {
      this.delegate := delegate;
      this.cache := cache;
      depth := 0;
    }

    method Parse(input: Input<V>) returns (r: Option<Output<T, V>>)
      modifies this, cache
      ensures depth == old(depth)
      ensures (r, cache.entries) == Reset(delegate, old(depth))(old(cache.entries), input)
    {
      depth := depth + 1;
      var answer := delegate(cache.entries, input);
      cache.Become(answer.1);
      depth := depth - 1;
      if depth == 0 {
        cache.Clear();
      }
      return answer.0;
    }
  }

  /** The answer is always the wrapped parser's; the outermost call leaves an
      empty cache, a nested one leaves it as the wrapped parser left it. */
  lemma ResetClearsOnlyOutermost<T, V>(delegate: Stateful<T, V>, depth: nat, entries: Entries<T, V>, i: Input<V>)
    ensures Reset(delegate, depth)(entries, i).0 == delegate(entries, i).0
    ensures depth == 0 ==> Reset(delegate, depth)(entries, i).1 == map[]
    ensures depth > 0 ==> Reset(delegate, depth)(entries, i).1 == delegate(entries, i).1
  {
  }

  /** After an outermost `reset` call, the next top-level parse finds every
      cached parser missing and runs it afresh. */
  lemma ResetThenMiss<T, V>(delegate: Stateful<T, V>, entries: Entries<T, V>, i: Input<V>, id: nat, d: Stateful<T, V>, j: Input<V>)
    ensures var after := Reset(delegate, 0)(entries, i).1;
      With(id, d)(after, j) == (d(map[(id, j.offset) := None], j).0,
        d(map[(id, j.offset) := None], j).1[(id, j.offset) := d(map[(id, j.offset) := None], j).0])
  {
    var empty: Entries<T, V> := map[];
    assert empty[(id, j.offset) := None] == map[(id, j.offset) := None];
  }
}
