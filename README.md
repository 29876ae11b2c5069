# parser4k combinators in Dafny

A model of the runtime of parser4k, a Kotlin parser-combinator library.

A parser takes an `Input` and answers either no match or an `Output`. An `Input` is:

- the text;
- an offset;
- an optional inject continuation;
- a left payload (`NoLeft`, the right-recursion marker, or a value).

An `Output` is a payload and the `Input` to continue from. Here a parser is the
Dafny function type `Parser<T, V> = Input<V> -> Option<Output<T, V>>`. `V` is
the grammar's payload type, which Kotlin leaves as `Any?`.

Pure combinators are higher-order functions and are specified by lemmas:

- `str` and `regex`;
- `inOrder` for arities 1 to 8, both the flat and the recursive definition;
- `mapAsBinary` and `map`;
- `repeat`, `zeroOrMore`, `oneOrMore` and `optional`;
- `oneOf`, `oneOfLongest` and `or`;
- `parseWithInject` and `parseHidingInject`;
- `mapLeftAssoc`;
- the lexers of `Tokens` and `CommonParsers`;
- `parseWith`.

The code that changes state is imperative Dafny. Each method is proved equal to
a specification function, and the properties are proved about that function:

- the `repeat` loops of both revisions;
- the `leftAssoc` fold loop;
- `nonRecRef`/`leftRef`, with its set of active offsets;
- `oneOfWithPrecedence`, with its stack;
- `orWithPrecedence`, with its `index` field;
- `OutputCache`, `with(cache)` and `reset`, with its depth.

A stateful combinator's delegates are modelled as functions of that
combinator's state during the call, so a re-entrant call sees the pushed
alternative, the held offset, the current index or the in-progress marker.

The files come from different revisions of the library. They are modelled
against one `Input` record with these fields:

- `text`;
- `offset`;
- `inject`, the `injectPayload` of src/main/parser4k/core.kt;
- `leftPayload`.

Several definitions appear twice in the library, identical in text. Each is
modelled once:

- `str` and `regex` (string.kt and parsers.kt);
- `ref` (references.kt and parsers.kt);
- `leftRef`, which is `nonRecRef`;
- `parseWithInject` and `parseHidingInject` (left-associativity.kt and associativity.kt);
- `mapAsBinary` (in-order.kt and in-order-parser.kt);
- `joinedWith` (commonparsers/parsers.kt and CommonParsers.kt).

`or` is `oneOf`. `NestedPrecedence` and `ResetPrecedence` only delegate, so they
are modelled as a flag on the alternative they wrap.

## Model

| member | source | states |
|---|---|---|
| Core.FromText | src/main/parser4k/core.kt:3-7 | An Input built from a text alone is at offset 0, with no continuation and no left payload, and is valid. |
| Core.At | src/main/parser4k/string.kt:9 | `copy(offset = …)` moves only the offset: text, continuation and left payload carry over. |
| Core.ConsumesShrinksRemaining | src/main/parser4k/repeat.kt:7-12 | A match that consumes input leaves strictly less text to read, the measure by which loops over consuming parsers stop. |
| Strings.StrFailsWhenShort | src/main/parser4k/string.kt:5-6 | `str(s)` does not match when fewer than \|s\| characters remain. |
| Strings.StrFailsOnMismatch | src/main/parser4k/string.kt:8-9 | `str(s)` does not match when the \|s\| characters at the offset differ from s. |
| Strings.StrMatchesIffPrefix | src/main/parser4k/string.kt:4-10 | `str(s)` matches iff s occurs at the offset; the match yields s and moves only the offset, by \|s\|. |
| Strings.StrWellBehaved | src/main/parser4k/string.kt:3-12 | `str` keeps the parser contract; a non-empty literal always consumes. |
| Strings.RegexOutcome | src/main/parser4k/string.kt:17-21 | `regex` matches iff the engine's first match from the offset starts exactly at the offset; it then yields the matched text and continues at its end. |
| Strings.RegexWellBehaved | src/main/parser4k/string.kt:14-22 | `regex` keeps the parser contract whatever the engine reports within the text. |
| Strings.FirstInClass | src/main/parser4k/CommonParsers.kt:4-6 | The engine's search for a one-character class finds the first character of the class at or after the position, and none before it. |
| Strings.ClassFinderOk | src/main/parser4k/CommonParsers.kt:4-6 | That search reports matches within the text, starting no earlier than the search position. |
| References.RefDelegates | src/main/parser4k/references.kt:3-5 | `ref(f)` answers exactly what `f()` answers on the same input. |
| References.NonRecRef.constructor | src/main/parser4k/references.kt:8 | A new guard holds no offsets. |
| References.NonRecRef.Parse | src/main/parser4k/references.kt:10-15 | The offset set after a call equals the set before it. The answer is the guard's: refused at a held offset, otherwise the delegate's answer with the offset held. |
| References.GuardRefusesHeldOffset | src/main/parser4k/references.kt:11 | A call at an offset already held is no match. |
| References.GuardPassesAnswerOn | src/main/parser4k/references.kt:11-14 | Otherwise the delegate's answer is returned unchanged, and the delegate runs with the offset added. |
| References.ReentryKeyedByOffset | src/main/parser4k/references.kt:8-11 | Within that delegation, a nested call at the same offset is refused, and one at another free offset delegates. |
| Repeat.CollectStep | src/main/parser4k/repeat.kt:7-12 | One loop step: stop on a failure; after a match, stop when the cap is reached; otherwise continue from the match's next Input. |
| Repeat.RepeatParse | src/main/parser4k/repeat.kt:3-15 | The `while (true)` loop computes `Repeat(p, atLeast, atMost)`. |
| Repeat.CollectIsHaltedRun | src/main/parser4k/repeat.kt:7-12 | The collected matches form a run, in match order, each from the previous next Input. The run halts on a failure or at the cap and is never longer than a cap ≥ 1. |
| Repeat.HaltedRunIsCollect | src/main/parser4k/repeat.kt:7-12 | Conversely, any halted run within the cap is what the loop collects. |
| Repeat.RepeatCharacterized | src/main/parser4k/repeat.kt:7-13 | `repeat` yields (xs, j) iff xs is a halted run ending at j, within the cap, of at least `atLeast` matches. |
| Repeat.RepeatRespectsCap | src/main/parser4k/repeat.kt:11 | With atMost ≥ 1, at most atMost payloads are collected. |
| Repeat.RepeatMatchesIffEnough | src/main/parser4k/repeat.kt:13 | A match iff at least atLeast payloads were collected. |
| Repeat.RepeatNoMatch | src/main/parser4k/repeat.kt:13 | When the first attempt fails, the result is an empty list at the unchanged input if atLeast ≤ 0, and no match otherwise. |
| Repeat.OneOrMoreFailsIffFirstFails | src/main/parser4k/repeat.kt:19 | `oneOrMore` fails iff the first application fails. |
| Repeat.OptionalOutcome | src/main/parser4k/repeat.kt:21 | `optional` yields null at the unchanged input, or the one match's payload at its next Input. |
| Repeat.UncappedIsRepeatAll | src/main/parser4k/repeat.kt:11 | With a cap below 1, which is never reached, the loop collects what the uncapped loop of the older revision collects. |
| Repeat.RepeatWithoutCapIsOlderRepeat | src/main/parser4k/parsers.kt:24-35 | Over a consuming parser, the older uncapped `repeat` equals the newer one with a cap below 1. |
| Repeat.RunContinues | src/main/parser4k/repeat.kt:8-9 | A run over a contract-keeping parser ends at an Input that continues its start; over a consuming parser, a non-empty run consumes. |
| Repeat.RepeatKeepsContract | src/main/parser4k/repeat.kt:3-15 | `repeat` keeps the parser contract; with atLeast ≥ 1 over a consuming parser, it consumes. |
| OneOf.OneOfIsFirstSuccess | src/main/parser4k/one-of.kt:8-16 | `oneOf` is no match iff every alternative fails; otherwise it is the output of the first alternative that matches. |
| OneOf.OneOfKeepsContract | src/main/parser4k/one-of.kt:8-16 | Choice keeps its alternatives' parser contract and consumption. |
| OneOf.FirstSomeIsFirst | src/main/parser4k/one-of.kt:36-48 | The scan that returns the first success is no match iff every outcome fails; otherwise it is the first successful outcome. |
| OneOf.LongestUpToIsFirstLongest | src/main/parser4k/one-of.kt:20 | `mapNotNull` then `maxBy` over the first n alternatives: no match iff all fail, otherwise the first match reaching furthest. |
| OneOf.LongestExtends | src/main/parser4k/one-of.kt:20 | A match reaching strictly further becomes the longest. |
| OneOf.LongestKeeps | src/main/parser4k/one-of.kt:20 | A failure, or a match reaching no further, keeps the earlier longest, so ties go to the first. |
| OneOf.LongestFirst | src/main/parser4k/one-of.kt:20 | The first match after only failures is the longest so far. |
| OneOf.OneOfLongestOutcome | src/main/parser4k/one-of.kt:18-21 | At a free offset, every alternative runs with that offset held by the `nonRecursive` guard. `oneOfLongest` is no match iff no alternative matches; otherwise it is the match reaching furthest, the first such on ties. |
| OneOf.LeftRecursiveAlternativeFails | src/main/parser4k/one-of.kt:18-21 | An alternative that starts by calling the same `oneOfLongest` again at the same offset fails there, and adding it leaves the choice's answer unchanged: the guard refuses the left recursion. |
| OneOf.OneOfLongestRefusesReentry | src/main/parser4k/one-of.kt:18 | Under its `nonRecursive` guard, `oneOfLongest` does not match at an offset it is already parsing. |
| OneOf.IndexOf | src/main/parser4k/one-of.kt:30 | `indexOf` is -1 exactly for null or an absent alternative; otherwise it is a position holding that alternative. |
| OneOf.Find | src/main/parser4k/one-of.kt:38 | The position found holds the alternative, or is -1 iff the alternative is absent. |
| OneOf.FindIsFirst | src/main/parser4k/one-of.kt:30 | That position is the first occurrence. |
| OneOf.OneOfWithPrecedence.constructor | src/main/parser4k/one-of.kt:26 | A new choice has an empty stack. |
| OneOf.OneOfWithPrecedence.Parse | src/main/parser4k/one-of.kt:28-49 | The push/pop loop leaves the stack as it found it, and answers `Precedence`: the first success among the tried alternatives, each run on its entry Input. |
| OneOf.TryFromStep | src/main/parser4k/one-of.kt:36-47 | One iteration: return the attempt's match, or go on to the next alternative. |
| OneOf.TryFromIsFirstSome | src/main/parser4k/one-of.kt:36-48 | Trying the alternatives from k is taking the first success among their attempts. |
| OneOf.TryFromIsFirstSuccess | src/main/parser4k/one-of.kt:46-48 | No match iff every attempt from k fails; otherwise it is the first attempt that succeeds. |
| OneOf.PrecedenceIsFirstSuccess | src/main/parser4k/one-of.kt:31-48 | The choice is no match iff every tried alternative fails; otherwise it is the first tried alternative that succeeds. |
| OneOf.TryFromIgnoresEarlier | src/main/parser4k/one-of.kt:34 | Alternatives before the first one tried do not affect the answer. |
| OneOf.WhichAlternativesAreTried | src/main/parser4k/one-of.kt:31-34 | With an empty stack, or a nested alternative on top, every alternative is tried. With a plain alternative on top, the tries start at its position, and nothing before it matters. |
| OneOf.LeftPayloadRule | src/main/parser4k/one-of.kt:40-44 | On a fresh entry every alternative gets the left payload cleared. On a nested entry all but the previous alternative do. From a plain alternative, only that same alternative keeps the left payload. |
| InOrder.MapAsBinaryOutcome | src/main/parser4k/in-order.kt:5-11 | `mapAsBinary` fails iff the sequence fails; otherwise it yields f(first, third) at the sequence's next Input. |
| InOrder.InOrder2Chain | src/main/parser4k/in-order.kt:21-28 | `inOrder(p1, p2)` yields (a, b) at j iff p1 yields a at some m and p2 yields b at j from m. It fails iff p1 fails or p2 fails after it. |
| InOrder.InOrder2KeepsContract | src/main/parser4k/in-order.kt:21-28 | Sequencing keeps the parser contract. |
| InOrder.AbRejects | src/test/parser4k/InOrderParserTests.kt:9-16 | `inOrder(str("a"), str("b"))` rejects "", "a", "ab" at offset 1, "foo" and "aa". |
| InOrder.AbMatches | src/test/parser4k/InOrderParserTests.kt:19-21 | It parses "ab" to ("a", "b") at offset 2, and "_ab_" from offset 1 to offset 3. |
| InOrder.InOrderSeqSnoc | src/main/parser4k/associativity.kt:16 | The list-based `InOrder` of n+1 parsers is the first n, then the last one from their next Input, with its payload appended. |
| InOrder.InOrderSeqLength | src/main/parser4k/associativity.kt:16 | A match of the list-based `InOrder` has one payload per parser. |
| InOrder.SeqFromContinues | src/main/parser4k/associativity.kt:38-42 | Running contract-keeping parsers one after another ends at an Input that continues the start. |
| InOrder.SeqFromConsumes | src/main/parser4k/associativity.kt:38-42 | If one of those parsers consumes on every match, the sequence consumes. |
| InOrderParser.SameAsFlat1 | src/main/parser4k/in-order-parser.kt:11-17 | The recursive `inOrder(p1)` answers as the flat one. |
| InOrderParser.SameAsFlat2 | src/main/parser4k/in-order-parser.kt:19-26 | `inOrder` of 2 built as prefix then last, joined by `plus`, answers as the flat one: match, payload and next Input. |
| InOrderParser.SameAsFlat3 | src/main/parser4k/in-order-parser.kt:28-35 | The same for 3 parsers. |
| InOrderParser.SameAsFlat4 | src/main/parser4k/in-order-parser.kt:37-44 | The same for 4 parsers. |
| InOrderParser.SameAsFlat5 | src/main/parser4k/in-order-parser.kt:46-53 | The same for 5 parsers. |
| InOrderParser.SameAsFlat6 | src/main/parser4k/in-order-parser.kt:55-62 | The same for 6 parsers. |
| InOrderParser.SameAsFlat7 | src/main/parser4k/in-order-parser.kt:64-71 | The same for 7 parsers. |
| InOrderParser.SameAsFlat8 | src/main/parser4k/in-order-parser.kt:73-80 | The same for 8 parsers. |
| LeftAssociativity.ParseWithInjectOutcome | src/main/parser4k/left-associativity.kt:5-11 | `parseWithInject` fails iff the parser fails on the Input with the given continuation. Otherwise the payload is the parser's, with the continuation the parser returned applied exactly once (unchanged if it returned none), and the result has the parser's text, offset and left payload and no continuation. With the default argument the parser sees the caller's Input unchanged. |
| LeftAssociativity.ParseHidingInjectOutcome | src/main/parser4k/left-associativity.kt:13-16 | `parseHidingInject` runs the parser without a continuation, keeps its payload, and puts the caller's continuation back on the result. |
| LeftAssociativity.HidingThenInjectAppliesOnce | src/main/parser4k/left-associativity.kt:8-15 | `parseWithInject(parseHidingInject(p), f)` yields f of p's payload whenever p matches. |
| LeftAssociativity.WrappersKeepContract | src/main/parser4k/left-associativity.kt:5-16 | Both wrappers keep the parser contract. |
| Associativity.RoundConsumes | src/main/parser4k/associativity.kt:37-48 | A round over contract-keeping parsers, one of which (inner or last) consumes on every match, consumes input whenever it matches. |
| Associativity.SomePartConsumesFolds | src/main/parser4k/associativity.kt:36-49 | Such parsers meet the loop's stopping condition, under any transform: every matching round consumes. An example is a consuming operator with an optional last parser. |
| Associativity.ParseInner | src/main/parser4k/associativity.kt:38-42 | The inner-parser loop runs them one after another, collecting payloads, with no match as soon as one fails. |
| Associativity.LeftAssocParse | src/main/parser4k/associativity.kt:28-52 | The `leftAssoc` loop computes `LeftAssoc`. |
| Associativity.LeftAssocFirstFails | src/main/parser4k/associativity.kt:35 | No match if the first parser fails. |
| Associativity.LeftAssocNeedsOneRound | src/main/parser4k/associativity.kt:34-48 | A match needs text left after the first parser and one full round from there. |
| Associativity.RoundsStop | src/main/parser4k/associativity.kt:36-50 | Either no round ran and the previous answer stands, or the answer is the output of a round started within the text, and it consumed input. After it the text is used up or the next round fails. |
| Associativity.RoundsIsHaltedRun | src/main/parser4k/associativity.kt:36-50 | The loop runs rounds one after another, each from the value and Input the previous one produced, until the text is used up or a round fails. It answers the last round's output, or the answer it was given when no round completes. |
| Associativity.HaltedRunIsRounds | src/main/parser4k/associativity.kt:36-50 | Conversely, any such halted run of rounds is the one the loop runs, and its last output is the loop's answer. |
| Associativity.HaltedRunUnique | src/main/parser4k/associativity.kt:36-50 | Rounds are deterministic: two halted runs from the same value and Input are the same run. |
| Associativity.LeftAssocIsHaltedRun | src/main/parser4k/associativity.kt:28-52 | `leftAssoc` fails when the first parser fails. Otherwise its answer is the last output of the halted run of rounds from the first parser's output, and no match when that run is empty. With RoundFoldsLeft, each round's value is the transform of the previous value, the inner payloads and the last payload: a left fold. |
| Associativity.RoundFoldsLeft | src/main/parser4k/associativity.kt:43-47 | A round yields transform([accumulated] + inner payloads + [last payload]), without a continuation, when the last parser hands its continuation back. |
| Associativity.MapLeftAssocParser.constructor | src/main/parser4k/associativity.kt:6-8 | A new `mapLeftAssoc` parser's left guard holds no offsets. |
| Associativity.MapLeftAssocParser.ParseLeft | src/main/parser4k/associativity.kt:6 | The `nonRecRef` left parser restores its offsets and answers as the guard. |
| Associativity.MapLeftAssocParser.Parse | src/main/parser4k/associativity.kt:10-22 | `mapLeftAssoc` restores its guard's offsets and answers `MapLeftAssoc`. The middle and right parsers run seeing the guard's offsets as the caller left them, so a re-entry into the same `nonRecRef` through `ref { expr }` is modelled. |
| Associativity.MarkerRefuses | src/main/parser4k/associativity.kt:11 | Called with the right-recursion marker, it does not match. |
| Associativity.PresentLeftIsOperand | src/main/parser4k/associativity.kt:13-21 | A present left payload is the left operand without parsing. The result is transform(left :: mid ++ [right]), retried as the left payload of the left parser, falling back to itself. |
| Associativity.HeldOffsetRefuses | src/main/parser4k/associativity.kt:14 | Without a left payload, at an offset its guard holds, there is no match. |
| Associativity.MapLeftAssocKeepsContract | src/main/parser4k/associativity.kt:10-22 | Over contract-keeping parts, `mapLeftAssoc` keeps the parser contract. A match never changes the text, never moves backwards and stays within it; with a consuming right parser, a match consumes. |
| OutputCaching.OutputCache.constructor | src/main/parser4k/output-cache.kt:4 | A new cache is empty. |
| OutputCaching.OutputCache.Contains | src/main/parser4k/output-cache.kt:6 | `contains` is key membership, the marker included. |
| OutputCaching.OutputCache.Get | src/main/parser4k/output-cache.kt:8 | `get` is the stored value, or null for a missing key. |
| OutputCaching.OutputCache.Set | src/main/parser4k/output-cache.kt:10-12 | `set` updates one key and leaves every other entry as it was. |
| OutputCaching.OutputCache.Clear | src/main/parser4k/output-cache.kt:14 | `clear` empties the map. |
| OutputCaching.OutputCache.Become | src/main/parser4k/output-cache.kt:24 | The map becomes what the wrapped parser's run left behind: the entries the cached parsers it called stored. |
| OutputCaching.GetConflatesMissingAndMarker | src/main/parser4k/output-cache.kt:8 | `get` gives the same answer before and after storing the marker iff the key was missing or held null: only `contains` tells them apart. |
| OutputCaching.Cached.constructor | src/main/parser4k/output-cache.kt:17-19 | A cached parser shares the cache it is given and leaves it unchanged. |
| OutputCaching.Cached.Parse | src/main/parser4k/output-cache.kt:17-29 | `with(cache)` computes `With`: its answer and the cache contents afterwards. |
| OutputCaching.HitSkipsDelegate | src/main/parser4k/output-cache.kt:21 | With the key present, the stored value is returned and nothing changes, whatever the wrapped parser would do. |
| OutputCaching.MissStoresAnswer | src/main/parser4k/output-cache.kt:22-27 | On a miss, the wrapped parser runs with the marker stored; afterwards the key holds its answer, which is returned. |
| OutputCaching.InProgressYieldsNoMatch | src/main/parser4k/output-cache.kt:22 | During that run, the same cached parser at the same offset yields no match and changes nothing. |
| OutputCaching.OnlyOwnKeyWritten | src/main/parser4k/output-cache.kt:20-26 | Around a parser that does not touch the cache, only the key (parser, offset) is written. |
| OutputCaching.SecondCallRepeatsFirst | src/main/parser4k/output-cache.kt:20-21 | A second call at the same offset repeats the first answer and changes nothing. |
| OutputCaching.CachingIsTransparent | src/main/parser4k/output-cache.kt:17-29 | Around a parser that does not touch the cache, with any entry for the offset holding the parser's own answer on this Input, the cached parser answers exactly what the parser answers, and the entry then holds it. |
| OutputCaching.WithKeepsKeys | src/main/parser4k/output-cache.kt:20-27 | Caching never forgets an entry when the wrapped parser does not. |
| OutputCaching.RunsAtMostOncePerOffset | src/test/parser4k/OutputCacheTests.kt:15-20 | Over any sequence of top-level calls, the wrapped parser runs at most once per offset, and only at offsets with no entry. |
| OutputCaching.Resetting.constructor | src/main/parser4k/output-cache.kt:32 | A new `reset` wrapper has depth 0. |
| OutputCaching.Resetting.Parse | src/main/parser4k/output-cache.kt:34-40 | The depth after a call equals the depth before. The answer and the cache contents are those of `Reset`. |
| OutputCaching.ResetClearsOnlyOutermost | src/main/parser4k/output-cache.kt:35-38 | The answer is the wrapped parser's. The outermost call leaves an empty cache; a nested one leaves the cache as the wrapped parser left it. |
| OutputCaching.ResetThenMiss | src/main/parser4k/output-cache.kt:38 | After an outermost `reset` call, the next cached parse is a miss that runs the wrapped parser. |
| Util.Spaces | src/main/parser4k/util.kt:17 | `" ".repeat(n)` is n spaces. |
| Util.ParseWithOutcome | src/main/parser4k/util.kt:3-7 | `parseWith` starts at offset 0 with nothing injected. It returns the payload iff the parser matches up to the end of the text. It raises `NoMatchingParsers(text)` iff there is no match, and `InputIsNotConsumed` iff the match stops short. |
| Util.CaretUnderOffset | src/main/parser4k/util.kt:14-19 | The message is an empty line, then the text, then `offset` spaces and a caret under the stopping character. |
| Util.ParenExampleMessage | src/test/parser4k/calculator-tests.kt:163-168 | For "(1))" stopped at 3, the message is exactly the one the test expects. |
| Util.PlusExampleMessage | src/test/parser4k/calculator-tests.kt:170-175 | For "1 + 2 + " stopped at 5, the message is exactly the one the test expects. |
| Parsers.MapOutcome | src/main/parser4k/parsers.kt:89-94 | `map` passes failure through; on a match it applies f and keeps the next Input. |
| Parsers.MapKeepsContract | src/main/parser4k/parsers.kt:89-94 | `map` keeps the parser contract and consumption. |
| Parsers.RepeatAllParse | src/main/parser4k/parsers.kt:24-35 | The uncapped loop computes `RepeatAll`: every match until the first failure, a match iff there are at least atLeast. |
| Parsers.OrWithPrecedence.constructor | src/main/parser4k/parsers.kt:52 | `index` starts at 0. |
| Parsers.OrWithPrecedence.Parse | src/main/parser4k/parsers.kt:54-65 | `index` after a call equals its value before. The answer is the first success from position `index` on, each alternative run with the index it sets. |
| Parsers.OrTryFromIsFirstSome | src/main/parser4k/parsers.kt:55-63 | The `forEachIndexed` scan is taking the first success among the attempts. |
| Parsers.OrTryFromIsFirstSuccess | src/main/parser4k/parsers.kt:55-64 | No match iff every attempt from the start position fails; otherwise it is the first success. |
| Parsers.OrWithPrecedenceOutcome | src/main/parser4k/parsers.kt:55-64 | Only positions from `index` on are tried, and earlier alternatives do not matter. The answer is the first success, else no match. |
| Parsers.OrTryFromIgnoresEarlier | src/main/parser4k/parsers.kt:55 | Alternatives before the start position do not affect the answer. |
| Parsers.RelativeIndexForgetsPrecedence | src/main/parser4k/parsers.kt:55-57 | As written, a plain alternative at position 1, tried from index 1, runs with index 0. Two choices that agree from position 1 on then answer its re-entrant call differently. |
| Parsers.CorrectedIndexDuring | src/main/parser4k/parsers.kt:57 | The intended index during an attempt: 0 for `ResetPrecedence`, otherwise the alternative's absolute position. |
| Parsers.CorrectedTryFromIgnoresEarlier | src/main/parser4k/parsers.kt:55-64 | The corrected choice never consults an alternative before its start. |
| Parsers.CorrectedIndexKeepsPrecedence | src/main/parser4k/parsers.kt:55-57 | With the corrected index, a re-entrant call from a plain alternative never depends on the alternatives before it, which have lower precedence. Every alternative that call tries runs with an index no smaller, unless it is a `ResetPrecedence`, so this holds at every depth. |
| Tokens.ClassParserOutcome | src/main/parser4k/commonparsers/parsers.kt:7-9 | A one-character class parser matches iff the character at the offset is in its class, and yields that one character. |
| Tokens.CharClasses | src/main/parser4k/commonparsers/parsers.kt:7-9 | `whitespace`, `digit` and `letter` read exactly their classes. The identifier part reads letters, digits, '$' and '_'; the string body reads anything but '"' and line breaks. |
| Tokens.RunLength | src/main/parser4k/repeat.kt:7-12 | The length of the run of a class under a cap: never above the cap, within the text, and ended by a character outside the class unless the cap or the text ends it. |
| Tokens.RepeatClass | src/main/parser4k/repeat.kt:17-19 | `zeroOrMore` and `oneOrMore` of a one-character parser read the longest run of its class; `oneOrMore` fails on an empty run. |
| Tokens.IntegerIsDigitRun | src/main/parser4k/commonparsers/parsers.kt:11 | `integer` is the longest digit run joined into one string; no match without a leading digit. |
| Tokens.NumberEndSplits | src/main/parser4k/commonparsers/parsers.kt:13-16 | A number ends after its digits, or after "." and at least one more digit. |
| Tokens.FractionOutcome | src/main/parser4k/commonparsers/parsers.kt:13 | The fraction matches iff a "." is followed by a digit, and then reads "." and the digit run. |
| Tokens.NumberIsDigitsThenFraction | src/main/parser4k/commonparsers/parsers.kt:13-16 | `number` is the digit run, extended by a fraction only when a digit follows the "."; a "." without a digit is not consumed. |
| Tokens.IdentifierIsRun | src/main/parser4k/commonparsers/parsers.kt:18-19 | An identifier is a first character of one class, then the longest run of the other, joined as written. |
| Tokens.BodyIsClean | src/main/parser4k/commonparsers/parsers.kt:21 | A string body holds no raw '"' except as part of `\"`, and no line break. |
| Tokens.BodyIsLongest | src/main/parser4k/commonparsers/parsers.kt:21 | The body stops only where neither `\"` nor a plain character follows, or where the cap on the number of parts is reached. |
| Tokens.BodyPartIsEscapeOrPlain | src/main/parser4k/commonparsers/parsers.kt:21 | `oneOf(str("\\\""), noneOf(...))` reads the next body step: the escape first, else one plain character. |
| Tokens.RepeatBody | src/main/parser4k/commonparsers/parsers.kt:21 | Repeating that reads the whole body, kept exactly as written. |
| Tokens.StringIsQuotedBody | src/main/parser4k/commonparsers/parsers.kt:21-22 | `string` matches a quote, the body and a quote, and yields the body with `\"` kept as its two characters. |
| Tokens.TokenOutcome | src/main/parser4k/commonparsers/parsers.kt:25-26 | `token(s)` skips the run before s, requires s there, skips the run after it, and yields exactly s. |
| Tokens.TokensInteger | src/main/parser4k/commonparsers/parsers.kt:11 | `Tokens.integer` is the longest digit run, at least one digit. |
| Tokens.TokensNumber | src/main/parser4k/commonparsers/parsers.kt:13-16 | `Tokens.number` is digits, then a fraction only when a digit follows the ".". |
| Tokens.TokensIdentifier | src/main/parser4k/commonparsers/parsers.kt:18-19 | `Tokens.identifier` is an ASCII letter, then the longest run of letters, digits, '$' and '_'. |
| Tokens.TokensString | src/main/parser4k/commonparsers/parsers.kt:21-22 | `Tokens.string` is a quoted body of escapes and plain characters. |
| Tokens.TokensToken | src/main/parser4k/commonparsers/parsers.kt:25-26 | `token(s)` with whitespace skipped on both sides yields s. |
| Tokens.Seconds | src/main/parser4k/commonparsers/parsers.kt:34 | `tail.map { it.value2 }`: the second payload of every pair, in order. |
| Tokens.JoinedWithEmpty | src/main/parser4k/commonparsers/parsers.kt:28-32 | Without a first element, `joinedWith` yields an empty list and consumes nothing. |
| Tokens.JoinedWithElements | src/main/parser4k/commonparsers/parsers.kt:33-34 | With one, it yields the head, then the element of each separator-element pair in turn, separators dropped, up to the first pair that fails. |
| CommonParsers.ClassRegexReadsOne | src/main/parser4k/CommonParsers.kt:4-6 | `regex` with a one-character class pattern reads exactly one character of the class at the offset. |
| CommonParsers.CharClasses | src/main/parser4k/CommonParsers.kt:4-6 | The three regexes and `oneOf(letter, digit)` read their classes; the string body's regex reads anything but '"' and line breaks. |
| CommonParsers.OneCharacter | src/main/parser4k/CommonParsers.kt:4-6 | `whitespace`, `digit` and `letter` match iff the character is in their class. `letter` admits '$' and '_' and yields the one character. |
| CommonParsers.IntegerIsDigitRun | src/main/parser4k/CommonParsers.kt:8 | `integer` is the longest digit run, at least one digit. |
| CommonParsers.NumberIsDigitsThenFraction | src/main/parser4k/CommonParsers.kt:10-13 | `number` is digits, then a fraction only when a digit follows the ".". |
| CommonParsers.IdentifierIsRun | src/main/parser4k/CommonParsers.kt:15-16 | `identifier` is a letter, '$' or '_', then the longest run of letters and digits, '$' and '_' included. |
| CommonParsers.StringIsQuotedBody | src/main/parser4k/CommonParsers.kt:18-19 | `string` is a quoted body, with `\"` kept verbatim. |
| CommonParsers.TokenSkipsWhitespace | src/main/parser4k/CommonParsers.kt:21-22 | `token(s)` skips whitespace on both sides and yields s. |
| CommonParsers.SameAsTokens | src/main/parser4k/CommonParsers.kt:8-22 | `integer`, `number`, `string` and `token` answer exactly as their `Tokens` counterparts. |
| CommonParsers.IdentifiersDifferOnlyAtDollarOrUnderscore | src/main/parser4k/CommonParsers.kt:15-16 | The two `identifier`s agree iff the first character is not '$' or '_'. |
| PowerGrammar.Expr | src/test/parser4k/calculator-tests.kt:38-47 | The left-recursive grammar is well defined: it terminates because each call reads input or holds one more offset, and every match consumes. |
| PowerGrammar.IsLibraryGrammar | src/test/parser4k/calculator-tests.kt:39-40 | The grammar is the library's. `power` is `inOrder(nonRecRef { expr }, token("^"), ref { expr }).mapAsBinary(::Power)` over `Guard`, `InOrder3` and `MapAsBinary`, and `expr` is `oneOf(power, number)`. |
| PowerGrammar.LeftOperandIsNumber | src/test/parser4k/calculator-tests.kt:39 | Inside `nonRecRef`, the power is refused at the held offset, so a left operand is just a number. |
| PowerGrammar.PowerIsNumberThenExpr | src/test/parser4k/calculator-tests.kt:39-40 | A power is a number, "^", and a whole expression. |
| PowerGrammar.ExprIsRightNested | src/test/parser4k/calculator-tests.kt:43-46 | Everything the grammar parses nests to the right: "1 ^ 2 ^ 3" can only be (1 ^ (2 ^ 3)). |

## Left out

- `log.kt`: a tracing decorator that prints and does not change results.
- The Kotlin regex engine: it is a parameter, a `find(text, from)` function reporting matches within the text. It is made concrete only for the one-character classes of `CommonParsers`.
- Exceptions thrown by delegates. The source restores no state on that path, so guard sets, stacks, depth and index could be left changed; the model has no exceptions.
- Thread safety of the shared combinator state.
- The list-based `InOrder` class is not part of this model. Its evident behaviour, the fixed-arity sequencing over a list, is `InOrder.InOrderSeq`.
- `nonRecursive` (one-of.kt:18) is not part of this model. It is taken to be the offset guard of `nonRecRef`.
- `skipWrapper` is not part of this model. `token` is modelled as taking the middle payload.
- `oneOf(Char…)`, `oneOf(CharRange)` and `noneOf` are modelled as one-character class parsers.
- Payload identity: cache keys and `indexOf` use numeric identities, and `Any?` payloads are a type parameter.
- Kotlin strings count UTF-16 code units; a Dafny `string` counts Unicode scalar values. On text with characters outside the Basic Multilingual Plane, these all differ from the Kotlin code: offsets, `str`'s length check, `substring` and the caret column of `InputIsNotConsumed` (Util.CaretUnderOffset).
- OutputCaching.RunsAtMostOncePerOffset: covers only top-level calls made one after another. A wrapped parser can also run from inside another cached parser's delegate; such runs happen inside the delegate, which is a function here, and are not counted.
- OutputCaching.CachingIsTransparent: this lemma covers one call with agreeing entries, and caching is not transparent in general. The key (parser, offset) leaves out the continuation and the left payload, so a stored answer can be replayed for a different Input (SecondCallRepeatsFirst). The in-progress marker also makes a re-entrant call at the same offset fail where the bare parser might match (InProgressYieldsNoMatch).
- Kotlin's `Int` offsets: the model uses unbounded naturals, and `atMost` defaults to 2147483647.
- The `toString` of payloads in the `InputIsNotConsumed` message is a parameter.
- The example grammars' evaluators (BigDecimal arithmetic, the expression language, JSON) are not modelled. Of the test grammars, only the recursive `power` grammar is modelled, over any consuming number and "^" parsers.
- PowerGrammar.ExprIsRightNested: it does not evaluate the concrete texts "1 ^ 2 ^ 3" and "1 ^ 2 ^ 3 ^ 4". It proves that every parse nests to the right, which fixes the shape of both.
- Associativity.PresentLeftIsOperand: it states one `mapLeftAssoc` step with the retry. The concrete fold of "1 + 2 + 3 + 4" into (((1 + 2) + 3) + 4) is not evaluated.
- Parsers.RepeatAll: the older uncapped loop is modelled only over a parser that consumes on every match. Over any other parser, one that matches without consuming would loop forever in Kotlin.
- Associativity.LeftAssoc: with no parsers at all, Kotlin's `parsers.first()` throws `NoSuchElementException`; the model requires at least one parser (in `Folds`) and does not model the exception.
- Associativity.MapLeftAssoc: the left and right parsers are separate arguments, so the empty `InOrder`, on which `parsers.first()` and `parsers.last()` throw `NoSuchElementException`, cannot be expressed and is not modelled.
- Associativity.MapLeftAssoc: a transform that returns null puts null in the left payload (associativity.kt:20), and the retry then treats it as no left payload (line 14) and parses a fresh left operand. The model's `Left(v)` is always a present payload; the payload type has no null.
- Associativity.LeftAssoc: the model requires that every matching round consumes. SomePartConsumesFolds shows this holds when an inner or the last parser consumes. A round that could match without consuming loops in Kotlin until a round fails; that case is not modelled.
- Repeat.Repeat: the loop terminates when the cap is reachable or every match consumes input. A parser that matches without consuming under an unreachable cap would loop forever in Kotlin; the model requires that this does not happen.
- OneOf.OneOfWithPrecedence.Parse and Parsers.OrWithPrecedence.Parse: a delegate is modelled as a function of the stack or index it sees, not as arbitrary code that could change the combinator's state.

## Findings

| source | as written | input that shows it | evidently intended | confidence | as-written member | corrected member |
|---|---|---|---|---|---|---|
| src/main/parser4k/parsers.kt:55-57 | During an attempt `index` is set to `parserIndex`, the position within the sublist that starts at the old `index`, not within the whole list. | Two plain alternatives [A, B] entered with `index` = 1. B runs with `index` = 0, so a re-entrant call from inside B tries A again. A comes earlier, so it binds more loosely (as `plus` before `multiply`), and the choice means to exclude it there. | `index` should be the absolute position `index + parserIndex`, as the newer `oneOfWithPrecedence` computes with `indexOf`. | not executed | Parsers.RelativeIndexForgetsPrecedence | Parsers.CorrectedIndexDuring, Parsers.CorrectedTryFromIgnoresEarlier, Parsers.CorrectedIndexKeepsPrecedence |
