/** The parse primitive: the position a parser reads from, what a successful
    parse produces, and the one capability every parser has. */
module Core {

  datatype Option<T> = None | Some(value: T)

  /** The out-of-band value of an Input that the marker-based left-associative
      fold reads: nothing, the right-recursion marker, or a payload already parsed
      to the left. */
  datatype LeftPayload<V> = NoLeft | RightRecursionMarker | Left(value: V)

  /** The text being parsed, the current offset into it, an optional continuation
      to apply to the next payload of a left-associative fold, and the marker-based
      fold's left payload. V is the payload type the two protocol fields carry. */
  datatype Input<!V> = Input(
    text: string,
    offset: nat,
    inject: Option<V -> V>,
    leftPayload: LeftPayload<V>)

  /** A successful parse: its payload and the Input to continue from. */
  datatype Output<T, !V> = Output(payload: T, next: Input<V>)

  /** A parser answers None ("no match") or an Output. */
  type Parser<T, !V> = Input<V> -> Option<Output<T, V>>

  /** The Input a caller builds from a text alone: offset 0, no protocol state. */
  function FromText<V>(text: string): (i: Input<V>)
    ensures i.text == text && i.offset == 0
    ensures i.inject == None && i.leftPayload == NoLeft
    ensures Valid(i)
  {
    Input(text, 0, None, NoLeft)
  }

  /** The offset lies within the text. */
  predicate Valid<V>(i: Input<V>) {
    i.offset <= |i.text|
  }

  /** The input left to read, as a termination measure. */
  function Remaining<V>(i: Input<V>): nat {
    if i.offset <= |i.text| then |i.text| - i.offset else 0
  }

  /** `j` continues `i`: same text, an offset no smaller, still within the text. */
  predicate Continues<V>(i: Input<V>, j: Input<V>) {
    j.text == i.text && i.offset <= j.offset <= |j.text|
  }

  /** `j` continues `i` and has consumed at least one character. */
  predicate Consumes<V>(i: Input<V>, j: Input<V>) {
    j.text == i.text && i.offset < j.offset <= |j.text|
  }

  /** The contract every parser of the library keeps: on a valid input, a match
      never changes the text, never moves backwards and never leaves the text. */
  ghost predicate WellBehaved<T, V(!new)>(p: Parser<T, V>) {
    forall i :: Valid(i) && p(i).Some? ==> Continues(i, p(i).value.next)
  }

  /** A parser whose every match consumes input: the condition under which an
      unbounded loop over it stops. */
  ghost predicate Progressive<T, V(!new)>(p: Parser<T, V>) {
    forall i :: p(i).Some? ==> Consumes(i, p(i).value.next)
  }

  /** Same Input at another offset: Kotlin's `copy(offset = ...)`. */
  function At<V>(i: Input<V>, offset: nat): (j: Input<V>)
    ensures j.text == i.text && j.offset == offset
    ensures j.inject == i.inject && j.leftPayload == i.leftPayload
  {
    i.(offset := offset)
  }

  lemma ProgressiveIsWellBehaved<T, V(!new)>(p: Parser<T, V>)
    requires Progressive(p)
    ensures WellBehaved(p)
  {
  }

  lemma {:induction false} ConsumesShrinksRemaining<V>(i: Input<V>, j: Input<V>)
    requires Consumes(i, j)
    ensures Remaining(j) < Remaining(i)
  {
  }
}
