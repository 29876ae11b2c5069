/** The two primitives: a literal and an anchored pattern match. */
module Strings {
  import opened Core

  /** `s` occurs in `text` starting at `offset`. */
  predicate IsPrefixAt(s: string, text: string, offset: nat) {
    offset + |s| <= |text| && text[offset..offset + |s|] == s
  }

  /** `str(s)`: match the literal `s` at the current offset. */
  function Str<V>(s: string): Parser<string, V> {
    (i: Input<V>) =>
      var newOffset := i.offset + |s|;
      if newOffset > |i.text| then None
      else
        var token := i.text[i.offset..newOffset];
        if token == s then Some(Output(token, At(i, newOffset))) else None
  }

  /** Too little input left: no match. */
  lemma StrFailsWhenShort<V>(s: string, i: Input<V>)
    requires i.offset + |s| > |i.text|
    ensures Str<V>(s)(i) == None
  {
  }

  /** The characters at the offset differ from `s`: no match. */
  lemma StrFailsOnMismatch<V>(s: string, i: Input<V>)
    requires i.offset + |s| <= |i.text|
    requires i.text[i.offset..i.offset + |s|] != s
    ensures Str<V>(s)(i) == None
  {
  }

  /** `str(s)` matches exactly when `s` is a prefix of the rest of the text; the
      payload is `s` and only the offset moves, by |s|. */
  lemma StrMatchesIffPrefix<V>(s: string, i: Input<V>)
    ensures Str<V>(s)(i).Some? <==> IsPrefixAt(s, i.text, i.offset)
    ensures Str<V>(s)(i).Some? ==>
      Str<V>(s)(i) == Some(Output(s, i.(offset := i.offset + |s|)))
  {
  }

  /** A literal keeps the parser contract; a non-empty one always consumes. */
  lemma StrWellBehaved<V(!new)>(s: string)
    ensures WellBehaved(Str<V>(s))
    ensures |s| > 0 ==> Progressive(Str<V>(s))
  {
  }

  /** A match the pattern engine reports: the half-open range [start, end). */
  datatype Match = Match(start: nat, end: nat)

  /** The pattern engine's `find(text, from)`: the first match that starts at or
      after `from`, if any. The engine itself is not modelled. */
  type Finder = (string, nat) -> Option<Match>

  /** What the engine guarantees of a reported match: it starts no earlier than
      the search position and lies within the text. */
  ghost predicate FinderOk(find: Finder) {
    forall text: string, from: nat :: find(text, from).Some? ==>
      from <= find(text, from).value.start <= find(text, from).value.end <= |text|
  }

  /** `regex(pattern)`: succeed only if the first match found from the offset
      begins exactly at the offset. */
  function Regex<V>(find: Finder): Parser<string, V>
    requires FinderOk(find)
  {
    (i: Input<V>) =>
      match find(i.text, i.offset)
      case None => None
      case Some(m) =>
        if m.start != i.offset then None
        else Some(Output(i.text[m.start..m.end], At(i, m.end)))
  }

  /** The regex parser's outcome, stated through the engine's answer. */
  lemma RegexOutcome<V>(find: Finder, i: Input<V>)
    requires FinderOk(find)
    ensures Regex<V>(find)(i).Some? <==>
      find(i.text, i.offset).Some? && find(i.text, i.offset).value.start == i.offset
    ensures Regex<V>(find)(i).Some? ==>
      var e := find(i.text, i.offset).value.end;
      Regex<V>(find)(i) == Some(Output(i.text[i.offset..e], i.(offset := e)))
  {
  }

  /** The regex parser keeps the parser contract whatever the engine reports. */
  lemma RegexWellBehaved<V(!new)>(find: Finder)
    requires FinderOk(find)
    ensures WellBehaved(Regex<V>(find))
  {
  }

  /** The engine call for a one-character class such as `[0-9]`: the first
      position at or after `from` holding a character of the class. */
  function ClassFinder(inClass: char -> bool): Finder {
    (text: string, from: nat) => FirstInClass(inClass, text, from)
  }

  function FirstInClass(inClass: char -> bool, text: string, from: nat): (r: Option<Match>)
    ensures r.Some? ==> from <= r.value.start < |text| && r.value.end == r.value.start + 1
    ensures r.Some? ==> inClass(text[r.value.start])
    ensures r.Some? ==> forall k :: from <= k < r.value.start ==> !inClass(text[k])
    ensures r.None? ==> forall k :: from <= k < |text| ==> !inClass(text[k])
    decreases |text| - from
  {
    if from >= |text| then None
    else if inClass(text[from]) then Some(Match(from, from + 1))
    else FirstInClass(inClass, text, from + 1)
  }

  lemma ClassFinderOk(inClass: char -> bool)
    ensures FinderOk(ClassFinder(inClass))
  {
    forall text: string, from: nat | ClassFinder(inClass)(text, from).Some?
      ensures var m := ClassFinder(inClass)(text, from).value; from <= m.start <= m.end <= |text|
    {
      var r := FirstInClass(inClass, text, from);
      assert ClassFinder(inClass)(text, from) == r;
    }
  }
}
