/**
 * The value-level half of saving: merging freshly derived sessions into the
 * previous snapshot, the two output encodings (bare JSON for a `.json` path,
 * `library=` followed by the JSON otherwise), and reading the previous
 * snapshot back, falling back to an empty one when the file is missing,
 * blank, or does not parse as JSON.
 * JSON text is opaque here: parsing is a parameter and the text is a string.
 */
module Snapshots {
  import opened Wrappers
  import Books

  type BookId = string
  type Session = Books.Session

  /** The part of a previously saved book entry that the merge reads: its `reading_sessions`, if present. */
  datatype OldBook = OldBook(readingSessions: Option<seq<Session>>)

  /** A parsed previous snapshot: book id to its saved entry. */
  type OldSnapshot = map<BookId, OldBook>

  /** What one save writes before encoding: book id to its JSON form. */
  type NewSnapshot = map<BookId, Books.BookExport>

  // ---------------------------------------------------------------------------
  // Ruby's uniq

  predicate NoDuplicates<T(==)>(xs: seq<T>)
  {
    forall i, j :: 0 <= i < j < |xs| ==> xs[i] != xs[j]
  }

  /** `xs.uniq`: the first occurrence of each element, in order. */
  function Uniq<T(==)>(xs: seq<T>): seq<T>
  {
    if xs == [] then []
    else
      var u := Uniq(xs[..|xs| - 1]);
      if xs[|xs| - 1] in u then u else u + [xs[|xs| - 1]]
  }

  /** The elements of `b` that do not occur in `a`, in order. */
  function Without<T(==)>(b: seq<T>, a: seq<T>): seq<T>
  {
    if b == [] then []
    else Without(b[..|b| - 1], a) + (if b[|b| - 1] in a then [] else [b[|b| - 1]])
  }

  lemma {:induction false} UniqElements<T>(xs: seq<T>)
    ensures NoDuplicates(Uniq(xs))
    ensures forall x :: x in Uniq(xs) <==> x in xs
    decreases |xs|
  {
    if xs != [] {
      var init := xs[..|xs| - 1];
      UniqElements(init);
      assert xs == init + [xs[|xs| - 1]];
    }
  }

  /** A list without duplicates is its own `uniq`. */
  lemma {:induction false} UniqOfDistinct<T>(xs: seq<T>)
    requires NoDuplicates(xs)
    ensures Uniq(xs) == xs
    decreases |xs|
  {
    if xs != [] {
      var init := xs[..|xs| - 1];
      UniqOfDistinct(init);
      assert xs[|xs| - 1] !in init by {
        forall i | 0 <= i < |init| ensures init[i] != xs[|xs| - 1] {
          assert xs[i] == init[i];
        }
      }
    }
  }

  lemma UniqIdempotent<T>(xs: seq<T>)
    ensures Uniq(Uniq(xs)) == Uniq(xs)
  {
    UniqElements(xs);
    UniqOfDistinct(Uniq(xs));
  }

  /** `(a + b).uniq` is `a.uniq` followed by the new elements of `b`, deduplicated, in order. */
  lemma {:induction false} UniqAppend<T>(a: seq<T>, b: seq<T>)
    ensures Uniq(a + b) == Uniq(a) + Uniq(Without(b, a))
    decreases |b|
  {
    if b == [] {
      assert a + b == a;
    } else {
      var b', x := b[..|b| - 1], b[|b| - 1];
      assert (a + b)[..|a + b| - 1] == a + b';
      assert (a + b)[|a + b| - 1] == x;
      UniqAppend(a, b');
      UniqElements(a);
      UniqElements(Without(b', a));
      if x in a {
        assert x in Uniq(a);
        assert x in Uniq(a + b');
        assert Without(b, a) == Without(b', a) + [];
        assert Without(b', a) + [] == Without(b', a);
      } else {
        var w := Without(b', a);
        assert Without(b, a) == w + [x];
        assert (w + [x])[..|w + [x]| - 1] == w;
      }
    }
  }

  /** Appending elements that are already there changes nothing. */
  lemma UniqAbsorbs<T>(a: seq<T>, b: seq<T>)
    requires forall x :: x in b ==> x in a
    ensures Uniq(a + b) == Uniq(a)
  {
    UniqAppend(a, b);
    WithoutCovered(b, a);
    assert Uniq(a) + [] == Uniq(a);
  }

  lemma {:induction false} WithoutCovered<T>(b: seq<T>, a: seq<T>)
    requires forall x :: x in b ==> x in a
    ensures Without(b, a) == []
    decreases |b|
  {
    if b != [] {
      WithoutCovered(b[..|b| - 1], a);
    }
  }

  // ---------------------------------------------------------------------------
  // The merge

  /** The old entry for `id` has a `reading_sessions` list with at least one session. */
  predicate HasOldSessions(previous: OldSnapshot, id: BookId)
  {
    id in previous && previous[id].readingSessions.Some? && |previous[id].readingSessions.value| > 0
  }

  /** The sessions a book is saved with: `uniq(new ++ old)` when the old entry has sessions, else the new ones. */
  function MergedSessions(current: seq<Session>, previous: OldSnapshot, id: BookId): seq<Session>
  {
    if HasOldSessions(previous, id) then Uniq(current + previous[id].readingSessions.value) else current
  }

  /** The merge loop of `save`, as a value: every current book, its sessions merged with the previous ones. */
  function Merge(current: NewSnapshot, previous: OldSnapshot): NewSnapshot
  {
    map id | id in current :: current[id].(readingSessions := MergedSessions(current[id].readingSessions, previous, id))
  }

  /** The saved ids are exactly the current ones; a book only in the old snapshot is dropped. */
  lemma MergeKeys(current: NewSnapshot, previous: OldSnapshot)
    ensures Merge(current, previous).Keys == current.Keys
  {
  }

  /** Only the sessions can change; every other field of every book is kept. */
  lemma MergeKeepsOtherFields(current: NewSnapshot, previous: OldSnapshot, id: BookId)
    requires id in current
    ensures Merge(current, previous)[id].(readingSessions := current[id].readingSessions) == current[id]
  {
  }

  /** Without old sessions, the current ones are saved unchanged. */
  lemma MergeWithoutOldSessions(current: NewSnapshot, previous: OldSnapshot, id: BookId)
    requires id in current && !HasOldSessions(previous, id)
    ensures Merge(current, previous)[id] == current[id]
  {
  }

  /**
   * With old sessions, the saved list has no duplicates, holds exactly the
   * current and the previous sessions, and starts with the current ones
   * (deduplicated) in their order, followed by the previous ones not already there.
   */
  lemma MergeWithOldSessions(current: NewSnapshot, previous: OldSnapshot, id: BookId)
    requires id in current && HasOldSessions(previous, id)
    ensures var merged := Merge(current, previous)[id].readingSessions;
      var now, before := current[id].readingSessions, previous[id].readingSessions.value;
      && NoDuplicates(merged)
      && (forall s :: s in merged <==> s in now || s in before)
      && merged == Uniq(now) + Uniq(Without(before, now))
  {
    var now, before := current[id].readingSessions, previous[id].readingSessions.value;
    UniqElements(now + before);
    UniqAppend(now, before);
  }

  /** Saving again against the same previous snapshot changes nothing. */
  lemma MergeIdempotent(current: NewSnapshot, previous: OldSnapshot)
    ensures Merge(Merge(current, previous), previous) == Merge(current, previous)
  {
    var once := Merge(current, previous);
    forall id | id in current
      ensures Merge(once, previous)[id] == once[id]
    {
      if HasOldSessions(previous, id) {
        var both := current[id].readingSessions + previous[id].readingSessions.value;
        UniqElements(both);
        UniqAbsorbs(Uniq(both), previous[id].readingSessions.value);
        UniqIdempotent(both);
      }
    }
  }

  /** Old sessions [A, B] and current sessions [B, C] are saved as [B, C, A]. */
  lemma MergeExample(a: Session, b: Session, c: Session, x: Books.BookExport)
    requires a != b && b != c && a != c
    ensures var prior := map["id" := OldBook(Some([a, b]))];
      Merge(map["id" := x.(readingSessions := [b, c])], prior)["id"].readingSessions == [b, c, a]
  {
    var s := [b, c, a, b];
    assert [b, c] + [a, b] == s;
    assert s[..3] == [b, c, a] && s[..3][..2] == [b, c] && s[..3][..2][..1] == [b];
    assert [b][..0] == [];
    assert Uniq([b]) == [b];
    assert Uniq([b, c]) == [b, c];
    assert Uniq([b, c, a]) == [b, c, a];
    assert Uniq(s) == [b, c, a];
  }

  // ---------------------------------------------------------------------------
  // The merge as written: two representations of one session

  /**
   * A session as `save` holds it: built from events (a pair of `Time` values)
   * or parsed back from the previous file (a pair of strings). `uniq` compares
   * with `hash` and `eql?`, and a `Time` never `eql?` a `String`, so it never
   * equates the two forms, although both serialise to the same JSON.
   */
  datatype HeldSession = Live(session: Session) | Parsed(session: Session)

  function AsLive(sessions: seq<Session>): (r: seq<HeldSession>)
    ensures |r| == |sessions| && forall i :: 0 <= i < |r| ==> r[i] == Live(sessions[i])
  {
    seq(|sessions|, i requires 0 <= i < |sessions| => Live(sessions[i]))
  }

  function AsParsed(sessions: seq<Session>): (r: seq<HeldSession>)
    ensures |r| == |sessions| && forall i :: 0 <= i < |r| ==> r[i] == Parsed(sessions[i])
  {
    seq(|sessions|, i requires 0 <= i < |sessions| => Parsed(sessions[i]))
  }

  /** The sessions a held list serialises to. */
  function Serialised(held: seq<HeldSession>): (r: seq<Session>)
    ensures |r| == |held| && forall i :: 0 <= i < |r| ==> r[i] == held[i].session
  {
    seq(|held|, i requires 0 <= i < |held| => held[i].session)
  }

  /** The sessions `save` writes for a book with old sessions, as the code stands. */
  function MergedSessionsAsWritten(current: seq<Session>, previous: seq<Session>): seq<HeldSession>
  {
    Uniq(AsLive(current) + AsParsed(previous))
  }

  /**
   * Saving again after a save: when the old entry holds exactly the sessions
   * the book still has, the file written lists every one of them twice.
   */
  lemma SaveTwiceDuplicates(current: seq<Session>)
    requires current != [] && NoDuplicates(current)
    ensures Serialised(MergedSessionsAsWritten(current, current)) == current + current
    ensures !NoDuplicates(Serialised(MergedSessionsAsWritten(current, current)))
  {
    HeldDistinct(current);
    UniqOfDistinct(AsLive(current) + AsParsed(current));
    SerialisedBoth(current);
    var written := current + current;
    assert written[0] == written[|current|];
  }

  /** A live session never equals a parsed one. */
  lemma HeldDistinct(current: seq<Session>)
    requires NoDuplicates(current)
    ensures NoDuplicates(AsLive(current) + AsParsed(current))
  {
    var n, live, parsed := |current|, AsLive(current), AsParsed(current);
    forall i, j | 0 <= i < j < 2 * n ensures (live + parsed)[i] != (live + parsed)[j] {
      if j < n {
        assert (live + parsed)[i] == Live(current[i]) && (live + parsed)[j] == Live(current[j]);
      } else if n <= i {
        assert (live + parsed)[i] == Parsed(current[i - n]) && (live + parsed)[j] == Parsed(current[j - n]);
      }
    }
  }

  lemma SerialisedBoth(current: seq<Session>)
    ensures Serialised(AsLive(current) + AsParsed(current)) == current + current
  {
    var n, held := |current|, AsLive(current) + AsParsed(current);
    forall i | 0 <= i < 2 * n ensures Serialised(held)[i] == (current + current)[i] {
      if i < n {
        assert held[i] == Live(current[i]);
      } else {
        assert held[i] == Parsed(current[i - n]);
      }
    }
  }

  /** With one representation, as intended, the same save writes each session once. */
  lemma SaveTwiceOnce(current: seq<Session>, id: BookId)
    requires current != [] && NoDuplicates(current)
    ensures MergedSessions(current, map[id := OldBook(Some(current))], id) == current
  {
    UniqAbsorbs(current, current);
    UniqOfDistinct(current);
  }

  // ---------------------------------------------------------------------------
  // Output encoding and its inverse

  const JsonExtension: string := ".json"
  /** The assignment `format_output` writes before the JSON of a non-`.json` file. */
  const AssignmentName: string := "library"
  const AssignmentPrefix: string := AssignmentName + "="

  predicate EndsWith(s: string, suffix: string)
  {
    |suffix| <= |s| && s[|s| - |suffix|..] == suffix
  }

  /** `format_output(path, data)`, given the JSON text of `data`. */
  function FormatOutput(path: string, json: string): string
  {
    if EndsWith(path, JsonExtension) then json else AssignmentPrefix + json
  }

  /** The characters `\s` matches in a Ruby regular expression. */
  predicate IsRegexSpace(c: char)
  {
    c == ' ' || c == '\t' || c == '\n' || c == '\U{000B}' || c == '\U{000C}' || c == '\r'
  }

  /** The characters Ruby's `String#strip` removes: the regular-expression spaces and NUL. */
  predicate IsStripSpace(c: char)
  {
    IsRegexSpace(c) || c == '\0'
  }

  /** What is left after `\s*` matches greedily at the start. */
  function SkipRegexSpaces(s: string): (r: string)
    ensures |r| <= |s| && r == s[|s| - |r|..]
    ensures forall i :: 0 <= i < |s| - |r| ==> IsRegexSpace(s[i])
    ensures r == [] || !IsRegexSpace(r[0])
  {
    if s != [] && IsRegexSpace(s[0]) then SkipRegexSpaces(s[1..]) else s
  }

  function StripStart(s: string): (r: string)
    ensures |r| <= |s| && r == s[|s| - |r|..]
    ensures forall i :: 0 <= i < |s| - |r| ==> IsStripSpace(s[i])
    ensures r == [] || !IsStripSpace(r[0])
  {
    if s != [] && IsStripSpace(s[0]) then StripStart(s[1..]) else s
  }

  function StripEnd(s: string): (r: string)
    ensures |r| <= |s| && r == s[..|r|]
    ensures forall i :: |r| <= i < |s| ==> IsStripSpace(s[i])
    ensures r == [] || !IsStripSpace(r[|r| - 1])
  {
    if s != [] && IsStripSpace(s[|s| - 1]) then StripEnd(s[..|s| - 1]) else s
  }

  /** Ruby's `String#strip`. */
  function Strip(s: string): string
  {
    StripEnd(StripStart(s))
  }

  /** Removes a leading `library`, optional spaces, `=` and optional spaces, as the substitution in `normalize_existing_content` does. */
  function StripAssignment(raw: string): string
  {
    if |AssignmentName| <= |raw| && raw[..|AssignmentName|] == AssignmentName then
      var afterName := SkipRegexSpaces(raw[|AssignmentName|..]);
      if afterName != [] && afterName[0] == '=' then SkipRegexSpaces(afterName[1..]) else raw
    else raw
  }

  /** `normalize_existing_content(path, raw)`. */
  function NormalizeExistingContent(path: string, raw: string): string
  {
    if EndsWith(path, JsonExtension) then raw else StripAssignment(raw)
  }

  /**
   * `load_existing_data(path)`, given the file's content if it exists and a
   * JSON parser that answers None where it raises: a missing file, a file
   * that strips to nothing and one that does not parse all give {}.
   */
  function LoadExistingData(path: string, file: Option<string>, parse: string -> Option<OldSnapshot>): (r: OldSnapshot)
    ensures file.None? ==> r == map[]
    ensures file.Some? && Strip(file.value) == [] ==> r == map[]
    ensures file.Some? && Strip(file.value) != [] && parse(NormalizeExistingContent(path, Strip(file.value))).None? ==> r == map[]
    ensures file.Some? && Strip(file.value) != [] && parse(NormalizeExistingContent(path, Strip(file.value))).Some? ==>
      r == parse(NormalizeExistingContent(path, Strip(file.value))).value
    ensures r != map[] ==> file.Some? && parse(NormalizeExistingContent(path, Strip(file.value))) == Some(r)
  {
    if file.None? then map[]
    else
      var raw := Strip(file.value);
      if raw == [] then map[]
      else
        match parse(NormalizeExistingContent(path, raw))
        case None => map[]
        case Some(data) => data
  }

  /** `s` is a suffix of `t`. */
  predicate IsSuffix(s: string, t: string)
  {
    |s| <= |t| && s == t[|t| - |s|..]
  }

  lemma SuffixTransitive(a: string, b: string, c: string)
    requires IsSuffix(a, b) && IsSuffix(b, c)
    ensures IsSuffix(a, c)
  {
    assert c[|c| - |b|..][|b| - |a|..] == c[|c| - |a|..];
  }

  /** A `.json` path gets the bare JSON; any other path gets `library=` and then the JSON. */
  lemma FormatOutputShape(path: string, json: string)
    ensures EndsWith(FormatOutput(path, json), json)
    ensures EndsWith(path, JsonExtension) ==> FormatOutput(path, json) == json
    ensures !EndsWith(path, JsonExtension) ==>
      var r := FormatOutput(path, json);
      |r| == |AssignmentPrefix| + |json| && r[..|AssignmentPrefix|] == AssignmentPrefix
  {
    var r := FormatOutput(path, json);
    if !EndsWith(path, JsonExtension) {
      assert r[|r| - |json|..] == json;
    }
  }

  /**
   * `strip` removes at most a run of spaces at each end: the result starts and
   * ends with a non-space, and is empty exactly when the text is all spaces.
   */
  lemma StripShape(s: string)
    ensures |Strip(s)| <= |s|
    ensures Strip(s) == [] || (!IsStripSpace(Strip(s)[0]) && !IsStripSpace(Strip(s)[|Strip(s)| - 1]))
    ensures Strip(s) == [] <==> forall i :: 0 <= i < |s| ==> IsStripSpace(s[i])
  {
    var t := StripStart(s);
    if t != [] {
      assert t[|t| - 1] == s[|s| - 1];
      assert !IsStripSpace(s[|s| - |t|]);
    }
  }

  /**
   * Removing the assignment only ever drops a prefix, and drops one only when
   * the content starts with `library`; what is left then starts with a non-space.
   */
  lemma StripAssignmentSuffix(raw: string)
    ensures IsSuffix(StripAssignment(raw), raw)
    ensures StripAssignment(raw) != raw ==> |AssignmentName| < |raw| && raw[..|AssignmentName|] == AssignmentName
    ensures StripAssignment(raw) != raw ==> StripAssignment(raw) == [] || !IsRegexSpace(StripAssignment(raw)[0])
  {
    if |AssignmentName| <= |raw| && raw[..|AssignmentName|] == AssignmentName {
      var rest := raw[|AssignmentName|..];
      var afterName := SkipRegexSpaces(rest);
      if afterName != [] && afterName[0] == '=' {
        assert IsSuffix(rest, raw);
        assert IsSuffix(afterName, rest);
        assert IsSuffix(afterName[1..], afterName);
        SuffixTransitive(afterName, rest, raw);
        SuffixTransitive(afterName[1..], afterName, raw);
        SuffixTransitive(SkipRegexSpaces(afterName[1..]), afterName[1..], raw);
      }
    }
  }

  /** Normalising drops at most a prefix, and leaves the content of a `.json` path alone. */
  lemma NormalizeSuffix(path: string, raw: string)
    ensures IsSuffix(NormalizeExistingContent(path, raw), raw)
    ensures EndsWith(path, JsonExtension) ==> NormalizeExistingContent(path, raw) == raw
  {
    StripAssignmentSuffix(raw);
  }

  /** The prefix is stripped whatever spaces surround the `=`. */
  lemma StripAssignmentSpaces(spaces1: string, spaces2: string, json: string)
    requires forall i :: 0 <= i < |spaces1| ==> IsRegexSpace(spaces1[i])
    requires forall i :: 0 <= i < |spaces2| ==> IsRegexSpace(spaces2[i])
    requires json == [] || !IsRegexSpace(json[0])
    ensures StripAssignment(AssignmentName + (spaces1 + ("=" + (spaces2 + json)))) == json
  {
    var afterEq := spaces2 + json;
    var rest := spaces1 + ("=" + afterEq);
    var raw := AssignmentName + rest;
    assert raw[..|AssignmentName|] == AssignmentName;
    assert raw[|AssignmentName|..] == rest;
    SkipSpacesPrefix(spaces1, "=" + afterEq);
    assert ("=" + afterEq)[1..] == afterEq;
    SkipSpacesPrefix(spaces2, json);
  }

  lemma {:induction false} SkipSpacesPrefix(spaces: string, rest: string)
    requires forall i :: 0 <= i < |spaces| ==> IsRegexSpace(spaces[i])
    requires rest == [] || !IsRegexSpace(rest[0])
    ensures SkipRegexSpaces(spaces + rest) == rest
    decreases |spaces|
  {
    if spaces == [] {
      assert spaces + rest == rest;
    } else {
      assert (spaces + rest)[1..] == spaces[1..] + rest;
      SkipSpacesPrefix(spaces[1..], rest);
    }
  }

  /** Content that does not start with the assignment is left alone. */
  lemma StripAssignmentWithoutPrefix(raw: string)
    requires !(|AssignmentName| <= |raw| && raw[..|AssignmentName|] == AssignmentName)
    ensures StripAssignment(raw) == raw
  {
  }

  /**
   * `library` followed by spaces and then anything but `=` does not match the
   * pattern: the content is left unchanged.
   */
  lemma StripAssignmentWithoutEquals(spaces: string, rest: string)
    requires forall i :: 0 <= i < |spaces| ==> IsRegexSpace(spaces[i])
    requires rest == [] || (!IsRegexSpace(rest[0]) && rest[0] != '=')
    ensures StripAssignment(AssignmentName + (spaces + rest)) == AssignmentName + (spaces + rest)
  {
    var raw := AssignmentName + (spaces + rest);
    assert raw[..|AssignmentName|] == AssignmentName;
    assert raw[|AssignmentName|..] == spaces + rest;
    SkipSpacesPrefix(spaces, rest);
  }

  /** Normalising undoes the encoding, for JSON text that does not start with a space. */
  lemma NormalizeFormatOutput(path: string, json: string)
    requires json == [] || !IsRegexSpace(json[0])
    ensures NormalizeExistingContent(path, FormatOutput(path, json)) == json
  {
    if !EndsWith(path, JsonExtension) {
      var raw := AssignmentPrefix + json;
      var afterName := "=" + json;
      assert raw[..|AssignmentName|] == AssignmentName;
      assert raw[|AssignmentName|..] == afterName;
      assert SkipRegexSpaces(afterName) == afterName;
      assert afterName[1..] == json;
      assert SkipRegexSpaces(json) == json;
    }
  }

  /** `strip` leaves alone text that neither starts nor ends with a space. */
  lemma StripTrimmed(s: string)
    requires s != [] && !IsStripSpace(s[0]) && !IsStripSpace(s[|s| - 1])
    ensures Strip(s) == s
  {
  }

  /**
   * What `save` writes, `load_existing_data` reads back: for JSON text with no
   * surrounding spaces that parses to `data`, loading the written file gives `data`.
   */
  lemma LoadAfterSave(path: string, json: string, parse: string -> Option<OldSnapshot>, data: OldSnapshot)
    requires json != [] && !IsStripSpace(json[0]) && !IsStripSpace(json[|json| - 1])
    requires parse(json) == Some(data)
    ensures LoadExistingData(path, Some(FormatOutput(path, json)), parse) == data
  {
    var text := FormatOutput(path, json);
    assert text[|text| - 1] == json[|json| - 1];
    StripTrimmed(text);
    NormalizeFormatOutput(path, json);
  }
}
