# Kobo reading statistics: a verified Dafny model

This project models the core of a small Ruby library that reads a Kobo
e-reader's SQLite database. The library has four layers:

- **`ExtraData`** decodes the binary payload of an event row. It is a
  length-prefixed, big-endian record holding a name and an array of
  timestamped entries.
- **`Event`** is built from a row. Page-turn events (type 46) keep only their
  count. Every other event decodes its payload into a list of epoch-second
  instants.
- **`Book`** pairs the session-start (1020) and session-end (1021) instants
  into reading sessions. It adds up the sessions longer than a minimum into a
  reading time, counts page turns, memoises both, and exports itself as a
  JSON-shaped record.
- **`Library`** loads the books and their events from the two tables, and has
  three outputs:
  - `to_json`, the JSON map of all books;
  - `to_s`, the console report;
  - `save`, which merges each book's sessions with the previous snapshot
    before writing, as bare JSON or as a `library=` assignment.

## Modules

| file | module | models |
|---|---|---|
| `wrappers.dfy` | `Wrappers` | `Option` and `Result` |
| `extra_data.dfy` | `ExtraData` | `lib/extra_data.rb`: `Decode`, a matching `Encode`, and the round trip between them |
| `event.dfy` | `Events` | `lib/event.rb`: `class Event` and the fallible construction `NewEvent` |
| `book.dfy` | `Books` | `lib/book.rb`: `class Book` with its memo fields, and the pure session arithmetic |
| `snapshot.dfy` | `Snapshots` | the pure part of `lib/library.rb`: session merge, `uniq`, output format, stripping, loading the old snapshot |
| `library.dfy` | `Libraries` | the stateful part of `lib/library.rb`: `class Library` with `load_library`, `to_json`, `to_s` and `save` |

## Modelling decisions

- **Bytes and integers.** A byte is a `nat` below 256, and a `uint32` a `nat`
  below 2^32. Decoding failure is a `Result` error, `EndOfInput`, standing for
  the IOError family that BinData raises on short input.
- **Entry layout.** Each entry is 9 bytes, with the size kept as the named
  constant `EntrySize`: a 4-byte tag, then 1 byte for the `bit1 :pad`
  field, then a 4-byte timestamp. BinData realigns to a byte boundary before
  the byte-aligned `uint32` that follows the bit field. The pad's value is the
  most significant bit of its byte.
- **Instants.** An instant is an integer number of epoch seconds: `Time.at`
  is modelled as the identity.
- **Event construction.** `Event.new` raises when its payload does not decode.
  It is modelled as `Events.NewEvent`, which returns either a fresh `Event` or
  the decoder's error.
- **Reading time.** This is integer tenths of an hour. The exact quotient
  `seconds / 3600`, rounded to one decimal, is rounded half away from zero, as
  Ruby's `Float#round` does.
- **Read status.** `READ_STATUS[@read_status]` follows Ruby's `Array#[]`, so
  negative codes count from the end: -1 is "Finished", -2 "Reading",
  -3 "Unread". Only codes below -3 or above 2 give `nil`.
- **Zip.** `zip` keeps one session per start instant. The end is `nil` where
  the ends run out, and surplus ends are dropped.
- **JSON and outside services.** JSON parsing and serialisation are function
  parameters (`parse`, `serialize`), and the snapshot is a map value. The old
  file's contents are a parameter: `None` when the file does not exist. SQL
  queries become filters over row sequences given in table order.
- **Behaviour of the code that a reader might not expect, modelled as it is:**
  - `save` writes the plain map from book id to book JSON, with no
    timestamp or other wrapper around it (lib/library.rb:62, 68);
  - `reading_sessions` is recomputed on every call; only the reading time
    and the page turns are memoised (lib/book.rb:17-23, 40-46);
  - negative read-status codes index the name array from the end, so they
    are not `nil` (lib/book.rb:14);
  - a start without a matching end gives a session with a `nil` end; the
    start is kept (lib/book.rb:42).
- **Session equality.** The merge used everywhere else compares old and new
  sessions by structural equality on one `Session` type, as evidently
  intended. The code as written compares two different representations; see
  "## Findings".

## Model

| member | source | states |
|---|---|---|
| `ExtraData.U32AtIsBigEndian` | lib/extra_data.rb:4 | a 32-bit field is the big-endian value of its four bytes |
| `ExtraData.WordBytes` | lib/extra_data.rb:4 | the encoding of a 32-bit value is four bytes |
| `ExtraData.WordBytesRoundTrip` | lib/extra_data.rb:4-7 | reading four encoded bytes at any position gives the value back |
| `ExtraData.ReadU32` | lib/extra_data.rb:6-7 | reading a word succeeds exactly when four bytes remain, and yields the big-endian value and the next offset |
| `ExtraData.ReadBytes` | lib/extra_data.rb:8 | reading n bytes succeeds exactly when n bytes remain, and yields those bytes |
| `ExtraData.ReadEntry` | lib/extra_data.rb:12-15 | an entry is read exactly when 9 bytes remain: tag, byte-aligned pad, timestamp |
| `ExtraData.ReadEntries` | lib/extra_data.rb:12-16 | n entries are read exactly when n*9 bytes remain, in input order, the k-th from offset off+9k |
| `ExtraData.Decode` | lib/extra_data.rb:3-16 | decoding succeeds exactly when the input is long enough for every declared length; it then yields the fields in layout order, a name of len_name+1 bytes and timestamps_length entries |
| `ExtraData.EncodedSize` | lib/extra_data.rb:6-16 | the size of a record is the header plus 9 bytes per entry |
| `ExtraData.EncodeEntry` | lib/extra_data.rb:13-15 | an encoded entry is 9 bytes |
| `ExtraData.EncodeEntries` | lib/extra_data.rb:12 | n encoded entries take n*9 bytes |
| `ExtraData.Encode` | lib/extra_data.rb:3-16 | the encoding of a well-formed record has exactly its required length |
| `ExtraData.U32AtShift` | lib/extra_data.rb:4 | a word read does not depend on the bytes around the block that holds it |
| `ExtraData.EntryAtShift` | lib/extra_data.rb:12-15 | an entry read does not depend on the bytes before the block that holds it |
| `ExtraData.U32AtAgree` | lib/extra_data.rb:4 | two inputs that agree on a prefix read the same word inside it |
| `ExtraData.EntryAtAgree` | lib/extra_data.rb:12-15 | two inputs that agree on a prefix read the same entry inside it |
| `ExtraData.EntriesTransfer` | lib/extra_data.rb:12-16 | the entries laid out in one input are those of any input sharing its required prefix |
| `ExtraData.LayoutTransfer` | lib/extra_data.rb:3-16 | a record laid out in one input is laid out in any input sharing its required prefix |
| `ExtraData.LayoutFits` | lib/extra_data.rb:3-16 | an input that holds the layout of a record is long enough to decode |
| `ExtraData.LayoutUnique` | lib/extra_data.rb:3-16 | an input lays out at most one record |
| `ExtraData.DecodeIgnoresTrailing` | lib/extra_data.rb:12-16 | bytes after the last entry do not change the result |
| `ExtraData.DecodeDependsOnPrefix` | lib/extra_data.rb:3-16 | decoding depends only on the required prefix |
| `ExtraData.LayoutPrefix` | lib/extra_data.rb:3-16 | a prefix that lays out a record is no shorter than the full record's required length |
| `ExtraData.TruncatedFails` | lib/extra_data.rb:3-16 | cutting a decodable input short of its required length makes decoding fail with EndOfInput, never a partial record |
| `ExtraData.EncodeEntryRoundTrip` | lib/extra_data.rb:13-15 | reading an encoded entry at any position gives the entry back |
| `ExtraData.EncodeEntriesFirst` | lib/extra_data.rb:12 | the first encoded entry reads back as the first entry |
| `ExtraData.EncodeEntriesAt` | lib/extra_data.rb:12 | the k-th encoded entry reads back at offset 9k |
| `ExtraData.Header` | lib/extra_data.rb:6-10 | the header of a record ends at the offset of its first entry |
| `ExtraData.HeaderFields` | lib/extra_data.rb:6-10 | each header field reads back at its layout offset, whatever follows |
| `ExtraData.EntriesAfterHeader` | lib/extra_data.rb:12-16 | after the header, the k-th entry reads back at its layout offset |
| `ExtraData.EncodeLayout` | lib/extra_data.rb:3-16 | the encoding of a well-formed record holds that record's layout |
| `ExtraData.DecodeEncode` | lib/extra_data.rb:3-16 | decoding the encoding of a well-formed record gives the same record back |
| `Events.Instants` | lib/event.rb:11-12 | one instant per entry, in order, each the entry's epoch-seconds value |
| `Events.EventTimestamps` | lib/event.rb:8-14 | type 46 gives no timestamps and never fails; any other type succeeds exactly when the payload decodes, giving its entries' timestamps in order |
| `Events.Event.Init` | lib/event.rb:6-8 | type, data and count are stored unchanged, with empty timestamps |
| `Events.Event.AppendInstants` | lib/event.rb:11-13 | the loop appends one instant per entry in order, keeps the ones already there, and changes no other field |
| `Events.Event.ToJson` | lib/event.rb:17-23 | the JSON form holds exactly the type, count and timestamps |
| `Events.NewEvent` | lib/event.rb:6-15 | construction fails exactly when the payload's decode fails, with that error; otherwise the new event holds the given type, data and count and the decoded timestamps |
| `Events.ToJsonFields` | lib/event.rb:17-23 | two events have the same JSON form exactly when their type, count and timestamps agree; the payload is not exposed |
| `Books.ReadStatusName` | lib/book.rb:5 | codes 0, 1 and 2 and their negative aliases name the three statuses; every other code gives nil |
| `Books.Zip` | lib/book.rb:42 | one session per start, the i-th start paired with the i-th end, or with no end when the ends run out |
| `Books.TenthsOfHours` | lib/book.rb:35 | the result is the number of tenths of an hour nearest the seconds, ties away from zero |
| `Books.CountedSessions` | lib/book.rb:28-33 | a session is counted exactly when it is in the input, has an end and lasts longer than the minimum |
| `Books.CountedSessionsMultiset` | lib/book.rb:28-33 | each counted session is kept as often as it occurs in the input; no other session is kept |
| `Books.SecondsReadNoneCounted` | lib/book.rb:28-33 | when no session is counted, the total is zero |
| `Books.SecondsReadAppend` | lib/book.rb:28-33 | the total over two lists of sessions is the sum of their totals |
| `Books.SecondsReadFront` | lib/book.rb:28-33 | the first session adds its duration exactly when it is counted |
| `Books.SecondsReadIsCountedTotal` | lib/book.rb:28-33 | the total is the sum of the durations of the counted sessions |
| `Books.SecondsReadSkipsOpenSession` | lib/book.rb:29 | a session without an end contributes nothing, wherever it stands |
| `Books.SecondsReadNonnegative` | lib/book.rb:30-31 | with a nonnegative minimum, the total is never negative |
| `Books.SecondsReadAntitone` | lib/book.rb:30 | raising the minimum never raises the total |
| `Books.TenthsZero` | lib/book.rb:35 | the rounded reading time is zero exactly when the total is within three minutes of zero |
| `Books.ReadingTimeExample` | lib/book.rb:25-38 | a 30-second and a two-hour session with a one-minute minimum give 2.0 hours |
| `Books.ZipShortEnds` | lib/book.rb:42 | with fewer ends than starts, the last start gets no end |
| `Books.ZipSurplusEnds` | lib/book.rb:42 | surplus ends are dropped |
| `Books.Book.constructor` | lib/book.rb:7-11 | the seven given fields are stored; events and highlights are empty, and the other attributes and both memos are unset |
| `Books.Book.ReadingSessions` | lib/book.rb:40-46 | no sessions unless both the 1020 and the 1021 event are present; otherwise the zip of their timestamps |
| `Books.Book.SetReadingTime` | lib/book.rb:3 | the writer sets the reading-time memo |
| `Books.Book.SetPageTurns` | lib/book.rb:3 | the writer sets the page-turn memo |
| `Books.Book.ReadingTime` | lib/book.rb:17-19 | returns the memo when set, ignoring the minimum; otherwise computes and memoises; afterwards every minimum gives that value, and the export changes only in its reading time |
| `Books.Book.CalcReadingTime` | lib/book.rb:25-38 | the result, also memoised, is the rounded tenths of the total duration of the sessions with an end and a duration strictly above the minimum |
| `Books.Book.PageTurns` | lib/book.rb:21-23 | returns the memo when set, otherwise computes and memoises; the export is unchanged |
| `Books.Book.CalcPageTurns` | lib/book.rb:48-56 | the count of the page-turn event if there is one, else 0, memoised |
| `Books.Book.ReadingTimeValue` | lib/book.rb:17-38 | the reading time is the memo when set; otherwise it is the rounded tenths of the total duration of the counted sessions |
| `Books.Book.PageTurnsValue` | lib/book.rb:21-56 | the page turns are the memo when set; otherwise the count of the page-turn event if there is one, else 0 |
| `Books.ExportFields` | lib/book.rb:58-74 | the export carries the stored attributes unchanged, and the status name, page turns, sessions and reading time with no minimum |
| `Books.Book.ToJson` | lib/book.rb:58-74 | the export through the derived accessors, equal to the book's export before and after the memoising calls |
| `Snapshots.UniqElements` | lib/library.rb:65 | `uniq` leaves no duplicates and keeps every element |
| `Snapshots.UniqOfDistinct` | lib/library.rb:65 | `uniq` of a list without duplicates is that list |
| `Snapshots.UniqIdempotent` | lib/library.rb:65 | `uniq` twice is `uniq` once |
| `Snapshots.UniqAppend` | lib/library.rb:65 | `uniq(a + b)` is `uniq(a)` followed by the first occurrences of the elements of b not in a |
| `Snapshots.UniqAbsorbs` | lib/library.rb:65 | appending elements already present does not change `uniq` |
| `Snapshots.WithoutCovered` | lib/library.rb:65 | removing the elements of a from a list covered by a leaves nothing |
| `Snapshots.MergeKeys` | lib/library.rb:62-68 | the saved ids are exactly the current books' ids |
| `Snapshots.MergeKeepsOtherFields` | lib/library.rb:64-66 | the merge changes only the sessions of a book |
| `Snapshots.MergeWithoutOldSessions` | lib/library.rb:65 | without non-empty old sessions, a book is saved unchanged |
| `Snapshots.MergeWithOldSessions` | lib/library.rb:65 | with old sessions, the saved list has no duplicates, holds every new and old session, and is the new ones followed by the old ones not already there, first occurrences first |
| `Snapshots.MergeIdempotent` | lib/library.rb:64-66 | merging again against the same old snapshot changes nothing |
| `Snapshots.MergeExample` | lib/library.rb:65 | new [b, c] against old [a, b] is saved as [b, c, a] |
| `Snapshots.SaveTwiceDuplicates` | lib/library.rb:65 | as written, when the old entry holds exactly the book's current sessions, every session is written twice |
| `Snapshots.SaveTwiceOnce` | lib/library.rb:65 | with one session representation, the same save writes the current sessions once |
| `Snapshots.FormatOutputShape` | lib/library.rb:90-94 | the output ends with the JSON; a `.json` path gets the bare JSON, any other path `library=` followed by the JSON |
| `Snapshots.StripShape` | lib/library.rb:76 | `strip` never lengthens; its result is empty or starts and ends with a non-space; it is empty exactly when the text is all spaces |
| `Snapshots.StripAssignmentSuffix` | lib/library.rb:87 | the substitution only drops a prefix, and only when the content starts with `library`; what remains then starts with a non-space |
| `Snapshots.NormalizeSuffix` | lib/library.rb:84-88 | normalising only drops a prefix, and leaves the content of a `.json` path unchanged |
| `Snapshots.SkipRegexSpaces` | lib/library.rb:87 | `\s*` skips the longest prefix of whitespace and stops at a non-space |
| `Snapshots.StripStart` | lib/library.rb:76 | the left half of `strip`: the longest prefix of whitespace or NUL is removed |
| `Snapshots.StripEnd` | lib/library.rb:76 | the right half of `strip`: the longest suffix of whitespace or NUL is removed |
| `Snapshots.LoadExistingData` | lib/library.rb:73-82 | an empty map when the file is missing, blank after stripping, or fails to parse; otherwise exactly the parse of the normalised stripped content |
| `Snapshots.StripAssignmentSpaces` | lib/library.rb:87 | `library`, spaces, `=`, spaces before the JSON are stripped whatever the spaces |
| `Snapshots.SkipSpacesPrefix` | lib/library.rb:87 | skipping spaces before a non-space stops exactly there |
| `Snapshots.StripAssignmentWithoutPrefix` | lib/library.rb:87 | content not starting with `library` is left unchanged |
| `Snapshots.StripAssignmentWithoutEquals` | lib/library.rb:87 | `library` followed by spaces and then anything but `=` is left unchanged |
| `Snapshots.NormalizeFormatOutput` | lib/library.rb:84-94 | normalising what `format_output` produced for a path gives the JSON back, for `.json` and other paths alike |
| `Snapshots.StripTrimmed` | lib/library.rb:76 | text without whitespace at either end is unchanged by `strip` |
| `Snapshots.LoadAfterSave` | lib/library.rb:73-94 | loading a file written by `format_output` for the same path gives back the parsed snapshot |
| `Libraries.BookQuery` | lib/library.rb:19 | the book rows are exactly the content rows of type 6 |
| `Libraries.EventQuery` | lib/library.rb:28 | a book's event rows are exactly its rows of types 46, 1020 and 1021 |
| `Libraries.BookQueryAppend` | lib/library.rb:19 | the book query keeps table order: over a concatenation it returns the first part's rows, then the second's |
| `Libraries.BookQueryMultiset` | lib/library.rb:19 | each row of type 6 is returned as often as it occurs in the table; no other row is returned |
| `Libraries.EventQueryAppend` | lib/library.rb:28 | the event query keeps table order in the same way |
| `Libraries.EventQueryMultiset` | lib/library.rb:28 | each of the book's rows of a loaded type is returned as often as it occurs; no other row is returned |
| `Libraries.RowEvent` | lib/library.rb:30 | a row's event builds exactly when its timestamps decode, and then holds the row's type, payload and count and the decoded timestamps; a page-turn row always builds, with no timestamps |
| `Libraries.LoadStepEffect` | lib/library.rb:30-34 | one row adds its type exactly when its event builds, and leaves every other type alone; a failing row changes nothing |
| `Libraries.LoadRowsSkipsFailure` | lib/library.rb:29-34 | a row whose event fails to build is skipped without affecting the other rows |
| `Libraries.LoadRowsLastWins` | lib/library.rb:30 | the event kept for a type is the one built from the last row of that type that builds |
| `Libraries.LoadRowsUntouched` | lib/library.rb:28-35 | a type none of whose rows builds keeps what it had before the loop |
| `Libraries.LoadRowsKeyedByType` | lib/library.rb:30 | every event is stored under its own type |
| `Libraries.LoadRowsKeys` | lib/library.rb:28-35 | every key after the loop was there before or is the type of a row whose event builds |
| `Libraries.LoadRowsKeepsKeys` | lib/library.rb:28-35 | the loop keeps every key it starts with and adds the type of every row whose event builds |
| `Libraries.LoadedTypesOnly` | lib/library.rb:28-30 | a loaded book holds only events of types 46, 1020 and 1021 |
| `Libraries.AttachEvents` | lib/library.rb:28-35 | the book's events after the loop are the keyed-by-type, failure-skipping fold of its rows over the events it had |
| `Libraries.ToMapKeys` | lib/library.rb:41 | the keys of `to_h` are exactly the ids |
| `Libraries.ToMapLastWins` | lib/library.rb:41 | for a repeated id, `to_h` keeps the last pair |
| `Libraries.ExportsAt` | lib/library.rb:41 | one pair per book, in order: its id and its export |
| `Libraries.ReportLists` | lib/library.rb:47-55 | every report line has a non-zero reading time and comes from a book; every book with a non-zero reading time is reported |
| `Libraries.ReportBook` | lib/library.rb:48-54 | a book with zero reading time gives no line; otherwise its title, author, reading time, status, page turns and percent read; its export is unchanged; the reading-time memo now holds the export's reading time, and the page-turn memo its page turns when a line is printed (otherwise it is left as it was) |
| `Libraries.MergeSnapshots` | lib/library.rb:64-66 | the in-place loop over the ids yields the merged snapshot |
| `Libraries.Library.Open` | lib/library.rb:10-15 | one fresh book per book row, in order, with no duplicates, each holding the events loaded from its own rows |
| `Libraries.Library.LoadLibrary` | lib/library.rb:17-38 | appends one fresh book per book row and gives every book the fold of its event rows |
| `Libraries.Library.AddBooks` | lib/library.rb:19-25 | each row adds a fresh book, built from that row, at the end; the books already there are kept |
| `Libraries.Library.AttachAll` | lib/library.rb:27-36 | every book's events become the fold of its own event rows |
| `Libraries.Library.ExportMap` | lib/library.rb:41 | the map is `to_h` of the books' id and export pairs; no book's export changes, and every book's reading-time and page-turn memos now hold its exported values |
| `Libraries.Library.ExportAll` | lib/library.rb:41 | the loop over the books yields `to_h` of their id and export pairs, leaving every export as it was and setting every book's two memos to its exported values |
| `Libraries.Library.ExportAt` | lib/library.rb:41 | one step of the export map: the map grows to `to_h` of one more pair, without changing any book's export; this book's two memos now hold its exported values and no other book's memos change |
| `Libraries.Library.ToJson` | lib/library.rb:40-42 | the serialised `to_h` of the book exports; no book's export changes, and every book's two memos now hold its exported values |
| `Libraries.Library.ReportAt` | lib/library.rb:47-55 | one step of the report: the lines grow to the report of one more book, without changing any book's export; this book's memos are set as by `Libraries.ReportBook` and no other book's memos change |
| `Libraries.Library.ReportAll` | lib/library.rb:47-55 | the loop over the books yields the report of their exports, leaving every export as it was; every book's memos are set as by `Libraries.ReportBook` |
| `Libraries.Library.ToS` | lib/library.rb:44-58 | the report of the books' exports, in order; no book's export changes; every book's reading-time memo holds its exported reading time, and its page-turn memo its exported page turns when it has a line (otherwise the memo is left as it was) |
| `Libraries.Library.Save` | lib/library.rb:60-69 | the text written is `format_output` of the export map merged with the old snapshot loaded from the same path; no book's export changes, and every book's two memos now hold its exported values |

## Left out

- The SQLite connection and queries (lib/library.rb:11, 19, 28): the rows are given as input sequences.
- Column values that SQLite may return as `nil` (a missing `ExtraData`, `EventCount` or title): rows carry plain values.
- JSON text: parsing and serialisation are function parameters, and the old snapshot is a map of sessions.
- A previous file whose JSON is not an object, or whose entry for a book is not one: depending on the value, the merge reads a substring or `nil`, or raises; here `parse` yields a map of entries or nothing.
- Snapshots.LoadExistingData: does not model the two exceptions that escape `load_existing_data` and so `save`, because `file: Option<string>` only says whether a file exists and what it holds. `File.read` raises on a path that exists but cannot be read, such as a directory (lib/library.rb:74-76). `String#strip` raises `ArgumentError` on content that is not valid UTF-8 (lib/library.rb:76). Only `JSON::ParserError` is rescued (lib/library.rb:80).
- Ruby `Time` and time zones: instants are integer epoch seconds.
- Floating-point hours: reading time is the exact quotient rounded to a tenth, with no binary rounding error.
- Books.TenthsOfHours: returns integer tenths of an hour rather than the float `round(1)` yields.
- The `rescue IOError` around `Book.new` (lib/library.rb:22-24): the constructor has no failing path, so the rescue never fires.
- The text layout of `to_s` and its `puts`: the report is a sequence of lines with the displayed fields.
- Printing the failing row and its message when an event does not build (lib/library.rb:32-33).
- Writing the file in `save`: the method returns the text that `File.write` would store.
- ISBN lookup, highlights, chapter counts, image ids and percent-read normalisation: only their attributes exist and stay unset.
- `frontend/upload.php`, `frontend/js/main.js` and `stats.rb`: HTTP upload plumbing, dashboard rendering and command-line handling.

## Findings

| source | as written | input that shows it | evidently intended | confidence | as-written member | corrected member |
|---|---|---|---|---|---|---|
| lib/library.rb:65 | `uniq` runs over the new sessions, pairs of `Time` values, followed by the old ones, pairs of strings parsed from the file; a `Time` is never `eql?` to a string, so no old session is recognised as a new one | a book whose sessions S were written by an earlier `save` and are unchanged: the next `save` writes S followed by S again | each session written once, so that saving again changes nothing | not executed; follows from `uniq` comparing elements with `hash` and `eql?`, and a `Time` never `eql?` a `String` | `Snapshots.SaveTwiceDuplicates` | `Snapshots.SaveTwiceOnce` |

The corrected definition is `Snapshots.MergedSessions`, which compares
sessions of one type; `Snapshots.Merge` and `Libraries.Library.Save` are built
on it. `Snapshots.SaveTwiceOnce`, `Snapshots.MergeWithOldSessions` and
`Snapshots.MergeIdempotent` hold for that corrected merge. Under the code as
written, the saved list would hold one copy from the file and one from the
database for every session that is already saved.
