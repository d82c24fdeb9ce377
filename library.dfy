/**
 * The library: the books read from the content table, each given the events
 * read for it from the event table, and the three ways out: the JSON map of
 * all books, the console report, and `save`, which merges with the previous
 * snapshot and encodes for the output path. The SQL queries are modelled as
 * filters over the table rows, given in table order.
 */
module Libraries {
  import opened Wrappers
  import ExtraData
  import Events
  import Books
  import Snapshots

  /** The content type of a book. */
  const BookContentType: int := 6

  /** The event types read for each book. */
  const LoadedEventTypes: set<int> := {Events.PageTurnType, Books.SessionStartType, Books.SessionEndType}

  datatype ContentRow = ContentRow(
    contentId: string,
    contentType: int,
    title: string,
    attribution: string,
    percentRead: int,
    readStatus: int,
    series: Option<string>,
    seriesNumber: Option<string>)

  datatype EventRow = EventRow(contentId: string, eventType: int, extraData: seq<ExtraData.Byte>, eventCount: int)

  /** The rows of the book query: the content rows of the book type, in table order. */
  function BookQuery(content: seq<ContentRow>): (r: seq<ContentRow>)
    ensures forall row :: row in r <==> row in content && row.contentType == BookContentType
  {
    if content == [] then []
    else
      var last := content[|content| - 1];
      BookQuery(content[..|content| - 1]) + (if last.contentType == BookContentType then [last] else [])
  }

  /** A row the event query for book `id` selects. */
  predicate Loaded(row: EventRow, id: string)
  {
    row.contentId == id && row.eventType in LoadedEventTypes
  }

  /** The rows of the event query for one book: its rows of the three loaded types, in table order. */
  function EventQuery(table: seq<EventRow>, id: string): (r: seq<EventRow>)
    ensures forall row :: row in r <==> row in table && row.contentId == id && row.eventType in LoadedEventTypes
  {
    if table == [] then []
    else
      var last := table[|table| - 1];
      EventQuery(table[..|table| - 1], id) + (if Loaded(last, id) then [last] else [])
  }

  lemma BookQuerySnoc(content: seq<ContentRow>, row: ContentRow)
    ensures BookQuery(content + [row]) == BookQuery(content) + (if row.contentType == BookContentType then [row] else [])
  {
    assert (content + [row])[..|content|] == content;
  }

  /** The query keeps table order: the rows of a concatenation are those of each part, in turn. */
  lemma {:induction false} BookQueryAppend(a: seq<ContentRow>, b: seq<ContentRow>)
    ensures BookQuery(a + b) == BookQuery(a) + BookQuery(b)
    decreases |b|
  {
    if b == [] {
      assert a + b == a;
    } else {
      var b', x := b[..|b| - 1], b[|b| - 1];
      assert b == b' + [x] && a + b == (a + b') + [x];
      BookQueryAppend(a, b');
      BookQuerySnoc(a + b', x);
      BookQuerySnoc(b', x);
    }
  }

  /** Each book row is returned as often as it occurs in the table, and no other row at all. */
  lemma {:induction false} BookQueryMultiset(content: seq<ContentRow>)
    ensures forall row ::
      multiset(BookQuery(content))[row] == if row.contentType == BookContentType then multiset(content)[row] else 0
    decreases |content|
  {
    if content != [] {
      var init := content[..|content| - 1];
      assert content == init + [content[|content| - 1]];
      BookQueryMultiset(init);
    }
  }

  lemma EventQuerySnoc(table: seq<EventRow>, row: EventRow, id: string)
    ensures EventQuery(table + [row], id) == EventQuery(table, id) + (if Loaded(row, id) then [row] else [])
  {
    assert (table + [row])[..|table|] == table;
  }

  /** The event query keeps table order too. */
  lemma {:induction false} EventQueryAppend(a: seq<EventRow>, b: seq<EventRow>, id: string)
    ensures EventQuery(a + b, id) == EventQuery(a, id) + EventQuery(b, id)
    decreases |b|
  {
    if b == [] {
      assert a + b == a;
    } else {
      var b', x := b[..|b| - 1], b[|b| - 1];
      assert b == b' + [x] && a + b == (a + b') + [x];
      EventQueryAppend(a, b', id);
      EventQuerySnoc(a + b', x, id);
      EventQuerySnoc(b', x, id);
    }
  }

  /** Each of the book's rows of a loaded type is returned as often as it occurs, and no other row at all. */
  lemma {:induction false} EventQueryMultiset(table: seq<EventRow>, id: string)
    ensures forall row ::
      multiset(EventQuery(table, id))[row] == if Loaded(row, id) then multiset(table)[row] else 0
    decreases |table|
  {
    if table != [] {
      var init := table[..|table| - 1];
      assert table == init + [table[|table| - 1]];
      EventQueryMultiset(init, id);
    }
  }

  // ---------------------------------------------------------------------------
  // The per-book event loop, as a value

  /** The event an event row constructs, if construction does not raise. */
  function RowEvent(row: EventRow): (r: Result<Events.EventView, ExtraData.Error>)
    ensures r.Ok? <==> Events.EventTimestamps(row.eventType, row.extraData).Ok?
    ensures r.Ok? ==> r.value.eventType == row.eventType && r.value.data == row.extraData && r.value.count == row.eventCount
    ensures row.eventType == Events.PageTurnType ==> r.Ok? && r.value.timestamps == []
    ensures r.Ok? ==> r.value.timestamps == Events.EventTimestamps(row.eventType, row.extraData).value
  {
    match Events.EventTimestamps(row.eventType, row.extraData)
    case Ok(ts) => Ok(Events.EventView(row.eventType, row.extraData, row.eventCount, ts))
    case Err(e) => Err(e)
  }

  /** One step of the loop: a constructed event replaces any earlier event of its type; a failure is skipped. */
  function LoadStep(events: map<int, Events.EventView>, row: EventRow): map<int, Events.EventView>
  {
    match RowEvent(row)
    case Ok(e) => events[row.eventType := e]
    case Err(_) => events
  }

  /** A step adds the row's type exactly when its event builds, and leaves every other type alone. */
  lemma LoadStepEffect(events: map<int, Events.EventView>, row: EventRow)
    ensures LoadStep(events, row).Keys == if RowEvent(row).Ok? then events.Keys + {row.eventType} else events.Keys
    ensures forall t :: t in events && t != row.eventType ==> LoadStep(events, row)[t] == events[t]
    ensures RowEvent(row).Err? ==> LoadStep(events, row) == events
  {
  }

  function LoadRows(events: map<int, Events.EventView>, rows: seq<EventRow>): map<int, Events.EventView>
  {
    if rows == [] then events else LoadStep(LoadRows(events, rows[..|rows| - 1]), rows[|rows| - 1])
  }

  lemma LoadRowsSnoc(events: map<int, Events.EventView>, rows: seq<EventRow>, row: EventRow)
    ensures LoadRows(events, rows + [row]) == LoadStep(LoadRows(events, rows), row)
  {
    assert (rows + [row])[..|rows|] == rows;
  }

  /** A row whose construction raises is skipped without affecting the others. */
  lemma {:induction false} LoadRowsSkipsFailure(events: map<int, Events.EventView>, a: seq<EventRow>, bad: EventRow, b: seq<EventRow>)
    requires RowEvent(bad).Err?
    ensures LoadRows(events, a + [bad] + b) == LoadRows(events, a + b)
    decreases |b|
  {
    if b == [] {
      assert a + [bad] + b == a + [bad] && a + b == a;
      LoadRowsSnoc(events, a, bad);
    } else {
      var b', x := b[..|b| - 1], b[|b| - 1];
      LoadRowsSkipsFailure(events, a, bad, b');
      assert b == b' + [x];
      assert a + [bad] + b == (a + [bad] + b') + [x];
      assert a + b == (a + b') + [x];
      LoadRowsSnoc(events, a + [bad] + b', x);
      LoadRowsSnoc(events, a + b', x);
    }
  }

  /** The event kept for a type comes from the last row of that type that constructs. */
  lemma {:induction false} LoadRowsLastWins(events: map<int, Events.EventView>, rows: seq<EventRow>, i: nat)
    requires i < |rows| && RowEvent(rows[i]).Ok?
    requires forall j :: i < j < |rows| && rows[j].eventType == rows[i].eventType ==> RowEvent(rows[j]).Err?
    ensures rows[i].eventType in LoadRows(events, rows)
    ensures LoadRows(events, rows)[rows[i].eventType] == RowEvent(rows[i]).value
    decreases |rows|
  {
    if i < |rows| - 1 {
      LoadRowsLastWins(events, rows[..|rows| - 1], i);
    }
  }

  /** A type no row of which constructs keeps whatever it had before the loop. */
  lemma {:induction false} LoadRowsUntouched(events: map<int, Events.EventView>, rows: seq<EventRow>, t: int)
    requires forall j :: 0 <= j < |rows| && rows[j].eventType == t ==> RowEvent(rows[j]).Err?
    ensures t in LoadRows(events, rows) <==> t in events
    ensures t in events ==> LoadRows(events, rows)[t] == events[t]
    decreases |rows|
  {
    if rows != [] {
      LoadRowsUntouched(events, rows[..|rows| - 1], t);
    }
  }

  /** Events stay keyed by their own type: at most one event per type, under that type. */
  lemma {:induction false} LoadRowsKeyedByType(events: map<int, Events.EventView>, rows: seq<EventRow>)
    requires forall t :: t in events ==> events[t].eventType == t
    ensures forall t :: t in LoadRows(events, rows) ==> LoadRows(events, rows)[t].eventType == t
    decreases |rows|
  {
    if rows != [] {
      LoadRowsKeyedByType(events, rows[..|rows| - 1]);
    }
  }

  /** Every key after the loop was there before it or is the type of a row whose event builds. */
  lemma {:induction false} LoadRowsKeys(events: map<int, Events.EventView>, rows: seq<EventRow>)
    ensures forall t :: t in LoadRows(events, rows) ==>
      t in events || exists j :: 0 <= j < |rows| && rows[j].eventType == t && RowEvent(rows[j]).Ok?
    decreases |rows|
  {
    if rows != [] {
      var init, last := rows[..|rows| - 1], rows[|rows| - 1];
      LoadRowsKeys(events, init);
      forall t | t in LoadRows(events, rows) && t !in events
        ensures exists j :: 0 <= j < |rows| && rows[j].eventType == t && RowEvent(rows[j]).Ok?
      {
        if t != last.eventType || RowEvent(last).Err? {
          assert t in LoadRows(events, init);
          var j :| 0 <= j < |init| && init[j].eventType == t && RowEvent(init[j]).Ok?;
          assert rows[j] == init[j];
        }
      }
    }
  }

  /** The loop keeps every key it starts with and adds the type of every row whose event builds. */
  lemma {:induction false} LoadRowsKeepsKeys(events: map<int, Events.EventView>, rows: seq<EventRow>)
    ensures events.Keys <= LoadRows(events, rows).Keys
    ensures forall j :: 0 <= j < |rows| && RowEvent(rows[j]).Ok? ==> rows[j].eventType in LoadRows(events, rows)
    decreases |rows|
  {
    if rows != [] {
      var init := rows[..|rows| - 1];
      LoadRowsKeepsKeys(events, init);
      forall j | 0 <= j < |init| && RowEvent(rows[j]).Ok?
        ensures rows[j].eventType in LoadRows(events, rows)
      {
        assert init[j] == rows[j];
      }
    }
  }

  /** A freshly loaded book holds only page-turn and session events. */
  lemma LoadedTypesOnly(table: seq<EventRow>, id: string)
    ensures forall t :: t in LoadRows(map[], EventQuery(table, id)) ==> t in LoadedEventTypes
  {
    var rows := EventQuery(table, id);
    LoadRowsKeys(map[], rows);
    forall t | t in LoadRows(map[], rows) ensures t in LoadedEventTypes {
      var j :| 0 <= j < |rows| && rows[j].eventType == t;
      assert rows[j] in rows;
    }
  }

  /** The values of a map of event objects. */
  ghost function Views(events: map<int, Events.Event>): map<int, Events.EventView>
    reads events.Values
  {
    map t | t in events :: events[t].View()
  }

  /** The inner loop of `load_library`: construct each row's event and key it by type, skipping failures. */
  method AttachEvents(book: Books.Book, rows: seq<EventRow>)
    modifies book`events
    ensures Views(book.events) == LoadRows(old(Views(book.events)), rows)
  {
    var j := 0;
    while j < |rows|
      invariant 0 <= j <= |rows|
      invariant Views(book.events) == LoadRows(old(Views(book.events)), rows[..j])
    {
      var row := rows[j];
      ghost var before := Views(book.events);
      var r := Events.NewEvent(row.eventType, row.extraData, row.eventCount);
      if r.Ok? {
        book.events := book.events[row.eventType := r.value];
        assert Views(book.events) == before[row.eventType := r.value.View()];
      }
      assert rows[..j + 1][..j] == rows[..j];
      j := j + 1;
    }
    assert rows[..j] == rows;
  }

  // ---------------------------------------------------------------------------
  // Exports

  /** `pairs.to_h`: a later pair for the same id replaces an earlier one. */
  function ToMap(pairs: seq<(string, Books.BookExport)>): map<string, Books.BookExport>
  {
    if pairs == [] then map[]
    else ToMap(pairs[..|pairs| - 1])[pairs[|pairs| - 1].0 := pairs[|pairs| - 1].1]
  }

  lemma ToMapSnoc(pairs: seq<(string, Books.BookExport)>, i: nat)
    requires i < |pairs|
    ensures ToMap(pairs[..i + 1]) == ToMap(pairs[..i])[pairs[i].0 := pairs[i].1]
  {
    assert pairs[..i + 1][..i] == pairs[..i];
  }

  /** The keys of `to_h` are exactly the ids of the pairs. */
  lemma {:induction false} ToMapKeys(pairs: seq<(string, Books.BookExport)>)
    ensures forall id :: id in ToMap(pairs) <==> exists i :: 0 <= i < |pairs| && pairs[i].0 == id
    decreases |pairs|
  {
    if pairs != [] {
      var init := pairs[..|pairs| - 1];
      ToMapKeys(init);
      forall id | id in ToMap(pairs) ensures exists i :: 0 <= i < |pairs| && pairs[i].0 == id {
        if id != pairs[|pairs| - 1].0 {
          assert id in ToMap(init);
          var i :| 0 <= i < |init| && init[i].0 == id;
          assert pairs[i] == init[i];
        }
      }
      forall id | exists i :: 0 <= i < |pairs| && pairs[i].0 == id ensures id in ToMap(pairs) {
        var i :| 0 <= i < |pairs| && pairs[i].0 == id;
        if i < |init| {
          assert init[i] == pairs[i];
        }
      }
    }
  }

  /** The value `to_h` keeps for an id is that of the last pair with that id. */
  lemma {:induction false} ToMapLastWins(pairs: seq<(string, Books.BookExport)>, i: nat)
    requires i < |pairs|
    requires forall j :: i < j < |pairs| ==> pairs[j].0 != pairs[i].0
    ensures pairs[i].0 in ToMap(pairs) && ToMap(pairs)[pairs[i].0] == pairs[i].1
    decreases |pairs|
  {
    if i < |pairs| - 1 {
      ToMapLastWins(pairs[..|pairs| - 1], i);
    }
  }

  /** The books and every event object they hold. */
  ghost function Footprint(bs: seq<Books.Book>): set<object>
    reads set b | b in bs
  {
    (set b | b in bs :: b as object) + (set b, e | b in bs && e in b.events.Values :: e as object)
  }

  /** Each book's id and its JSON form, in order. */
  ghost function Exports(bs: seq<Books.Book>): seq<(string, Books.BookExport)>
    reads Footprint(bs)
    decreases |bs|
  {
    if bs == [] then []
    else Exports(bs[..|bs| - 1]) + [(bs[|bs| - 1].id, bs[|bs| - 1].Export())]
  }

  lemma {:induction false} ExportsLength(bs: seq<Books.Book>)
    ensures |Exports(bs)| == |bs|
    decreases |bs|
  {
    if bs != [] {
      ExportsLength(bs[..|bs| - 1]);
    }
  }

  lemma {:induction false} ExportsAt(bs: seq<Books.Book>)
    ensures |Exports(bs)| == |bs|
    ensures forall k :: 0 <= k < |bs| ==> Exports(bs)[k] == (bs[k].id, bs[k].Export())
    decreases |bs|
  {
    ExportsLength(bs);
    if bs != [] {
      var init := bs[..|bs| - 1];
      ExportsAt(init);
      forall k | 0 <= k < |init|
        ensures Exports(bs)[k] == (bs[k].id, bs[k].Export())
      {
        assert Exports(bs)[k] == Exports(init)[k];
        assert bs[k] == init[k];
      }
    }
  }

  /** One line of the console report. */
  datatype ReportLine = ReportLine(title: string, author: string, readingTime: int, readStatus: Option<string>,
                                   pageTurns: int, percentRead: int)

  function Line(e: Books.BookExport): ReportLine
  {
    ReportLine(e.title, e.author, e.readingTime, e.readStatus, e.pageTurns, e.percentRead)
  }

  /** The report lines of the books, in order, skipping those whose reading time is zero. */
  function Report(pairs: seq<(string, Books.BookExport)>): seq<ReportLine>
  {
    if pairs == [] then []
    else
      var last := pairs[|pairs| - 1];
      Report(pairs[..|pairs| - 1]) + (if last.1.readingTime == 0 then [] else [Line(last.1)])
  }

  /** The report lists exactly the books whose reading time is not zero. */
  lemma {:induction false} ReportLists(pairs: seq<(string, Books.BookExport)>)
    ensures forall l :: l in Report(pairs) ==> l.readingTime != 0
    ensures forall p :: p in pairs && p.1.readingTime != 0 ==> Line(p.1) in Report(pairs)
    ensures forall l :: l in Report(pairs) ==> exists p :: p in pairs && Line(p.1) == l
    decreases |pairs|
  {
    if pairs != [] {
      var init := pairs[..|pairs| - 1];
      ReportLists(init);
      assert forall p :: p in init ==> p in pairs;
      assert pairs == init + [pairs[|pairs| - 1]];
    }
  }

  /** A book as `load_library` creates it from a content row, before its events are attached. */
  predicate FromRow(b: Books.Book, row: ContentRow)
    reads b`id, b`title, b`author, b`percentRead, b`readStatus, b`series, b`seriesNumber
    reads b`highlights, b`isbn13, b`imageId, b`chapters, b`readingTime, b`pageTurns
  {
    && b.id == row.contentId && b.title == row.title && b.author == row.attribution
    && b.percentRead == row.percentRead && b.readStatus == row.readStatus
    && b.series == row.series && b.seriesNumber == row.seriesNumber
    && b.highlights == [] && b.isbn13 == None && b.imageId == None && b.chapters == None
    && b.readingTime == None && b.pageTurns == None
  }

  /**
   * The memos a book's report line leaves behind, given its JSON form `e` and
   * its page-turn memo before: the reading time always, the page turns only
   * when the line is printed.
   */
  predicate ReportMemos(b: Books.Book, e: Books.BookExport, turns: Option<int>)
    reads b`readingTime, b`pageTurns
  {
    b.readingTime == Some(e.readingTime) && b.pageTurns == (if e.readingTime == 0 then turns else Some(e.pageTurns))
  }

  /** One book of `to_s`: its report line when its reading time is not zero; the accessors memoise. */
  method ReportBook(book: Books.Book, ghost e: Books.BookExport) returns (line: Option<ReportLine>)
    requires book.Export() == e
    modifies book`readingTime, book`pageTurns
    ensures book.Export() == e
    ensures line == if e.readingTime == 0 then None else Some(Line(e))
    ensures book.readingTime == Some(e.readingTime)
    ensures book.pageTurns == if e.readingTime == 0 then old(book.pageTurns) else Some(e.pageTurns)
  {
    var time := book.ReadingTime(0);
    if time == 0 {
      line := None;
    } else {
      var shown := book.ReadingTime(0);
      var status := book.ReadStatus();
      var turns := book.PageTurns();
      line := Some(ReportLine(book.title, book.author, shown, status, turns, book.percentRead));
    }
  }

  /** The merge loop of `save`: each current book whose old entry has sessions gets `uniq(new ++ old)`. */
  method MergeSnapshots(current: Snapshots.NewSnapshot, previous: Snapshots.OldSnapshot) returns (merged: Snapshots.NewSnapshot)
    ensures merged == Snapshots.Merge(current, previous)
  {
    merged := current;
    var pending := current.Keys;
    while pending != {}
      invariant pending <= current.Keys && merged.Keys == current.Keys
      invariant forall k :: k in current && k !in pending ==>
        merged[k] == current[k].(readingSessions := Snapshots.MergedSessions(current[k].readingSessions, previous, k))
      invariant forall k :: k in pending ==> merged[k] == current[k]
      decreases pending
    {
      var k :| k in pending;
      if Snapshots.HasOldSessions(previous, k) {
        var sessions := Snapshots.Uniq(merged[k].readingSessions + previous[k].readingSessions.value);
        merged := merged[k := merged[k].(readingSessions := sessions)];
      }
      pending := pending - {k};
    }
  }

  lemma ReportSnoc(pairs: seq<(string, Books.BookExport)>, i: nat)
    requires i < |pairs|
    ensures Report(pairs[..i + 1]) == Report(pairs[..i]) + (if pairs[i].1.readingTime == 0 then [] else [Line(pairs[i].1)])
  {
    assert pairs[..i + 1][..i] == pairs[..i];
  }

  // ---------------------------------------------------------------------------
  // The library

  class Library {
    var books: seq<Books.Book>

    /** No book object is listed twice. */
    ghost predicate Valid()
      reads this
    {
      forall i, j :: 0 <= i < j < |books| ==> books[i] != books[j]
    }

    /** `Library.new`: opens the database (here: takes its two tables) and loads it. */
    constructor Open(content: seq<ContentRow>, table: seq<EventRow>)
      ensures Valid()
      ensures |books| == |BookQuery(content)|
      ensures forall i :: 0 <= i < |books| ==> fresh(books[i]) && FromRow(books[i], BookQuery(content)[i])
      ensures forall i :: 0 <= i < |books| ==>
        Views(books[i].events) == LoadRows(map[], EventQuery(table, books[i].id))
    {
      books := [];
      new;
      LoadLibrary(content, table);
    }

    /** `load_library`: appends a book per book row, then attaches each book's events. */
    method LoadLibrary(content: seq<ContentRow>, table: seq<EventRow>)
      requires Valid()
      modifies this`books, (set b | b in books)`events
      ensures Valid()
      ensures |books| == |old(books)| + |BookQuery(content)| && books[..|old(books)|] == old(books)
      ensures forall i :: |old(books)| <= i < |books| ==>
        fresh(books[i]) && FromRow(books[i], BookQuery(content)[i - |old(books)|])
      ensures forall i :: 0 <= i < |old(books)| ==>
        Views(books[i].events) == LoadRows(old(Views(books[i].events)), EventQuery(table, books[i].id))
      ensures forall i :: |old(books)| <= i < |books| ==>
        Views(books[i].events) == LoadRows(map[], EventQuery(table, books[i].id))
    {
      AddBooks(BookQuery(content));
      AttachAll(table);
    }

    /** The first loop of `load_library`: a fresh book, without events, per row. */
    method AddBooks(rows: seq<ContentRow>)
      requires Valid()
      modifies this`books
      ensures Valid()
      ensures |books| == |old(books)| + |rows| && books[..|old(books)|] == old(books)
      ensures forall k :: |old(books)| <= k < |books| ==>
        fresh(books[k]) && FromRow(books[k], rows[k - |old(books)|]) && books[k].events == map[]
    {
      var i := 0;
      while i < |rows|
        invariant 0 <= i <= |rows|
        invariant |books| == |old(books)| + i && books[..|old(books)|] == old(books)
        invariant forall k :: |old(books)| <= k < |books| ==>
          fresh(books[k]) && FromRow(books[k], rows[k - |old(books)|]) && books[k].events == map[]
        invariant Valid()
      {
        var row := rows[i];
        var b := new Books.Book(row.contentId, row.title, row.attribution, row.percentRead, row.readStatus,
                                row.series, row.seriesNumber);
        books := books + [b];
        i := i + 1;
      }
    }

    /** The second loop of `load_library`: every book gets the events of its own rows. */
    method AttachAll(table: seq<EventRow>)
      requires Valid()
      modifies (set b | b in books)`events
      ensures forall k :: 0 <= k < |books| ==>
        Views(books[k].events) == LoadRows(old(Views(books[k].events)), EventQuery(table, books[k].id))
    {
      var j := 0;
      while j < |books|
        invariant 0 <= j <= |books|
        invariant forall k :: 0 <= k < j ==>
          Views(books[k].events) == LoadRows(old(Views(books[k].events)), EventQuery(table, books[k].id))
        invariant forall k :: j <= k < |books| ==> Views(books[k].events) == old(Views(books[k].events))
      {
        var book := books[j];
        label before:
        AttachEvents(book, EventQuery(table, book.id));
        forall k | 0 <= k < |books| && k != j
          ensures Views(books[k].events) == old@before(Views(books[k].events))
        {
          assert books[k] != book;
        }
        j := j + 1;
      }
    }

    /** `@books.map { |x| [x.id, x.to_json] }.to_h`, shared by `to_json` and `save`. */
    method ExportMap() returns (m: Snapshots.NewSnapshot)
      requires Valid()
      modifies (set b | b in books)`readingTime, (set b | b in books)`pageTurns
      ensures m == ToMap(old(Exports(books)))
      ensures forall k :: 0 <= k < |books| ==> books[k].Export() == old(books[k].Export())
      ensures forall k :: 0 <= k < |books| ==>
        books[k].readingTime == Some(old(books[k].Export()).readingTime) && books[k].pageTurns == Some(old(books[k].Export()).pageTurns)
    {
      ghost var pairs := Exports(books);
      ExportsAt(books);
      m := ExportAll(pairs);
    }

    /** The loop of the export map, over the books whose JSON forms are `pairs`. */
    method ExportAll(ghost pairs: seq<(string, Books.BookExport)>) returns (m: Snapshots.NewSnapshot)
      requires Valid() && |pairs| == |books|
      requires forall k :: 0 <= k < |books| ==> pairs[k].0 == books[k].id && books[k].Export() == pairs[k].1
      modifies (set b | b in books)`readingTime, (set b | b in books)`pageTurns
      ensures m == ToMap(pairs)
      ensures forall k :: 0 <= k < |books| ==> books[k].Export() == pairs[k].1
      ensures forall k :: 0 <= k < |books| ==>
        books[k].readingTime == Some(pairs[k].1.readingTime) && books[k].pageTurns == Some(pairs[k].1.pageTurns)
    {
      m := map[];
      var i := 0;
      while i < |books|
        invariant 0 <= i <= |books|
        invariant m == ToMap(pairs[..i])
        invariant forall k :: 0 <= k < |books| ==> books[k].Export() == pairs[k].1
        invariant forall k :: 0 <= k < i ==>
          books[k].readingTime == Some(pairs[k].1.readingTime) && books[k].pageTurns == Some(pairs[k].1.pageTurns)
      {
        m := ExportAt(books[i], i, pairs, m);
        i := i + 1;
      }
      assert pairs[..i] == pairs;
    }

    /** The loop body of the export map: adds the i-th book's JSON form; every book's form is left as it was. */
    method ExportAt(book: Books.Book, i: nat, ghost pairs: seq<(string, Books.BookExport)>, m: Snapshots.NewSnapshot)
      returns (m': Snapshots.NewSnapshot)
      requires Valid() && i < |books| == |pairs| && books[i] == book
      requires forall k :: 0 <= k < |books| ==> pairs[k].0 == books[k].id && books[k].Export() == pairs[k].1
      requires m == ToMap(pairs[..i])
      modifies book`readingTime, book`pageTurns
      ensures forall k :: 0 <= k < |books| ==> books[k].Export() == pairs[k].1
      ensures m' == ToMap(pairs[..i + 1])
      ensures book.readingTime == Some(pairs[i].1.readingTime) && book.pageTurns == Some(pairs[i].1.pageTurns)
      ensures forall k :: 0 <= k < |books| && k != i ==>
        books[k].readingTime == old(books[k].readingTime) && books[k].pageTurns == old(books[k].pageTurns)
    {
      label before:
      var e := book.ToJson();
      forall k | 0 <= k < |books| && k != i
        ensures books[k].Export() == old@before(books[k].Export())
        ensures books[k].readingTime == old@before(books[k].readingTime)
        ensures books[k].pageTurns == old@before(books[k].pageTurns)
      {
        assert books[k] != book;
      }
      ToMapSnoc(pairs, i);
      m' := m[book.id := e];
    }

    /** `to_json`: the JSON text of the map of all books, given the serialiser. */
    method ToJson(serialize: Snapshots.NewSnapshot -> string) returns (text: string)
      requires Valid()
      modifies (set b | b in books)`readingTime, (set b | b in books)`pageTurns
      ensures text == serialize(ToMap(old(Exports(books))))
      ensures forall k :: 0 <= k < |books| ==> books[k].Export() == old(books[k].Export())
      ensures forall k :: 0 <= k < |books| ==>
        books[k].readingTime == Some(old(books[k].Export()).readingTime) && books[k].pageTurns == Some(old(books[k].Export()).pageTurns)
    {
      var m := ExportMap();
      text := serialize(m);
    }

    /** The loop body of `to_s`: adds the i-th book's line, if any; every book's JSON form is left as it was. */
    method ReportAt(book: Books.Book, i: nat, ghost pairs: seq<(string, Books.BookExport)>, report: seq<ReportLine>)
      returns (report': seq<ReportLine>)
      requires Valid() && i < |books| == |pairs| && books[i] == book
      requires forall k :: 0 <= k < |books| ==> pairs[k].0 == books[k].id && books[k].Export() == pairs[k].1
      requires report == Report(pairs[..i])
      modifies book`readingTime, book`pageTurns
      ensures forall k :: 0 <= k < |books| ==> books[k].Export() == pairs[k].1
      ensures report' == Report(pairs[..i + 1])
      ensures ReportMemos(book, pairs[i].1, old(book.pageTurns))
      ensures forall k :: 0 <= k < |books| && k != i ==>
        books[k].readingTime == old(books[k].readingTime) && books[k].pageTurns == old(books[k].pageTurns)
    {
      label before:
      var line := ReportBook(book, pairs[i].1);
      forall k | 0 <= k < |books| && k != i
        ensures books[k].Export() == old@before(books[k].Export())
        ensures books[k].readingTime == old@before(books[k].readingTime)
        ensures books[k].pageTurns == old@before(books[k].pageTurns)
      {
        assert books[k] != book;
      }
      ReportSnoc(pairs, i);
      report' := if line.Some? then report + [line.value] else report;
    }

    /** `to_s`: one report line per book with a non-zero reading time, in order (the text layout aside). */
    method ToS() returns (report: seq<ReportLine>)
      requires Valid()
      modifies (set b | b in books)`readingTime, (set b | b in books)`pageTurns
      ensures report == Report(old(Exports(books)))
      ensures forall k :: 0 <= k < |books| ==> books[k].Export() == old(books[k].Export())
      ensures forall k :: 0 <= k < |books| ==> books[k].readingTime == Some(old(books[k].Export()).readingTime)
      ensures forall k :: 0 <= k < |books| ==>
        books[k].pageTurns == if old(books[k].Export()).readingTime == 0 then old(books[k].pageTurns) else Some(old(books[k].Export()).pageTurns)
    {
      ghost var pairs := Exports(books);
      ExportsAt(books);
      report := ReportAll(pairs);
    }

    /** The loop of `to_s`, over the books whose JSON forms are `pairs`. */
    method ReportAll(ghost pairs: seq<(string, Books.BookExport)>) returns (report: seq<ReportLine>)
      requires Valid() && |pairs| == |books|
      requires forall k :: 0 <= k < |books| ==> pairs[k].0 == books[k].id && books[k].Export() == pairs[k].1
      modifies (set b | b in books)`readingTime, (set b | b in books)`pageTurns
      ensures report == Report(pairs)
      ensures forall k :: 0 <= k < |books| ==> books[k].Export() == pairs[k].1
      ensures forall k :: 0 <= k < |books| ==> ReportMemos(books[k], pairs[k].1, old(books[k].pageTurns))
    {
      report := [];
      var i := 0;
      while i < |books|
        invariant 0 <= i <= |books|
        invariant report == Report(pairs[..i])
        invariant forall k :: 0 <= k < |books| ==> books[k].Export() == pairs[k].1
        invariant forall k :: 0 <= k < i ==> ReportMemos(books[k], pairs[k].1, old(books[k].pageTurns))
        invariant forall k :: i <= k < |books| ==> books[k].pageTurns == old(books[k].pageTurns)
      {
        report := ReportAt(books[i], i, pairs, report);
        i := i + 1;
      }
      assert pairs[..i] == pairs;
    }

    /**
     * `save(path)`: merges the current books with the previous snapshot read
     * from `file` (the file's content, None if it does not exist) and returns
     * the text written to `path`.
     */
    method Save(path: string, file: Option<string>, parse: string -> Option<Snapshots.OldSnapshot>,
                serialize: Snapshots.NewSnapshot -> string) returns (written: string)
      requires Valid()
      modifies (set b | b in books)`readingTime, (set b | b in books)`pageTurns
      ensures written == Snapshots.FormatOutput(path, serialize(
        Snapshots.Merge(ToMap(old(Exports(books))), Snapshots.LoadExistingData(path, file, parse))))
      ensures forall k :: 0 <= k < |books| ==> books[k].Export() == old(books[k].Export())
      ensures forall k :: 0 <= k < |books| ==>
        books[k].readingTime == Some(old(books[k].Export()).readingTime) && books[k].pageTurns == Some(old(books[k].Export()).pageTurns)
    {
      var oldData := Snapshots.LoadExistingData(path, file, parse);
      var current := ExportMap();
      var newData := MergeSnapshots(current, oldData);
      written := Snapshots.FormatOutput(path, serialize(newData));
    }
  }
}
