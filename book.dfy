/**
 * One book of the library and the statistics derived from its events:
 * its reading sessions (start instants paired with end instants by
 * position), its reading time (in tenths of an hour) and its page turns,
 * the last two memoised in fields on first use.
 */
module Books {
  import opened Wrappers
  import Events

  type Instant = Events.Instant

  /** Event types whose timestamps are session starts and session ends. */
  const SessionStartType: int := 1020
  const SessionEndType: int := 1021

  /** The names of the read-status codes 0, 1 and 2. */
  const ReadStatuses: seq<string> := ["Unread", "Reading", "Finished"]

  /** A start instant and the end instant paired with it, if the end list reaches that far. */
  datatype Session = Session(start: Instant, end: Option<Instant>)

  datatype Highlight = Highlight(text: string, dateCreated: string, kind: string)

  /** The fields of a book's JSON form, in the order it writes them. */
  datatype BookExport = BookExport(
    title: string,
    author: string,
    isbn13: Option<string>,
    imageId: Option<string>,
    chapters: Option<int>,
    highlights: seq<Highlight>,
    percentRead: int,
    readStatus: Option<string>,
    pageTurns: int,
    readingSessions: seq<Session>,
    readingTime: int,
    series: Option<string>,
    seriesNumber: Option<string>)

  // ---------------------------------------------------------------------------
  // Read status

  /** Ruby's `Array#[]`: a negative index counts from the end, an index out of range gives nil. */
  function RubyIndex<T>(xs: seq<T>, i: int): Option<T>
  {
    if 0 <= i < |xs| then Some(xs[i])
    else if -|xs| <= i < 0 then Some(xs[|xs| + i])
    else None
  }

  /** `READ_STATUS[code]`. */
  function ReadStatusName(code: int): (r: Option<string>)
    ensures r == Some("Unread") <==> code == 0 || code == -3
    ensures r == Some("Reading") <==> code == 1 || code == -2
    ensures r == Some("Finished") <==> code == 2 || code == -1
    ensures r == None <==> code < -3 || 2 < code
  {
    RubyIndex(ReadStatuses, code)
  }

  // ---------------------------------------------------------------------------
  // Sessions and reading time

  /** Ruby's `starts.zip(ends)`: one session per start, ends taken by position. */
  function Zip(starts: seq<Instant>, ends: seq<Instant>): (r: seq<Session>)
    ensures |r| == |starts|
    ensures forall i :: 0 <= i < |starts| ==>
      r[i] == Session(starts[i], if i < |ends| then Some(ends[i]) else None)
  {
    if starts == [] then []
    else
      [Session(starts[0], if ends == [] then None else Some(ends[0]))]
        + Zip(starts[1..], if ends == [] then [] else ends[1..])
  }

  /** A session is counted when it has an end and lasts strictly longer than `minTime` seconds. */
  predicate Counted(s: Session, minTime: int)
  {
    s.end.Some? && s.end.value - s.start > minTime
  }

  function Duration(s: Session): int
    requires s.end.Some?
  {
    s.end.value - s.start
  }

  /** The seconds that `calc_reading_time` adds up, session by session. */
  function SecondsRead(sessions: seq<Session>, minTime: int): int
  {
    if sessions == [] then 0
    else
      var last := sessions[|sessions| - 1];
      SecondsRead(sessions[..|sessions| - 1], minTime) + (if Counted(last, minTime) then Duration(last) else 0)
  }

  /** With no session counted, nothing was read. */
  lemma {:induction false} SecondsReadNoneCounted(sessions: seq<Session>, minTime: int)
    requires forall i :: 0 <= i < |sessions| ==> !Counted(sessions[i], minTime)
    ensures SecondsRead(sessions, minTime) == 0
    decreases |sessions|
  {
    if sessions != [] {
      var init := sessions[..|sessions| - 1];
      assert forall i :: 0 <= i < |init| ==> init[i] == sessions[i];
      SecondsReadNoneCounted(init, minTime);
    }
  }

  /** Seconds to hours, rounded to one decimal (half away from zero), as a count of tenths. */
  function TenthsOfHours(seconds: int): (t: int)
    ensures 0 <= seconds ==> 360 * t - 180 <= seconds < 360 * t + 180
    ensures seconds < 0 ==> 360 * t - 180 < seconds <= 360 * t + 180
  {
    if 0 <= seconds then (seconds + 180) / 360 else -((180 - seconds) / 360)
  }

  /** The counted sessions, in order: an independent statement of which sessions add to the total. */
  function CountedSessions(sessions: seq<Session>, minTime: int): (r: seq<Session>)
    ensures forall s :: s in r <==> s in sessions && Counted(s, minTime)
  {
    if sessions == [] then []
    else
      assert sessions == [sessions[0]] + sessions[1..];
      (if Counted(sessions[0], minTime) then [sessions[0]] else []) + CountedSessions(sessions[1..], minTime)
  }

  /** Each counted session is kept as often as it occurs, and no other session is kept. */
  lemma {:induction false} CountedSessionsMultiset(sessions: seq<Session>, minTime: int)
    ensures forall s ::
      multiset(CountedSessions(sessions, minTime))[s] == if Counted(s, minTime) then multiset(sessions)[s] else 0
    decreases |sessions|
  {
    if sessions != [] {
      var rest := sessions[1..];
      assert sessions == [sessions[0]] + rest;
      CountedSessionsMultiset(rest, minTime);
    }
  }

  function TotalDuration(sessions: seq<Session>): int
    requires forall s :: s in sessions ==> s.end.Some?
  {
    if sessions == [] then 0 else Duration(sessions[0]) + TotalDuration(sessions[1..])
  }

  lemma {:induction false} SecondsReadAppend(a: seq<Session>, b: seq<Session>, minTime: int)
    ensures SecondsRead(a + b, minTime) == SecondsRead(a, minTime) + SecondsRead(b, minTime)
    decreases |b|
  {
    if b == [] {
      assert a + b == a;
    } else {
      var b' := b[..|b| - 1];
      assert (a + b)[..|a + b| - 1] == a + b';
      SecondsReadAppend(a, b', minTime);
    }
  }

  lemma {:induction false} SecondsReadFront(s: Session, rest: seq<Session>, minTime: int)
    ensures SecondsRead([s] + rest, minTime) == (if Counted(s, minTime) then Duration(s) else 0) + SecondsRead(rest, minTime)
  {
    SecondsReadAppend([s], rest, minTime);
    assert [s][..0] == [];
  }

  /** The total is the sum of the durations of exactly the counted sessions. */
  lemma {:induction false} SecondsReadIsCountedTotal(sessions: seq<Session>, minTime: int)
    ensures SecondsRead(sessions, minTime) == TotalDuration(CountedSessions(sessions, minTime))
    decreases |sessions|
  {
    if sessions != [] {
      var rest := sessions[1..];
      assert sessions == [sessions[0]] + rest;
      SecondsReadFront(sessions[0], rest, minTime);
      SecondsReadIsCountedTotal(rest, minTime);
      var c := CountedSessions(rest, minTime);
      if Counted(sessions[0], minTime) {
        assert CountedSessions(sessions, minTime) == [sessions[0]] + c;
        assert ([sessions[0]] + c)[1..] == c;
      } else {
        assert CountedSessions(sessions, minTime) == [] + c;
        assert [] + c == c;
      }
    }
  }

  /** A session whose end is missing adds nothing, wherever it sits. */
  lemma SecondsReadSkipsOpenSession(a: seq<Session>, start: Instant, b: seq<Session>, minTime: int)
    ensures SecondsRead(a + [Session(start, None)] + b, minTime) == SecondsRead(a + b, minTime)
  {
    SecondsReadAppend(a + [Session(start, None)], b, minTime);
    SecondsReadAppend(a, [Session(start, None)], minTime);
    SecondsReadAppend(a, b, minTime);
    assert [Session(start, None)][..0] == [];
  }

  /** With a non-negative threshold only positive durations count, so the total is never negative. */
  lemma {:induction false} SecondsReadNonnegative(sessions: seq<Session>, minTime: int)
    requires 0 <= minTime
    ensures 0 <= SecondsRead(sessions, minTime)
    decreases |sessions|
  {
    if sessions != [] {
      SecondsReadNonnegative(sessions[..|sessions| - 1], minTime);
    }
  }

  /** Raising a non-negative threshold can only lower the total. */
  lemma {:induction false} SecondsReadAntitone(sessions: seq<Session>, lo: int, hi: int)
    requires 0 <= lo <= hi
    ensures SecondsRead(sessions, hi) <= SecondsRead(sessions, lo)
    decreases |sessions|
  {
    if sessions != [] {
      SecondsReadAntitone(sessions[..|sessions| - 1], lo, hi);
    }
  }

  /** Zero tenths of an hour means less than half a tenth either way: under three minutes. */
  lemma TenthsZero(seconds: int)
    ensures TenthsOfHours(seconds) == 0 <==> -180 < seconds < 180
  {
  }

  /** A 30-second and a 7200-second session with a 60-second threshold read as 2.0 hours. */
  lemma ReadingTimeExample(t1: Instant, t2: Instant)
    ensures TenthsOfHours(SecondsRead([Session(t1, Some(t1 + 30)), Session(t2, Some(t2 + 7200))], 60)) == 20
  {
    var s := [Session(t1, Some(t1 + 30)), Session(t2, Some(t2 + 7200))];
    assert s[..1] == [s[0]] && s[..1][..0] == [];
    assert SecondsRead(s[..1], 60) == 0;
    assert SecondsRead(s, 60) == 7200;
  }

  /** Ends that run out leave the later starts with no end; they are not dropped. */
  lemma ZipShortEnds(t1: Instant, t2: Instant)
    ensures Zip([t1, t2], [t1 + 60]) == [Session(t1, Some(t1 + 60)), Session(t2, None)]
  {
  }

  /** Surplus ends are dropped. */
  lemma ZipSurplusEnds(t1: Instant, t2: Instant)
    ensures Zip([t1], [t1 + 60, t2]) == [Session(t1, Some(t1 + 60))]
  {
  }

  // ---------------------------------------------------------------------------
  // The book

  class Book {
    var id: string
    var title: string
    var author: string
    var percentRead: int
    var readStatus: int
    var series: Option<string>
    var seriesNumber: Option<string>
    var isbn13: Option<string>
    var imageId: Option<string>
    var chapters: Option<int>
    var highlights: seq<Highlight>
    /** At most one event per type code, keyed by it. */
    var events: map<int, Events.Event>
    /** The memoised reading time, in tenths of an hour; None until computed or assigned. */
    var readingTime: Option<int>
    /** The memoised page-turn count; None until computed or assigned. */
    var pageTurns: Option<int>

    constructor (id: string, title: string, author: string, percentRead: int, readStatus: int,
                 series: Option<string>, seriesNumber: Option<string>)
      ensures this.id == id && this.title == title && this.author == author
      ensures this.percentRead == percentRead && this.readStatus == readStatus
      ensures this.series == series && this.seriesNumber == seriesNumber
      ensures events == map[] && highlights == []
      ensures isbn13 == None && imageId == None && chapters == None
      ensures readingTime == None && pageTurns == None
    {
      this.id, this.title, this.author := id, title, author;
      this.percentRead, this.readStatus := percentRead, readStatus;
      this.series, this.seriesNumber := series, seriesNumber;
      events := map[];
      highlights := [];
      isbn13, imageId, chapters := None, None, None;
      readingTime, pageTurns := None, None;
    }

    function ReadStatus(): Option<string>
      reads this
    {
      ReadStatusName(readStatus)
    }

    /** `reading_sessions`: empty unless both boundary events are present, else one session per start. */
    function ReadingSessions(): (r: seq<Session>)
      reads this, events.Values
      ensures SessionStartType !in events || SessionEndType !in events ==> r == []
      ensures SessionStartType in events && SessionEndType in events ==>
        var starts, ends := events[SessionStartType].timestamps, events[SessionEndType].timestamps;
        && |r| == |starts|
        && (forall i :: 0 <= i < |starts| ==> r[i].start == starts[i])
        && (forall i :: 0 <= i < |starts| ==> r[i].end == if i < |ends| then Some(ends[i]) else None)
    {
      if SessionStartType in events && SessionEndType in events then
        Zip(events[SessionStartType].timestamps, events[SessionEndType].timestamps)
      else []
    }

    /** What `reading_time(minTime)` returns now: the memo if set, else the computed value. */
    function ReadingTimeValue(minTime: int): (t: int)
      reads this, events.Values
      ensures readingTime.Some? ==> t == readingTime.value
      ensures readingTime.None? ==> t == TenthsOfHours(TotalDuration(CountedSessions(ReadingSessions(), minTime)))
    {
      SecondsReadIsCountedTotal(ReadingSessions(), minTime);
      if readingTime.Some? then readingTime.value
      else TenthsOfHours(SecondsRead(ReadingSessions(), minTime))
    }

    /** What `page_turns` returns now: the memo if set, else the page-turn event's count, else 0. */
    function PageTurnsValue(): (n: int)
      reads this, events.Values
      ensures pageTurns.Some? ==> n == pageTurns.value
      ensures pageTurns.None? && Events.PageTurnType in events ==> n == events[Events.PageTurnType].count
      ensures pageTurns.None? && Events.PageTurnType !in events ==> n == 0
    {
      if pageTurns.Some? then pageTurns.value
      else if Events.PageTurnType in events then events[Events.PageTurnType].count
      else 0
    }

    /** What `to_json` returns now. */
    function Export(): BookExport
      reads this, events.Values
    {
      BookExport(title, author, isbn13, imageId, chapters, highlights, percentRead, ReadStatus(),
                 PageTurnsValue(), ReadingSessions(), ReadingTimeValue(0), series, seriesNumber)
    }

    /** The `reading_time=` writer. */
    method SetReadingTime(value: Option<int>)
      modifies this`readingTime
      ensures readingTime == value
    {
      readingTime := value;
    }

    /** The `page_turns=` writer. */
    method SetPageTurns(value: Option<int>)
      modifies this`pageTurns
      ensures pageTurns == value
    {
      pageTurns := value;
    }

    /** `reading_time(minTime)`: the memo if there is one, otherwise computed and memoised. */
    method ReadingTime(minTime: int) returns (t: int)
      modifies this`readingTime
      ensures t == old(ReadingTimeValue(minTime))
      ensures old(readingTime).Some? ==> readingTime == old(readingTime)
      ensures readingTime == Some(t)
      ensures forall m :: ReadingTimeValue(m) == t
      ensures Export() == old(Export()).(readingTime := t)
    {
      if readingTime.Some? {
        t := readingTime.value;
      } else {
        t := CalcReadingTime(minTime);
      }
    }

    /** `calc_reading_time(minTime)`: adds up the counted sessions, then memoises the rounded hours. */
    method CalcReadingTime(minTime: int) returns (t: int)
      modifies this`readingTime
      ensures t == TenthsOfHours(SecondsRead(ReadingSessions(), minTime))
      ensures readingTime == Some(t)
    {
      var sessions := ReadingSessions();
      var total := 0;
      var i := 0;
      while i < |sessions|
        invariant 0 <= i <= |sessions|
        invariant total == SecondsRead(sessions[..i], minTime)
      {
        var s := sessions[i];
        assert sessions[..i + 1][..i] == sessions[..i];
        if s.end.Some? {
          if s.end.value - s.start > minTime {
            total := total + (s.end.value - s.start);
          }
        }
        i := i + 1;
      }
      assert sessions[..i] == sessions;
      t := TenthsOfHours(total);
      readingTime := Some(t);
    }

    /** `page_turns`: the memo if there is one, otherwise computed and memoised. */
    method PageTurns() returns (n: int)
      modifies this`pageTurns
      ensures n == old(PageTurnsValue())
      ensures old(pageTurns).Some? ==> pageTurns == old(pageTurns)
      ensures pageTurns == Some(n)
      ensures Export() == old(Export())
    {
      if pageTurns.Some? {
        n := pageTurns.value;
      } else {
        n := CalcPageTurns();
      }
    }

    /** `calc_page_turns`: the page-turn event's count, or 0 without one, memoised. */
    method CalcPageTurns() returns (n: int)
      modifies this`pageTurns
      ensures Events.PageTurnType in events ==> n == events[Events.PageTurnType].count
      ensures Events.PageTurnType !in events ==> n == 0
      ensures pageTurns == Some(n)
    {
      pageTurns := Some(0);
      if Events.PageTurnType in events {
        pageTurns := Some(events[Events.PageTurnType].count);
      }
      n := pageTurns.value;
    }

    /** `to_json`: the export through the derived accessors, which memoise as a side effect. */
    method ToJson() returns (e: BookExport)
      modifies this`readingTime, this`pageTurns
      ensures e == old(Export())
      ensures Export() == e
      ensures readingTime == Some(e.readingTime) && pageTurns == Some(e.pageTurns)
    {
      var status := ReadStatus();
      var turns := PageTurns();
      var sessions := ReadingSessions();
      var time := ReadingTime(0);
      e := BookExport(title, author, isbn13, imageId, chapters, highlights, percentRead, status,
                      turns, sessions, time, series, seriesNumber);
    }
  }

  /**
   * The export reports the stored attributes unchanged and the derived ones
   * through their accessors: the status name, the page turns and reading time
   * (memo or computed, the latter with no minimum) and the sessions.
   */
  lemma ExportFields(b: Book)
    ensures var e := b.Export();
      && e.title == b.title && e.author == b.author && e.percentRead == b.percentRead
      && e.isbn13 == b.isbn13 && e.imageId == b.imageId && e.chapters == b.chapters && e.highlights == b.highlights
      && e.series == b.series && e.seriesNumber == b.seriesNumber
      && e.readStatus == ReadStatusName(b.readStatus)
      && e.pageTurns == b.PageTurnsValue()
      && e.readingSessions == b.ReadingSessions()
      && e.readingTime == b.ReadingTimeValue(0)
  {
  }
}
