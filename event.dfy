/**
 * One row of the device's event table, wrapped as an object: its type code,
 * its raw `ExtraData` payload, its count and, for every type except the
 * page-turn counter, the instants its payload records.
 */
module Events {
  import opened Wrappers
  import ExtraData

  /** The page-turn counter: its payload is never decoded. */
  const PageTurnType: int := 46

  /** An instant, as Unix epoch seconds. */
  type Instant = int

  /** What one event holds, as a value. */
  datatype EventView = EventView(eventType: int, data: seq<ExtraData.Byte>, count: int, timestamps: seq<Instant>)

  /** The fields the JSON form of an event exposes. */
  datatype EventJson = EventJson(eventType: int, count: int, timestamps: seq<Instant>)

  /** `Time.at` on each entry's epoch-seconds value, in entry order. */
  function Instants(entries: seq<ExtraData.Entry>): (r: seq<Instant>)
    ensures |r| == |entries|
    ensures forall k :: 0 <= k < |entries| ==> r[k] == entries[k].timestamp
  {
    seq(|entries|, k requires 0 <= k < |entries| => entries[k].timestamp as Instant)
  }

  /**
   * The timestamps an event of this type and payload ends up with, or the
   * decoder's failure, which the constructor does not rescue.
   */
  function EventTimestamps(eventType: int, data: seq<ExtraData.Byte>): (r: Result<seq<Instant>, ExtraData.Error>)
    ensures eventType == PageTurnType ==> r == Ok([])
    ensures eventType != PageTurnType ==> (r.Ok? <==> ExtraData.Decode(data).Ok?)
    ensures r.Ok? && eventType != PageTurnType ==>
      var entries := ExtraData.Decode(data).value.timestamps;
      && |r.value| == |entries|
      && forall k :: 0 <= k < |entries| ==> r.value[k] == entries[k].timestamp
  {
    if eventType == PageTurnType then Ok([])
    else
      match ExtraData.Decode(data)
      case Err(e) => Err(e)
      case Ok(record) => Ok(Instants(record.timestamps))
  }

  class Event {
    var eventType: int
    var data: seq<ExtraData.Byte>
    var count: int
    var timestamps: seq<Instant>

    /** The assignments that precede decoding: the three inputs, and no timestamps yet. */
    constructor Init(eventType: int, data: seq<ExtraData.Byte>, count: int)
      ensures this.eventType == eventType && this.data == data && this.count == count
      ensures timestamps == []
    {
      this.eventType, this.data, this.count := eventType, data, count;
      timestamps := [];
    }

    function View(): EventView
      reads this
    {
      EventView(eventType, data, count, timestamps)
    }

    /** Appends the instant of every entry, in order. */
    method AppendInstants(entries: seq<ExtraData.Entry>)
      modifies this
      ensures eventType == old(eventType) && data == old(data) && count == old(count)
      ensures |timestamps| == |old(timestamps)| + |entries|
      ensures timestamps[..|old(timestamps)|] == old(timestamps)
      ensures forall k :: 0 <= k < |entries| ==> timestamps[|old(timestamps)| + k] == entries[k].timestamp
    {
      var i := 0;
      while i < |entries|
        invariant 0 <= i <= |entries|
        invariant eventType == old(eventType) && data == old(data) && count == old(count)
        invariant |timestamps| == |old(timestamps)| + i
        invariant timestamps[..|old(timestamps)|] == old(timestamps)
        invariant forall k :: 0 <= k < i ==> timestamps[|old(timestamps)| + k] == entries[k].timestamp
      {
        timestamps := timestamps + [entries[i].timestamp];
        i := i + 1;
      }
    }

    /** The JSON form: exactly the type, the count and the timestamps. */
    function ToJson(): (j: EventJson)
      reads this
      ensures j.eventType == eventType && j.count == count && j.timestamps == timestamps
    {
      EventJson(eventType, count, timestamps)
    }
  }

  /**
   * `Event.new(type, data, count)`: a fresh event, or the decoder's failure
   * when the type is not the page-turn counter and the payload is too short.
   */
  method NewEvent(eventType: int, data: seq<ExtraData.Byte>, count: int) returns (r: Result<Event, ExtraData.Error>)
    ensures r.Err? <==> EventTimestamps(eventType, data).Err?
    ensures r.Err? ==> r.error == EventTimestamps(eventType, data).error
    ensures r.Ok? ==> fresh(r.value)
    ensures r.Ok? ==> r.value.View() == EventView(eventType, data, count, EventTimestamps(eventType, data).value)
  {
    var e := new Event.Init(eventType, data, count);
    if eventType != PageTurnType {
      match ExtraData.Decode(data)
      case Err(error) =>
        return Err(error);
      case Ok(record) =>
        e.AppendInstants(record.timestamps);
        assert e.timestamps == Instants(record.timestamps);
    }
    return Ok(e);
  }

  /** The JSON form is determined by, and determines, the type, the count and the timestamps; the payload does not show. */
  lemma ToJsonFields(a: Event, b: Event)
    ensures a.ToJson() == b.ToJson() <==>
      a.eventType == b.eventType && a.count == b.count && a.timestamps == b.timestamps
  {
  }
}
