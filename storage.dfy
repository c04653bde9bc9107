/**
 The persistence boundary: the app's key-value preference store (`UserDefaults`)
 and the JSON coding of the event collection, both kept abstract.
 */
module Storage {

  import opened Options
  import opened Models

  /**
   The bytes a JSON encoder writes for a collection of events. The model keeps the
   encoded collection itself; `Malformed` stands for any stored bytes that do not
   decode as a collection of events (truncated or corrupt data, another format).
   */
  datatype Data = EventsJson(events: seq<Event>) | Malformed

  /** Decoding JSON data into a collection of events; malformed data yields nothing. */
  function Decode(d: Data): (r: Option<seq<Event>>)
    ensures r.None? <==> d.Malformed?
  {
    match d
    case EventsJson(es) => Some(es)
    case Malformed => None
  }

  /** Encoding a collection of events as JSON; it never fails and decodes to what went in. */
  function Encode(es: seq<Event>): (d: Data)
    ensures Decode(d) == Some(es)
  {
    EventsJson(es)
  }

  /** A value stored under one key: binary data or a string. */
  datatype Value = DataValue(data: Data) | StringValue(text: string)

  /** The application's preference store, shared by every object that persists something. */
  class Defaults {
    var entries: map<string, Value>

    constructor (entries: map<string, Value>)
      ensures this.entries == entries
    {
      this.entries := entries;
    }

    /** `data(forKey:)`: the binary value under `key`, if the key holds one. */
    function DataFor(key: string): (r: Option<Data>)
      reads this
      ensures r.Some? <==> key in entries && entries[key].DataValue?
      ensures r.Some? ==> entries[key] == DataValue(r.value)
    {
      if key in entries && entries[key].DataValue? then Some(entries[key].data) else None
    }

    /** `string(forKey:)`: the string under `key`, if the key holds one. */
    function StringFor(key: string): (r: Option<string>)
      reads this
      ensures r.Some? <==> key in entries && entries[key].StringValue?
      ensures r.Some? ==> entries[key] == StringValue(r.value)
    {
      if key in entries && entries[key].StringValue? then Some(entries[key].text) else None
    }

    /** `set(_:forKey:)`: replaces whatever `key` held and leaves every other key alone. */
    method Set(key: string, v: Value)
      modifies this
      ensures entries == old(entries)[key := v]
    {
      entries := entries[key := v];
    }
  }
}
