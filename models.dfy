/**
 The two value types of the tracker: an event the user follows ("days since X")
 and the dated records logged against it.
 */
module Models {

  import opened Options

  /** A universally unique identifier; the model only compares identifiers for equality. */
  type Uuid = nat

  /** A point in time, as whole seconds on one fixed time line. */
  type Date = int

  /** One dated occurrence of an event, with a free-text note that may be empty. */
  datatype EventRecord = EventRecord(id: Uuid, date: Date, note: string)

  /** A tracked event: its title, its records (in insertion order) and a display flag. */
  datatype Event = Event(id: Uuid, title: string, records: seq<EventRecord>, isExpanded: bool)

  /**
   The initialiser of `Event`. Swift's initialiser draws the default identifier from `UUID()`;
   here the caller supplies it. Records default to none and the event starts collapsed.
   */
  function NewEvent(id: Uuid, title: string, records: seq<EventRecord> := [], isExpanded: bool := false): (e: Event)
    ensures e.id == id && e.title == title
    ensures e.records == records && e.isExpanded == isExpanded
  {
    Event(id, title, records, isExpanded)
  }

  /** The initialiser of `EventRecord`; the caller supplies the identifier `UUID()` would draw. */
  function NewEventRecord(id: Uuid, date: Date, note: string): (r: EventRecord)
    ensures r.id == id && r.date == date && r.note == note
  {
    EventRecord(id, date, note)
  }

  /** An event made with only an identifier and a title has no records and is collapsed. */
  lemma NewEventDefaults(id: Uuid, title: string)
    ensures NewEvent(id, title).records == []
    ensures !NewEvent(id, title).isExpanded
  {
  }

  /** The identifier of an event. */
  function EventId(e: Event): Uuid
  {
    e.id
  }

  /** The identifier of a record. */
  function RecordId(r: EventRecord): Uuid
  {
    r.id
  }

  /** The identifiers of a list of events or records, in order. */
  function Ids<T>(s: seq<T>, idOf: T -> Uuid): (ids: seq<Uuid>)
    ensures |ids| == |s|
    ensures forall i :: 0 <= i < |s| ==> ids[i] == idOf(s[i])
  {
    seq(|s|, i requires 0 <= i < |s| => idOf(s[i]))
  }

  /** No two positions of the list hold the same identifier. */
  predicate IdsUnique<T>(s: seq<T>, idOf: T -> Uuid)
  {
    forall i, j :: 0 <= i < j < |s| ==> idOf(s[i]) != idOf(s[j])
  }

  /**
   The identifier invariant of the store: no two events share an identifier, and
   within each event no two records do.
   */
  predicate UniqueIds(es: seq<Event>)
  {
    && IdsUnique(es, EventId)
    && forall i :: 0 <= i < |es| ==> IdsUnique(es[i].records, RecordId)
  }

  /** `firstIndex(where: { $0.id == id })`: the first position holding identifier `id`. */
  function FirstIndexOf<T>(s: seq<T>, id: Uuid, idOf: T -> Uuid): (r: Option<nat>)
    ensures r.Some? ==> r.value < |s| && idOf(s[r.value]) == id
    ensures r.Some? ==> forall j :: 0 <= j < r.value ==> idOf(s[j]) != id
    ensures r.None? <==> forall j :: 0 <= j < |s| ==> idOf(s[j]) != id
  {
    if s == [] then None
    else if idOf(s[0]) == id then Some(0)
    else match FirstIndexOf(s[1..], id, idOf)
      case None => None
      case Some(k) => Some(k + 1)
  }

  /** In a list whose identifiers are distinct, the first position with an identifier is its only one. */
  lemma FirstIndexOfUnique<T>(s: seq<T>, idOf: T -> Uuid, k: nat)
    requires IdsUnique(s, idOf) && k < |s|
    ensures FirstIndexOf(s, idOf(s[k]), idOf) == Some(k)
  {
  }

  /** Lists with the same identifiers in the same order have the same first match. */
  lemma FirstIndexOfByIds<T>(a: seq<T>, b: seq<T>, id: Uuid, idOf: T -> Uuid)
    requires Ids(a, idOf) == Ids(b, idOf)
    ensures FirstIndexOf(a, id, idOf) == FirstIndexOf(b, id, idOf)
  {
    assert forall j :: 0 <= j < |a| ==> idOf(a[j]) == Ids(a, idOf)[j] == Ids(b, idOf)[j] == idOf(b[j]);
  }
}
