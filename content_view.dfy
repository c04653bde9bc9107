/**
 The main screen's state and the operations that change it. The screen keeps the
 event collection in memory; every assignment to it writes a full snapshot to the
 preference store under the key "events" (the property's `didSet` observer).
 */
module ContentViewModel {

  import opened Options
  import opened Models
  import opened Text
  import opened Storage
  import opened EventStore

  /** The preference key the collection is stored under. */
  const EventsKey := "events"

  class ContentView {
    /** The collection of events, in the order the user added them. */
    var events: seq<Event>
    /** The text of the new-event field. */
    var newEventTitle: string
    /** The identifier of the record open in the record editor, if one is being edited. */
    var selectedRecordID: Option<Uuid>
    /** The record the editor shows and changes. */
    var draftRecord: EventRecord
    /** Whether the editor edits an existing record rather than adding one. */
    var isEditingRecord: bool
    /** The text of the search field. */
    var searchText: string
    /** The preference store (`UserDefaults.standard`). */
    const defaults: Defaults

    /**
     The screen's initial state. The initial draft record is created with a fresh
     identifier and the current time, both supplied by the caller. Initial values do
     not run the `didSet` observer, so nothing is written.
     */
    constructor (defaults: Defaults, draftId: Uuid, now: Date)
      ensures this.defaults == defaults
      ensures events == [] && newEventTitle == "" && searchText == ""
      ensures selectedRecordID == None && !isEditingRecord
      ensures draftRecord == NewEventRecord(draftId, now, "")
    {
      this.defaults := defaults;
      events := [];
      newEventTitle := "";
      selectedRecordID := None;
      draftRecord := NewEventRecord(draftId, now, "");
      isEditingRecord := false;
      searchText := "";
    }

    /** The stored snapshot holds exactly the current collection. */
    predicate Persisted()
      reads this, defaults
    {
      defaults.DataFor(EventsKey) == Some(Encode(events))
    }

    /** `saveEvents()`: writes the whole collection under "events", replacing what was there. */
    method SaveEvents()
      modifies defaults
      ensures defaults.entries == old(defaults.entries)[EventsKey := DataValue(Encode(events))]
      ensures Persisted()
    {
      defaults.Set(EventsKey, DataValue(Encode(events)));
    }

    /** An assignment to `events`, followed by its `didSet` observer. */
    method SetEvents(es: seq<Event>)
      modifies this`events, defaults
      ensures events == es
      ensures defaults.entries == old(defaults.entries)[EventsKey := DataValue(Encode(es))]
      ensures Persisted()
    {
      events := es;
      SaveEvents();
    }

    /**
     `addNewEvent()`: when the new-event field holds more than white space, appends a
     collapsed event without records, titled with the trimmed text, and clears the
     field; otherwise changes nothing. The identifier `UUID()` would draw is `id`.
     */
    method AddNewEvent(id: Uuid)
      modifies this`events, this`newEventTitle, defaults
      ensures var trimmed := Trim(old(newEventTitle));
        if trimmed == [] then
          && events == old(events)
          && newEventTitle == old(newEventTitle)
          && defaults.entries == old(defaults.entries)
        else
          && events == old(events) + [NewEvent(id, trimmed)]
          && newEventTitle == ""
          && defaults.entries == old(defaults.entries)[EventsKey := DataValue(Encode(events))]
      ensures old(UniqueIds(events)) && (forall j :: 0 <= j < |old(events)| ==> old(events)[j].id != id) ==>
        UniqueIds(events)
    {
      var trimmed := Trim(newEventTitle);
      if trimmed == [] {
        return;
      }
      ghost var before := events;
      SetEvents(events + [NewEvent(id, trimmed)]);
      newEventTitle := "";
      assert forall i :: 0 <= i < |before| ==> events[i] == before[i];
    }

    /**
     `toggleExpand(for:)`: flips the display flag of the first event with the given
     identifier. Without such an event nothing is assigned, so nothing is written.
     */
    method ToggleExpand(eventId: Uuid)
      modifies this`events, defaults
      ensures events == ToggleExpanded(old(events), eventId)
      ensures if FirstIndexOf(old(events), eventId, EventId).Some?
        then defaults.entries == old(defaults.entries)[EventsKey := DataValue(Encode(events))]
        else defaults.entries == old(defaults.entries)
      ensures old(UniqueIds(events)) ==> UniqueIds(events)
    {
      if UniqueIds(events) {
        ToggleExpandedKeepsUniqueIds(events, eventId);
      }
      var idx := FirstIndexOf(events, eventId, EventId);
      if idx.Some? {
        var k := idx.value;
        SetEvents(events[k := events[k].(isExpanded := !events[k].isExpanded)]);
      }
    }

    /**
     `daysFromPreviousRecord(eventIndex:record:)` for the event at `eventIndex`: 0 for a
     record the event does not hold, and never negative for one it holds.
     */
    function DaysFromPrevious(eventIndex: nat, record: EventRecord): (d: int)
      reads this
      requires eventIndex < |events|
      ensures (forall r :: r in events[eventIndex].records ==> r.id != record.id) ==> d == 0
      ensures record in events[eventIndex].records && IdsUnique(events[eventIndex].records, RecordId) ==> d >= 0
    {
      DaysFromPreviousRecord(events[eventIndex], record)
    }

    /** `deleteEvents(at:)`: removes the events at the given positions. */
    method DeleteEvents(offsets: set<nat>)
      requires forall o :: o in offsets ==> o < |events|
      modifies this`events, defaults
      ensures events == RemoveAtOffsets(old(events), offsets)
      ensures |events| == |old(events)| - |offsets|
      ensures defaults.entries == old(defaults.entries)[EventsKey := DataValue(Encode(events))]
      ensures old(UniqueIds(events)) ==> UniqueIds(events)
    {
      RemoveAtOffsetsSpec(events, offsets);
      if UniqueIds(events) {
        RemoveAtOffsetsKeepsUniqueIds(events, offsets);
      }
      SetEvents(RemoveAtOffsets(events, offsets));
    }

    /** `deleteRecord(eventIndex:recordIndex:)`: removes one record of one event. */
    method DeleteRecord(eventIndex: nat, recordIndex: nat)
      requires eventIndex < |events| && recordIndex < |events[eventIndex].records|
      modifies this`events, defaults
      ensures events == old(events)[eventIndex :=
        old(events)[eventIndex].(records := RemoveRecordAt(old(events)[eventIndex].records, recordIndex))]
      ensures Ids(events, EventId) == Ids(old(events), EventId)
      ensures defaults.entries == old(defaults.entries)[EventsKey := DataValue(Encode(events))]
      ensures old(UniqueIds(events)) ==> UniqueIds(events)
    {
      var e := events[eventIndex];
      var rs := RemoveRecordAt(e.records, recordIndex);
      if UniqueIds(events) {
        RemoveRecordAtKeepsIdsUnique(e.records, recordIndex);
        WithRecordsKeepsUniqueIds(events, eventIndex, rs);
      }
      SetEvents(events[eventIndex := e.(records := rs)]);
    }

    /**
     The editor's save action for the event at `eventIndex`: replaces the selected
     record when editing one that exists, appends the draft otherwise, then clears
     the selection.
     */
    method SaveRecord(eventIndex: nat)
      requires eventIndex < |events|
      modifies this`events, this`selectedRecordID, defaults
      ensures events == old(events)[eventIndex := old(events)[eventIndex].(records :=
        SavedRecords(old(events)[eventIndex].records, isEditingRecord, old(selectedRecordID), draftRecord))]
      ensures Ids(events, EventId) == Ids(old(events), EventId)
      ensures selectedRecordID == None
      ensures defaults.entries == old(defaults.entries)[EventsKey := DataValue(Encode(events))]
      ensures old(UniqueIds(events)) && (old(isEditingRecord && selectedRecordID == Some(draftRecord.id))
          || (forall r :: r in old(events)[eventIndex].records ==> r.id != old(draftRecord.id)))
        ==> UniqueIds(events)
    {
      var e := events[eventIndex];
      var rs := SavedRecords(e.records, isEditingRecord, selectedRecordID, draftRecord);
      if UniqueIds(events) && ((isEditingRecord && selectedRecordID == Some(draftRecord.id))
        || (forall r :: r in e.records ==> r.id != draftRecord.id)) {
        assert IdsUnique(e.records, RecordId);
        SavedRecordsKeepsIdsUnique(e.records, isEditingRecord, selectedRecordID, draftRecord);
        WithRecordsKeepsUniqueIds(events, eventIndex, rs);
      }
      SetEvents(events[eventIndex := e.(records := rs)]);
      selectedRecordID := None;
    }

    /**
     `loadEvents()`: when the store holds data under "events" that decodes, the
     collection becomes the decoded one (and, being assigned, is written back);
     otherwise nothing changes. Loading right after a write changes nothing.
     */
    method LoadEvents()
      modifies this`events, defaults
      ensures var stored := old(defaults.DataFor(EventsKey));
        if stored.Some? && Decode(stored.value).Some? then
          && events == Decode(stored.value).value
          && defaults.entries == old(defaults.entries)[EventsKey := DataValue(Encode(events))]
        else
          && events == old(events)
          && defaults.entries == old(defaults.entries)
      ensures old(Persisted()) ==> events == old(events) && defaults.entries == old(defaults.entries)
    {
      var stored := defaults.DataFor(EventsKey);
      if stored.Some? {
        var decoded := Decode(stored.value);
        if decoded.Some? {
          ghost var before := defaults.entries;
          SetEvents(decoded.value);
          assert old(Persisted()) ==> defaults.entries == before;
        }
      }
    }

    /**
     `filteredEvents`: the whole collection when the search text is empty; otherwise
     the events whose title contains it, ignoring case, in their original order.
     */
    function FilteredEvents(): (r: seq<Event>)
      reads this
      ensures searchText == [] ==> r == events
      ensures searchText != [] ==> IsSubsequence(r, events)
      ensures searchText != [] ==> forall e :: (multiset(r)[e] ==
        if MatchesIgnoringCase(e.title, searchText) then multiset(events)[e] else 0)
    {
      if searchText == [] then events else FilterByTitle(events, searchText)
    }
  }

  /** A title that is only a line break adds nothing, and a real one adds an event. */
  method UsageAddEvent()
  {
    var store := new Defaults(map[]);
    var view := new ContentView(store, 100, 0);
    view.LoadEvents();
    assert view.events == [];

    view.newEventTitle := "\n";
    assert LeadingWhitespace(view.newEventTitle) == 1;
    view.AddNewEvent(1);
    assert view.events == [];

    view.newEventTitle := "Running";
    assert LeadingWhitespace(view.newEventTitle) == 0;
    assert TrailingWhitespace(view.newEventTitle) == 0;
    assert Trim(view.newEventTitle) == view.newEventTitle[0..7] == "Running";
    view.AddNewEvent(1);
    assert view.events == [NewEvent(1, "Running")] && view.newEventTitle == "";
  }

  /** Two records logged against an event are kept in order, and reloading gives back what was saved. */
  method UsageRecords(view: ContentView, jan1: EventRecord, jan10: EventRecord)
    requires view.events == [NewEvent(1, "Running")] && !view.isEditingRecord
    modifies view, view.defaults
  {
    view.draftRecord := jan1;
    view.SaveRecord(0);
    view.draftRecord := jan10;
    view.SaveRecord(0);
    assert view.events[0].records == [jan1, jan10];
    assert view.Persisted();

    view.LoadEvents();
    assert view.events[0].records == [jan1, jan10];
  }
}
