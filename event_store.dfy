/**
 The data operations of the main screen, as pure functions over the event
 collection: the day count between two dates, records newest first, the gap to
 the chronologically previous record, the title search, and the new collection
 each mutating operation of the screen produces.
 */
module EventStore {

  import opened Options
  import opened Models
  import opened Text

  // ---------------------------------------------------------------------------
  // Day counting
  // ---------------------------------------------------------------------------

  const SecondsPerDay := 86400

  /**
   `daysBetween(start:end:)`: the number of whole days that elapse from `start` to
   `end`, truncated toward zero: never positive when `end` is earlier, and negative
   once `end` is a whole day or more earlier.
   */
  function DaysBetween(start: Date, end: Date): (d: int)
    ensures start <= end ==> 0 <= d && d * SecondsPerDay <= end - start < (d + 1) * SecondsPerDay
    ensures end < start ==> d <= 0 && -d * SecondsPerDay <= start - end < (1 - d) * SecondsPerDay
  {
    if start <= end then (end - start) / SecondsPerDay else -((start - end) / SecondsPerDay)
  }

  /** Swapping the two dates negates the day count. */
  lemma DaysBetweenAntisymmetric(start: Date, end: Date)
    ensures DaysBetween(end, start) == -DaysBetween(start, end)
  {
  }

  /** A later end date never gives fewer days. */
  lemma DaysBetweenMonotone(start: Date, end1: Date, end2: Date)
    requires end1 <= end2
    ensures DaysBetween(start, end1) <= DaysBetween(start, end2)
  {
  }

  // ---------------------------------------------------------------------------
  // Records, newest first
  // ---------------------------------------------------------------------------

  /** Dates never increase along the list. */
  predicate NewestFirst(rs: seq<EventRecord>)
  {
    forall i, j :: 0 <= i < j < |rs| ==> rs[i].date >= rs[j].date
  }

  /** Putting a record in front of a newest-first list of records no newer than it keeps it newest first. */
  lemma NewestFirstCons(h: EventRecord, t: seq<EventRecord>)
    requires NewestFirst(t)
    requires forall k :: 0 <= k < |t| ==> t[k].date <= h.date
    ensures NewestFirst([h] + t)
  {
    var s := [h] + t;
    forall i, j | 0 <= i < j < |s| ensures s[i].date >= s[j].date {
      assert s[j] == t[j - 1];
      if i > 0 { assert s[i] == t[i - 1]; }
    }
  }

  /** If `rs` and `x` are no newer than `bound`, neither is any list with their records. */
  lemma NoNewerThan(r: seq<EventRecord>, rs: seq<EventRecord>, x: EventRecord, bound: Date)
    requires multiset(r) == multiset(rs) + multiset{x}
    requires x.date <= bound
    requires forall k :: 0 <= k < |rs| ==> rs[k].date <= bound
    ensures forall k :: 0 <= k < |r| ==> r[k].date <= bound
  {
    forall k | 0 <= k < |r| ensures r[k].date <= bound {
      assert r[k] in multiset(r);
      if r[k] != x {
        assert r[k] in multiset(rs);
        var m :| 0 <= m < |rs| && rs[m] == r[k];
      }
    }
  }

  /** Puts `x` into a newest-first list, before the first record that is strictly older. */
  function InsertByDate(x: EventRecord, rs: seq<EventRecord>): (r: seq<EventRecord>)
    requires NewestFirst(rs)
    ensures NewestFirst(r)
    ensures multiset(r) == multiset(rs) + multiset{x}
  {
    if rs == [] || x.date >= rs[0].date then
      NewestFirstCons(x, rs);
      [x] + rs
    else
      var tail := rs[1..];
      NewestFirstTail(rs);
      var rest := InsertByDate(x, tail);
      assert forall k :: 0 <= k < |tail| ==> tail[k] == rs[k + 1];
      NoNewerThan(rest, tail, x, rs[0].date);
      NewestFirstCons(rs[0], rest);
      assert rs == [rs[0]] + tail;
      [rs[0]] + rest
  }

  /** An insertion sort by date, newest first. */
  function SortByDate(rs: seq<EventRecord>): (r: seq<EventRecord>)
    ensures NewestFirst(r)
    ensures multiset(r) == multiset(rs)
  {
    if rs == [] then []
    else
      assert rs == [rs[0]] + rs[1..];
      InsertByDate(rs[0], SortByDate(rs[1..]))
  }

  /**
   `sortedRecords(for:)`: the event's records reordered newest first. `sorted(by:)`
   is not guaranteed stable, so the model promises nothing about the order of records
   that share a date.
   */
  function SortedRecords(e: Event): (r: seq<EventRecord>)
    ensures |r| == |e.records|
    ensures multiset(r) == multiset(e.records)
    ensures NewestFirst(r)
  {
    var r := SortByDate(e.records);
    assert |multiset(r)| == |multiset(e.records)|;
    r
  }

  /** The dates of a list of records, in order. */
  function Dates(rs: seq<EventRecord>): (ds: seq<Date>)
    ensures |ds| == |rs|
    ensures forall i :: 0 <= i < |rs| ==> ds[i] == rs[i].date
  {
    seq(|rs|, i requires 0 <= i < |rs| => rs[i].date)
  }

  /**
   Moving a record that shares the first record's date to the front keeps the list
   newest first, keeps its records and keeps its dates.
   */
  lemma MoveToFront(b: seq<EventRecord>, k: nat) returns (b': seq<EventRecord>)
    requires NewestFirst(b) && k < |b| && b[k].date == b[0].date
    ensures b' != [] && b'[0] == b[k]
    ensures multiset(b') == multiset(b) && NewestFirst(b') && Dates(b') == Dates(b)
  {
    var front, back := b[..k], b[k + 1..];
    b' := [b[k]] + front + back;
    assert |b'| == |b|;
    forall i | 0 <= i < |b| ensures b'[i].date == b[i].date {
      if 0 < i <= k {
        assert b'[i] == front[i - 1] == b[i - 1];
        assert b[0].date >= b[i - 1].date >= b[k].date;
        assert b[0].date >= b[i].date >= b[k].date;
      } else if k < i {
        assert b'[i] == back[i - k - 1] == b[i];
      }
    }
    assert Dates(b') == Dates(b);
    NewestFirstByDates(b, b');
    assert b == front + [b[k]] + back;
    assert multiset(b) == multiset(front) + multiset{b[k]} + multiset(back);
    assert multiset(b') == multiset{b[k]} + multiset(front) + multiset(back);
  }

  /** Whether a list is newest first depends only on its dates. */
  lemma NewestFirstByDates(a: seq<EventRecord>, b: seq<EventRecord>)
    requires Dates(a) == Dates(b) && NewestFirst(a)
    ensures NewestFirst(b)
  {
    forall i, j | 0 <= i < j < |b| ensures b[i].date >= b[j].date {
      assert Dates(a)[i] == Dates(b)[i] && Dates(a)[j] == Dates(b)[j];
    }
  }

  /**
   Any two newest-first orderings of the same records show the same dates in the same
   order: the tie order the sort leaves open never changes the date column.
   */
  lemma {:induction false} NewestFirstDatesDetermined(a: seq<EventRecord>, b: seq<EventRecord>)
    requires multiset(a) == multiset(b)
    requires NewestFirst(a) && NewestFirst(b)
    ensures Dates(a) == Dates(b)
    decreases |a|
  {
    assert |multiset(a)| == |multiset(b)|;
    if a != [] {
      var k := FirstDatesAgree(a, b);
      var b' := MoveToFront(b, k);
      var ta, tb := a[1..], b'[1..];
      TailMultiset(a);
      TailMultiset(b');
      assert multiset(ta) == multiset(tb);
      NewestFirstTail(a);
      NewestFirstTail(b');
      NewestFirstDatesDetermined(ta, tb);
      DatesCons(a);
      DatesCons(b');
    }
  }

  /** A tail of a newest-first list is newest first. */
  lemma NewestFirstTail(s: seq<EventRecord>)
    requires s != [] && NewestFirst(s)
    ensures NewestFirst(s[1..])
  {
    forall i, j | 0 <= i < j < |s| - 1 ensures s[1..][i].date >= s[1..][j].date {
      assert s[1..][i] == s[i + 1] && s[1..][j] == s[j + 1];
    }
  }

  /** The dates of a non-empty list are its first date followed by the dates of its tail. */
  lemma DatesCons(s: seq<EventRecord>)
    requires s != []
    ensures Dates(s) == [s[0].date] + Dates(s[1..])
  {
  }

  /** Dropping the first element of a sequence drops one occurrence of it. */
  lemma TailMultiset<T>(s: seq<T>)
    requires s != []
    ensures multiset(s[1..]) == multiset(s) - multiset{s[0]}
  {
    assert s == [s[0]] + s[1..];
  }

  /** The first records of two newest-first orderings of the same records share a date. */
  lemma FirstDatesAgree(a: seq<EventRecord>, b: seq<EventRecord>) returns (k: nat)
    requires multiset(a) == multiset(b) && a != []
    requires NewestFirst(a) && NewestFirst(b)
    ensures k < |b| && b[k] == a[0] && b[k].date == b[0].date
  {
    assert a[0] in multiset(b);
    k :| 0 <= k < |b| && b[k] == a[0];
    assert b[0] in multiset(a);
    var m :| 0 <= m < |a| && a[m] == b[0];
    assert a[0].date >= a[m].date;
    assert b[0].date >= b[k].date;
  }

  // ---------------------------------------------------------------------------
  // Days from the chronologically previous record
  // ---------------------------------------------------------------------------

  /**
   The record first found under a record's identifier in the newest-first list is a
   record of the event, and when the identifiers of the event's records are distinct
   and the record is one of them, it is that record.
   */
  lemma FoundInSorted(e: Event, record: EventRecord, i: nat)
    requires FirstIndexOf(SortedRecords(e), record.id, RecordId) == Some(i)
    ensures SortedRecords(e)[i] in e.records
    ensures record in e.records && IdsUnique(e.records, RecordId) ==> SortedRecords(e)[i] == record
  {
    var sorted := SortedRecords(e);
    assert sorted[i] in multiset(e.records);
    if record in e.records && IdsUnique(e.records, RecordId) {
      var m :| 0 <= m < |e.records| && e.records[m] == sorted[i];
      var n :| 0 <= n < |e.records| && e.records[n] == record;
      assert RecordId(e.records[m]) == RecordId(e.records[n]);
    }
  }

  /**
   `daysFromPreviousRecord`: find the record by identifier in the newest-first list;
   if a record follows it there (the one logged before it), the days from that one
   to this one, otherwise 0. A record whose identifier the event does not hold gives
   0, and one the event holds, with record identifiers distinct, never gives a
   negative count.
   */
  function DaysFromPreviousRecord(e: Event, record: EventRecord): (d: int)
    ensures (forall r :: r in e.records ==> r.id != record.id) ==> d == 0
    ensures record in e.records && IdsUnique(e.records, RecordId) ==> d >= 0
  {
    var sorted := SortedRecords(e);
    match FirstIndexOf(sorted, record.id, RecordId)
    case None => 0
    case Some(i) =>
      FoundInSorted(e, record, i);
      if i < |sorted| - 1 then DaysBetween(sorted[i + 1].date, record.date) else 0
  }

  /** A record of the event sits at the position where the newest-first list first shows its id. */
  lemma PositionInSorted(e: Event, record: EventRecord) returns (i: nat)
    requires record in e.records && IdsUnique(e.records, RecordId)
    ensures i < |SortedRecords(e)|
    ensures FirstIndexOf(SortedRecords(e), record.id, RecordId) == Some(i)
    ensures SortedRecords(e)[i] == record
  {
    var sorted := SortedRecords(e);
    assert record in multiset(sorted);
    var k :| 0 <= k < |sorted| && sorted[k] == record;
    assert RecordId(sorted[k]) == record.id;
    i := FirstIndexOf(sorted, record.id, RecordId).value;
    FoundInSorted(e, record, i);
  }

  /** A record that no other record of the event predates is 0 days from a previous one. */
  lemma DaysFromPreviousOldest(e: Event, record: EventRecord)
    requires record in e.records && IdsUnique(e.records, RecordId)
    requires forall q :: q in e.records ==> record.date <= q.date
    ensures DaysFromPreviousRecord(e, record) == 0
  {
    var sorted := SortedRecords(e);
    var i := PositionInSorted(e, record);
    if i < |sorted| - 1 {
      assert sorted[i + 1] in multiset(e.records);
    }
  }

  /**
   In a newest-first list, the record right after position `i` is not newer than the
   one at `i` and is at least as new as every record strictly older than it.
   */
  lemma NextIsPrevious(sorted: seq<EventRecord>, i: nat)
    requires NewestFirst(sorted) && i + 1 < |sorted|
    ensures sorted[i + 1].date <= sorted[i].date
    ensures forall q :: q in sorted && q.date < sorted[i].date ==> q.date <= sorted[i + 1].date
  {
    forall q | q in sorted && q.date < sorted[i].date ensures q.date <= sorted[i + 1].date {
      var m :| 0 <= m < |sorted| && sorted[m] == q;
      assert i < m;
    }
  }

  /**
   When some record of the event is strictly older, the count is the days from
   another record `p` that is not newer than `record` and is at least as new as every
   strictly older record: the chronologically previous one, or a record sharing
   `record`'s date when the open tie order puts one after it.
   */
  lemma DaysFromPreviousGap(e: Event, record: EventRecord, older: EventRecord)
    requires record in e.records && IdsUnique(e.records, RecordId)
    requires older in e.records && older.date < record.date
    ensures exists p :: (p in e.records && p != record && p.date <= record.date
      && (forall q :: q in e.records && q.date < record.date ==> q.date <= p.date)
      && DaysFromPreviousRecord(e, record) == DaysBetween(p.date, record.date))
  {
    var sorted := SortedRecords(e);
    var i := PositionInSorted(e, record);
    var p := PreviousInSorted(e.records, sorted, i, older);
    DaysFromPreviousAt(e, record, i);
    NextIsOther(e.records, sorted, i);
    assert p in e.records && p != record && p.date <= record.date;
  }

  /** With distinct identifiers, no record occurs twice. */
  lemma {:induction false} IdsUniqueOnce(rs: seq<EventRecord>, x: EventRecord)
    requires IdsUnique(rs, RecordId)
    ensures multiset(rs)[x] <= 1
  {
    if rs != [] {
      var t := rs[1..];
      assert rs == [rs[0]] + t;
      assert IdsUnique(t, RecordId) by {
        forall a, b | 0 <= a < b < |t| ensures RecordId(t[a]) != RecordId(t[b]) {
          assert t[a] == rs[a + 1] && t[b] == rs[b + 1];
        }
      }
      IdsUniqueOnce(t, x);
    }
  }

  /**
   In an ordering of records with distinct identifiers, the record after position `i`
   is a different record from the one at `i`.
   */
  lemma NextIsOther(rs: seq<EventRecord>, sorted: seq<EventRecord>, i: nat)
    requires multiset(sorted) == multiset(rs) && IdsUnique(rs, RecordId) && i + 1 < |sorted|
    ensures sorted[i + 1] != sorted[i]
  {
    if sorted[i + 1] == sorted[i] {
      var x := sorted[i];
      assert sorted == sorted[..i] + [x, x] + sorted[i + 2..];
      assert multiset(sorted)[x] >= 2;
      IdsUniqueOnce(rs, x);
    }
  }

  /**
   In a newest-first ordering of `rs`, when a strictly older record exists the record
   right after position `i` is a record of `rs` that is not newer than the one at `i`
   and at least as new as every strictly older one.
   */
  lemma PreviousInSorted(rs: seq<EventRecord>, sorted: seq<EventRecord>, i: nat, older: EventRecord) returns (p: EventRecord)
    requires multiset(sorted) == multiset(rs) && NewestFirst(sorted) && i < |sorted|
    requires older in rs && older.date < sorted[i].date
    ensures i + 1 < |sorted| && p == sorted[i + 1]
    ensures p in rs && p.date <= sorted[i].date
    ensures forall q :: q in rs && q.date < sorted[i].date ==> q.date <= p.date
  {
    assert older in multiset(sorted);
    var k := IndexOf(sorted, older);
    assert i < k;
    NextIsPrevious(sorted, i);
    p := sorted[i + 1];
    assert p in multiset(rs);
    forall q | q in rs && q.date < sorted[i].date ensures q.date <= p.date {
      assert q in multiset(sorted);
    }
  }

  /** A record of the newest-first list sits at some position of it. */
  lemma IndexOf(sorted: seq<EventRecord>, q: EventRecord) returns (k: nat)
    requires q in sorted
    ensures k < |sorted| && sorted[k] == q
  {
    k :| 0 <= k < |sorted| && sorted[k] == q;
  }

  /** When a record follows position `i`, the count is the days from that record. */
  lemma DaysFromPreviousAt(e: Event, record: EventRecord, i: nat)
    requires FirstIndexOf(SortedRecords(e), record.id, RecordId) == Some(i)
    requires i + 1 < |SortedRecords(e)|
    ensures DaysFromPreviousRecord(e, record) == DaysBetween(SortedRecords(e)[i + 1].date, record.date)
  {
  }

  /**
   Records on 1 and 10 January 2024 (midnight UTC) list newest first; the later one is
   9 days from the earlier, and the earlier, having nothing before it, 0.
   */
  lemma NineDaysBetweenTwoRecords()
    ensures var jan1, jan10 := EventRecord(10, 1704067200, ""), EventRecord(11, 1704844800, "");
      var e := NewEvent(1, "Running", [jan1, jan10]);
      && SortedRecords(e) == [jan10, jan1]
      && DaysFromPreviousRecord(e, jan10) == 9
      && DaysFromPreviousRecord(e, jan1) == 0
  {
    var jan1, jan10 := EventRecord(10, 1704067200, ""), EventRecord(11, 1704844800, "");
    assert SortByDate([jan10]) == [jan10];
    assert SortByDate([jan1, jan10]) == InsertByDate(jan1, [jan10]);
  }

  // ---------------------------------------------------------------------------
  // Title search
  // ---------------------------------------------------------------------------

  /** `a` can be obtained from `b` by deleting elements, without reordering. */
  predicate IsSubsequence<T(==)>(a: seq<T>, b: seq<T>)
    decreases |b|
  {
    a == [] || (b != [] && ((a[0] == b[0] && IsSubsequence(a[1..], b[1..])) || IsSubsequence(a, b[1..])))
  }

  /**
   `events.filter { $0.title.localizedCaseInsensitiveContains(query) }`: the events
   whose title matches, in their original order, each as often as it occurs.
   */
  function FilterByTitle(es: seq<Event>, query: string): (r: seq<Event>)
    ensures IsSubsequence(r, es)
    ensures forall e :: multiset(r)[e] == if MatchesIgnoringCase(e.title, query) then multiset(es)[e] else 0
  {
    if es == [] then []
    else
      var rest := FilterByTitle(es[1..], query);
      assert es == [es[0]] + es[1..];
      if MatchesIgnoringCase(es[0].title, query) then [es[0]] + rest else rest
  }

  /** An event is in the search result exactly when it is in the collection and its title matches. */
  lemma FilterByTitleMembers(es: seq<Event>, query: string, e: Event)
    ensures e in FilterByTitle(es, query) <==> e in es && MatchesIgnoringCase(e.title, query)
  {
  }

  // ---------------------------------------------------------------------------
  // The collections the mutating operations produce
  // ---------------------------------------------------------------------------

  /**
   `toggleExpand(for:)`: the first event with identifier `id` has its display flag
   flipped; every other event, and everything else about that one, stays as it was.
   Without such an event the collection is unchanged.
   */
  function ToggleExpanded(es: seq<Event>, id: Uuid): (r: seq<Event>)
    ensures |r| == |es| && Ids(r, EventId) == Ids(es, EventId)
    ensures (forall j :: 0 <= j < |es| ==> es[j].id != id) ==> r == es
    ensures forall k :: 0 <= k < |es| && es[k].id == id && (forall j :: 0 <= j < k ==> es[j].id != id) ==>
      r[k] == es[k].(isExpanded := !es[k].isExpanded)
      && forall j :: 0 <= j < |es| && j != k ==> r[j] == es[j]
  {
    match FirstIndexOf(es, id, EventId)
    case None => es
    case Some(k) => es[k := es[k].(isExpanded := !es[k].isExpanded)]
  }

  /** Toggling keeps the identifier invariant. */
  lemma ToggleExpandedKeepsUniqueIds(es: seq<Event>, id: Uuid)
    requires UniqueIds(es)
    ensures UniqueIds(ToggleExpanded(es, id))
  {
    var r := ToggleExpanded(es, id);
    forall i, j | 0 <= i < j < |r| ensures EventId(r[i]) != EventId(r[j]) {
      assert Ids(r, EventId)[i] == Ids(es, EventId)[i] && Ids(r, EventId)[j] == Ids(es, EventId)[j];
    }
    forall i | 0 <= i < |r| ensures IdsUnique(r[i].records, RecordId) {
      assert r[i].records == es[i].records;
    }
  }

  /** Toggling the same event twice restores the collection. */
  lemma ToggleExpandedTwice(es: seq<Event>, id: Uuid)
    ensures ToggleExpanded(ToggleExpanded(es, id), id) == es
  {
    var once := ToggleExpanded(es, id);
    FirstIndexOfByIds(es, once, id, EventId);
    match FirstIndexOf(es, id, EventId)
    case None =>
    case Some(k) =>
      assert once == es[k := es[k].(isExpanded := !es[k].isExpanded)];
  }

  /** The indices below `n` that are not in `offsets`, in increasing order. */
  function Kept(n: nat, offsets: set<nat>): (ks: seq<nat>)
    ensures forall k :: 0 <= k < |ks| ==> ks[k] < n && ks[k] !in offsets
    ensures forall k1, k2 :: 0 <= k1 < k2 < |ks| ==> ks[k1] < ks[k2]
    ensures forall i :: 0 <= i < n && i !in offsets ==> i in ks
  {
    if n == 0 then [] else Kept(n - 1, offsets) + (if n - 1 in offsets then [] else [n - 1])
  }

  /** Which indices are kept below `n` depends only on the offsets below `n`. */
  lemma {:induction false} KeptBelow(n: nat, a: set<nat>, b: set<nat>)
    requires forall i :: 0 <= i < n ==> (i in a <==> i in b)
    ensures Kept(n, a) == Kept(n, b)
  {
    if n > 0 {
      KeptBelow(n - 1, a, b);
    }
  }

  /** Removing offsets that are all in range keeps `n - |offsets|` indices. */
  lemma {:induction false} KeptLength(n: nat, offsets: set<nat>)
    requires forall o :: o in offsets ==> o < n
    ensures |Kept(n, offsets)| == n - |offsets|
  {
    if n == 0 {
      assert offsets == {} by {
        forall o | o in offsets ensures false { }
      }
    } else {
      var below := offsets - {n - 1};
      KeptLength(n - 1, below);
      KeptBelow(n - 1, offsets, below);
      if n - 1 in offsets {
        assert offsets == below + {n - 1};
      } else {
        assert below == offsets;
      }
    }
  }

  /**
   `remove(atOffsets:)`: the elements whose positions are not in `offsets`, in their
   original order.
   */
  function RemoveAtOffsets<T>(s: seq<T>, offsets: set<nat>): (r: seq<T>)
    ensures |r| <= |s|
    ensures multiset(r) <= multiset(s)
    decreases |s|
  {
    if s == [] then []
    else
      assert s == s[..|s| - 1] + [s[|s| - 1]];
      RemoveAtOffsets(s[..|s| - 1], offsets) + (if |s| - 1 in offsets then [] else [s[|s| - 1]])
  }

  /** The survivors of `RemoveAtOffsets` are exactly the elements at the kept indices. */
  lemma {:induction false} RemoveAtOffsetsPicksKept<T>(s: seq<T>, offsets: set<nat>)
    ensures |RemoveAtOffsets(s, offsets)| == |Kept(|s|, offsets)|
    ensures forall k :: 0 <= k < |RemoveAtOffsets(s, offsets)| ==>
      RemoveAtOffsets(s, offsets)[k] == s[Kept(|s|, offsets)[k]]
    decreases |s|
  {
    if s != [] {
      var init := s[..|s| - 1];
      RemoveAtOffsetsPicksKept(init, offsets);
      var r, r' := RemoveAtOffsets(s, offsets), RemoveAtOffsets(init, offsets);
      var ks, ks' := Kept(|s|, offsets), Kept(|init|, offsets);
      assert r == r' + (if |s| - 1 in offsets then [] else [s[|s| - 1]]);
      assert ks == ks' + (if |s| - 1 in offsets then [] else [|s| - 1]);
      forall k | 0 <= k < |r| ensures r[k] == s[ks[k]] {
        if k < |r'| {
          assert r[k] == r'[k] == init[ks'[k]];
        }
      }
    }
  }

  /**
   Deleting at a set of in-range offsets removes exactly those positions: the result
   is one shorter per offset, and its elements are the elements of the other
   positions, in increasing order of position.
   */
  lemma RemoveAtOffsetsSpec<T>(s: seq<T>, offsets: set<nat>)
    requires forall o :: o in offsets ==> o < |s|
    ensures var r, ks := RemoveAtOffsets(s, offsets), Kept(|s|, offsets);
      && |r| == |s| - |offsets| && |ks| == |r|
      && (forall i :: i in ks <==> 0 <= i < |s| && i !in offsets)
      && (forall k1, k2 :: 0 <= k1 < k2 < |ks| ==> ks[k1] < ks[k2])
      && (forall k :: 0 <= k < |r| ==> r[k] == s[ks[k]])
  {
    KeptLength(|s|, offsets);
    RemoveAtOffsetsPicksKept(s, offsets);
  }

  /** Deleting keeps the identifiers of the survivors distinct. */
  lemma RemoveAtOffsetsKeepsIdsUnique<T>(s: seq<T>, offsets: set<nat>, idOf: T -> Uuid)
    requires IdsUnique(s, idOf)
    ensures IdsUnique(RemoveAtOffsets(s, offsets), idOf)
  {
    RemoveAtOffsetsPicksKept(s, offsets);
  }

  /** Deleting events keeps the identifier invariant. */
  lemma RemoveAtOffsetsKeepsUniqueIds(es: seq<Event>, offsets: set<nat>)
    requires UniqueIds(es)
    ensures UniqueIds(RemoveAtOffsets(es, offsets))
  {
    var r := RemoveAtOffsets(es, offsets);
    RemoveAtOffsetsKeepsIdsUnique(es, offsets, EventId);
    RemoveAtOffsetsPicksKept(es, offsets);
    forall i | 0 <= i < |r| ensures IdsUnique(r[i].records, RecordId) {
      assert r[i] == es[Kept(|es|, offsets)[i]];
    }
  }

  /** Giving one event new records with distinct identifiers keeps the identifier invariant. */
  lemma WithRecordsKeepsUniqueIds(es: seq<Event>, k: nat, rs: seq<EventRecord>)
    requires UniqueIds(es) && k < |es| && IdsUnique(rs, RecordId)
    ensures UniqueIds(es[k := es[k].(records := rs)])
  {
    var r := es[k := es[k].(records := rs)];
    forall i, j | 0 <= i < j < |r| ensures EventId(r[i]) != EventId(r[j]) {
      assert EventId(r[i]) == EventId(es[i]) && EventId(r[j]) == EventId(es[j]);
    }
  }

  /** `records.remove(at:)`: the list without position `i`, everything after it moved up by one. */
  function RemoveRecordAt(rs: seq<EventRecord>, i: nat): (r: seq<EventRecord>)
    requires i < |rs|
    ensures |r| == |rs| - 1
    ensures forall k :: 0 <= k < i ==> r[k] == rs[k]
    ensures forall k :: i <= k < |r| ==> r[k] == rs[k + 1]
    ensures multiset(r) + multiset{rs[i]} == multiset(rs)
  {
    assert rs == rs[..i] + [rs[i]] + rs[i + 1..];
    rs[..i] + rs[i + 1..]
  }

  /**
   The record-save step of the record editor: when editing and the selected identifier
   is found among the records, the first record with it is replaced in place by
   `draft`; otherwise `draft` is appended.
   */
  function SavedRecords(rs: seq<EventRecord>, isEditing: bool, selected: Option<Uuid>, draft: EventRecord): (r: seq<EventRecord>)
    ensures isEditing && selected.Some? ==>
      forall k :: 0 <= k < |rs| && rs[k].id == selected.value && (forall j :: 0 <= j < k ==> rs[j].id != selected.value) ==>
        r == rs[k := draft]
    ensures !(isEditing && selected.Some? && exists k :: 0 <= k < |rs| && rs[k].id == selected.value) ==>
      r == rs + [draft]
  {
    if isEditing && selected.Some? && FirstIndexOf(rs, selected.value, RecordId).Some? then
      rs[FirstIndexOf(rs, selected.value, RecordId).value := draft]
    else
      rs + [draft]
  }

  /**
   Saving a record adds one record or replaces one: the count stays the same exactly
   when an existing record was edited, and `draft` is among the records afterwards.
   When the draft keeps the identifier of the record it edits, no identifier changes.
   */
  lemma SavedRecordsCount(rs: seq<EventRecord>, isEditing: bool, selected: Option<Uuid>, draft: EventRecord)
    ensures draft in SavedRecords(rs, isEditing, selected, draft)
    ensures var r := SavedRecords(rs, isEditing, selected, draft);
      if isEditing && selected.Some? && (exists k :: 0 <= k < |rs| && rs[k].id == selected.value)
      then |r| == |rs| && (selected.value == draft.id ==> Ids(r, RecordId) == Ids(rs, RecordId))
      else |r| == |rs| + 1 && r[..|rs|] == rs
  {
    if isEditing && selected.Some? && (exists k :: 0 <= k < |rs| && rs[k].id == selected.value) {
      var k := FirstIndexOf(rs, selected.value, RecordId).value;
      assert SavedRecords(rs, isEditing, selected, draft)[k] == draft;
    } else {
      var r := SavedRecords(rs, isEditing, selected, draft);
      assert r[|rs|] == draft;
    }
  }

  /** Removing a record keeps the identifiers of the remaining records distinct. */
  lemma RemoveRecordAtKeepsIdsUnique(rs: seq<EventRecord>, i: nat)
    requires i < |rs| && IdsUnique(rs, RecordId)
    ensures IdsUnique(RemoveRecordAt(rs, i), RecordId)
  {
    var r := RemoveRecordAt(rs, i);
    forall a, b | 0 <= a < b < |r| ensures RecordId(r[a]) != RecordId(r[b]) {
      var a', b' := if a < i then a else a + 1, if b < i then b else b + 1;
      assert r[a] == rs[a'] && r[b] == rs[b'];
    }
  }

  /**
   Saving keeps the identifiers of the records distinct when the draft brings a new
   identifier, or when it edits the selected record and keeps that record's
   identifier, as the editor does.
   */
  lemma SavedRecordsKeepsIdsUnique(rs: seq<EventRecord>, isEditing: bool, selected: Option<Uuid>, draft: EventRecord)
    requires IdsUnique(rs, RecordId)
    requires (forall j :: 0 <= j < |rs| ==> rs[j].id != draft.id) || (isEditing && selected == Some(draft.id))
    ensures IdsUnique(SavedRecords(rs, isEditing, selected, draft), RecordId)
  {
    var r := SavedRecords(rs, isEditing, selected, draft);
    if isEditing && selected.Some? && FirstIndexOf(rs, selected.value, RecordId).Some? {
      SavedRecordsCount(rs, isEditing, selected, draft);
      if selected.value == draft.id {
        forall a, b | 0 <= a < b < |r| ensures RecordId(r[a]) != RecordId(r[b]) {
          assert Ids(r, RecordId)[a] == Ids(rs, RecordId)[a] && Ids(r, RecordId)[b] == Ids(rs, RecordId)[b];
        }
      } else {
        var k := FirstIndexOf(rs, selected.value, RecordId).value;
        assert RecordId(rs[k]) == selected.value;
      }
    } else {
      assert r == rs + [draft];
      forall a, b | 0 <= a < b < |r| ensures RecordId(r[a]) != RecordId(r[b]) {
        if b == |rs| {
          assert r[a] == rs[a] && r[b] == draft;
        } else {
          assert r[a] == rs[a] && r[b] == rs[b];
        }
      }
    }
  }
}
