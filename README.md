# DaysTracker event store, modelled in Dafny

DaysTracker is an iOS app for tracking "days since X happened". The user keeps a list
of named events and logs dated records against each one. For every record the app
shows how many days passed since the record before it. This project models the app's
logic. That is the event store behind the main screen (`ContentView`), the two value
types it stores (`Event`, `EventRecord`) and the two-language toggle (`LocaleManager`).
Both objects persist through the same preference store (`UserDefaults`).

Modules, one file each:

- `Options` (options.dfy): Swift's optional values.
- `Models` (models.dfy): `Event`, `EventRecord` and their initialisers. It also holds the lookup by identifier (`firstIndex(where: { $0.id == id })`), written once for events and records, and the identifier invariant `UniqueIds`: no two events share an id, and no two records of one event do.
- `Text` (text.dfy): trimming white space and line breaks, ASCII case folding, and case-insensitive substring search.
- `Storage` (storage.dfy): an abstract JSON codec and the preference store. The store is a class with a key-to-value map, and both objects share it.
- `EventStore` (event_store.dfy): the screen's pure operations. These are the day count, records sorted newest first, days from the previous record, and the title search. It also holds, as functions, the collection that toggling, deleting events, deleting a record and saving a record produce, with the lemmas about them.
- `ContentViewModel` (content_view.dfy): the screen as a class. Its fields are the screen's `@State` variables. Its methods are the operations that update them. Every assignment to `events` goes through `SetEvents`, which models the `didSet` observer that writes the whole collection under the key `"events"`.
- `Locale` (locale_manager.dfy): `LocaleManager` as a class with a write-through setter.

Modelling choices:

- A `Date` is whole seconds on one time line. `daysBetween` is the number of whole 86400-second days from start to end, truncated toward zero. This is what `dateComponents([.day], from:to:)` computes in a time zone without daylight-saving changes. The code does not round to the start of a calendar day, so the model does not either.
- A `UUID` is a natural number. `UUID()` and `Date()` are not modelled as calls: the caller passes the identifier or time they would produce.
- The model follows the code as written:
  - `loadEvents` leaves the collection unchanged when nothing decodes.
  - An all-white-space title is ignored.
  - Toggling an unknown id does nothing.
  - The sort's tie order is left open.
- Swift traps on an out-of-range array index. So `deleteRecord`, `daysFromPreviousRecord` and the editor's save action, which index `events` or `records` directly, require their indices to be in range. `deleteEvents` requires every offset to be in range, because `remove(atOffsets:)` traps on an offset past the end.
- Every operation that changes the collection, except `loadEvents`, is proved to keep `UniqueIds`. `loadEvents` takes whatever decodes, as `JSONDecoder` does at ContentView.swift:217. Adding needs a fresh event id. Saving a record needs a fresh record id, or that the editor is editing the selected record and the draft keeps its id; the editor's closures set up exactly these cases.

## Model

| member | source | states |
|---|---|---|
| Models.NewEvent | DaysTracker/Models/Models.swift:9-14 | the event holds exactly the given id, title, records and flag; records default to none and the flag to collapsed |
| Models.NewEventRecord | DaysTracker/Models/Models.swift:22-26 | the record holds exactly the given id, date and note |
| Models.NewEventDefaults | DaysTracker/Models/Models.swift:9 | an event made from an id and a title has no records and is collapsed |
| Models.FirstIndexOf | DaysTracker/Views/ContentView.swift:173 | the position found holds the id and no earlier position does; nothing is found exactly when no element has the id |
| Models.FirstIndexOfUnique | DaysTracker/Views/ContentView.swift:188 | when ids are distinct, the lookup finds each element at its own position |
| Text.IsWhitespaceOrNewline | DaysTracker/Views/ContentView.swift:162 | the characters `.whitespacesAndNewlines` trims: the Unicode separators of category Z, the controls U+0009 to U+000D, and U+0085 |
| Text.Trim | DaysTracker/Views/ContentView.swift:162 | the result is a contiguous piece of the input; everything cut off is white space or line breaks; the result starts and ends with neither; it is empty exactly when the input is all white space |
| Text.TrimIdempotent | DaysTracker/Views/ContentView.swift:162 | trimming a trimmed title changes nothing |
| Text.ContainsIffOccurs | DaysTracker/Views/ContentView.swift:226 | the substring search succeeds exactly when the query occurs at some position of the text |
| Text.MatchesIgnoringCase | DaysTracker/Views/ContentView.swift:226 | a title matches exactly when the query is non-empty and the case-folded query occurs at some position of the case-folded title; a match is never longer than the title |
| Text.ExactOccurrenceMatches | DaysTracker/Views/ContentView.swift:226 | a title that contains a non-empty query verbatim matches it |
| Text.MatchingIgnoresCase | DaysTracker/Views/ContentView.swift:226 | matching is unaffected by the ASCII case of the title or of the query |
| Storage.Encode | DaysTracker/Views/ContentView.swift:210 | encoding the collection never fails and decodes back to the same collection |
| Storage.Decode | DaysTracker/Views/ContentView.swift:217 | decoding fails exactly on malformed data |
| Storage.Defaults.DataFor | DaysTracker/Views/ContentView.swift:216 | binary data is returned exactly when the key holds binary data, and it is that data |
| Storage.Defaults.StringFor | DaysTracker/Views/LocaleManager.swift:13 | a string is returned exactly when the key holds a string, and it is that string |
| Storage.Defaults.Set | DaysTracker/Views/ContentView.swift:211 | the key holds the new value and every other key is unchanged |
| EventStore.DaysBetween | DaysTracker/Views/ContentView.swift:196-199 | the count is the number of whole days elapsed: d days fit into the gap and d + 1 do not; it is never positive when the end is earlier, and negative once the end is a whole day or more earlier |
| EventStore.DaysBetweenAntisymmetric | DaysTracker/Views/ContentView.swift:196-199 | swapping start and end negates the count |
| EventStore.DaysBetweenMonotone | DaysTracker/Views/ContentView.swift:196-199 | a later end never gives fewer days |
| EventStore.InsertByDate | DaysTracker/Views/ContentView.swift:183 | inserting into a newest-first list keeps it newest first and adds exactly the one record |
| EventStore.SortByDate | DaysTracker/Views/ContentView.swift:183 | the result is newest first and a permutation of the input |
| EventStore.SortedRecords | DaysTracker/Views/ContentView.swift:182-184 | the event's records, same length, same multiset, dates non-increasing |
| EventStore.NewestFirstDatesDetermined | DaysTracker/Views/ContentView.swift:183 | any two newest-first orderings of the same records list the same dates in the same order, so the open tie order never changes the dates shown |
| EventStore.DaysFromPreviousRecord | DaysTracker/Views/ContentView.swift:186-194 | a record whose id the event does not hold gives 0; a record the event holds, with record ids distinct, never gives a negative count |
| EventStore.DaysFromPreviousOldest | DaysTracker/Views/ContentView.swift:189-193 | a record that no other record predates gives 0 |
| EventStore.DaysFromPreviousGap | DaysTracker/Views/ContentView.swift:189-191 | when an older record exists, the count is the days from another record of the event that is not newer than this one and is at least as new as every strictly older record |
| EventStore.NineDaysBetweenTwoRecords | DaysTracker/Views/ContentView.swift:182-199 | records on 1 and 10 January 2024 sort newest first; the later is 9 days from the earlier, and the earlier gives 0 |
| EventStore.FilterByTitle | DaysTracker/Views/ContentView.swift:226 | the result is an order-preserving subsequence of the events; each matching event occurs as often as in the input and no other event occurs |
| EventStore.FilterByTitleMembers | DaysTracker/Views/ContentView.swift:226 | an event is in the result exactly when it is in the collection and its title matches |
| EventStore.ToggleExpanded | DaysTracker/Views/ContentView.swift:172-176 | only the flag of the first event with the id flips; order, ids and every other event are unchanged; an absent id changes nothing |
| EventStore.ToggleExpandedTwice | DaysTracker/Views/ContentView.swift:174 | toggling the same id twice restores the collection |
| EventStore.ToggleExpandedKeepsUniqueIds | DaysTracker/Views/ContentView.swift:172-176 | toggling keeps the id invariant |
| EventStore.Kept | DaysTracker/Views/ContentView.swift:202 | the kept indices are increasing, all in range and not deleted, and every non-deleted index is among them |
| EventStore.KeptLength | DaysTracker/Views/ContentView.swift:202 | with every offset in range, exactly one index per offset is dropped |
| EventStore.RemoveAtOffsets | DaysTracker/Views/ContentView.swift:202 | the survivors are no more than the input, and each element survives at most as often as it occurs |
| EventStore.RemoveAtOffsetsPicksKept | DaysTracker/Views/ContentView.swift:202 | the survivors are, in order, the elements at the kept indices |
| EventStore.RemoveAtOffsetsSpec | DaysTracker/Views/ContentView.swift:201-203 | deleting removes exactly the given positions; the survivors keep their relative order and the length drops by the number of offsets |
| EventStore.RemoveAtOffsetsKeepsIdsUnique | DaysTracker/Views/ContentView.swift:202 | deleting keeps the survivors' ids distinct |
| EventStore.RemoveAtOffsetsKeepsUniqueIds | DaysTracker/Views/ContentView.swift:201-203 | deleting events keeps the id invariant, records included |
| EventStore.WithRecordsKeepsUniqueIds | DaysTracker/Views/ContentView.swift:206 | giving one event a record list with distinct ids keeps the id invariant |
| EventStore.RemoveRecordAt | DaysTracker/Views/ContentView.swift:206 | one record fewer; earlier records stay in place, later ones move up by one; exactly the removed record leaves the multiset |
| EventStore.RemoveRecordAtKeepsIdsUnique | DaysTracker/Views/ContentView.swift:206 | removing a record keeps the remaining record ids distinct |
| EventStore.SavedRecords | DaysTracker/Views/ContentView.swift:139-144 | when editing a selected id that exists, the first record with it is replaced in place; otherwise the draft is appended |
| EventStore.SavedRecordsCount | DaysTracker/Views/ContentView.swift:139-144 | the draft is among the records afterwards; an edit keeps the count, and the ids too when the draft keeps its id; otherwise the count grows by one and the old records stay as a prefix |
| EventStore.SavedRecordsKeepsIdsUnique | DaysTracker/Views/ContentView.swift:139-144 | saving keeps record ids distinct when the draft brings a new id, or edits the selected record and keeps its id |
| ContentViewModel.ContentView.constructor | DaysTracker/Views/ContentView.swift:4-17 | the screen starts with no events, empty fields, no selection and a fresh draft record; nothing is written |
| ContentViewModel.ContentView.SaveEvents | DaysTracker/Views/ContentView.swift:209-213 | the store holds the current collection under "events" and every other key is unchanged |
| ContentViewModel.ContentView.SetEvents | DaysTracker/Views/ContentView.swift:4-8 | an assignment to the collection also replaces the stored snapshot |
| ContentViewModel.ContentView.AddNewEvent | DaysTracker/Views/ContentView.swift:161-166 | a blank title changes nothing; otherwise one collapsed event with no records and the trimmed title is appended, the field is cleared, the snapshot is written, and a fresh id keeps the id invariant |
| ContentViewModel.ContentView.ToggleExpand | DaysTracker/Views/ContentView.swift:172-176 | the collection becomes the toggled one; the snapshot is written only when an event has the id; the id invariant is kept |
| ContentViewModel.ContentView.DaysFromPrevious | DaysTracker/Views/ContentView.swift:186-194 | 0 for a record the event does not hold; never negative for one it holds |
| ContentViewModel.ContentView.DeleteEvents | DaysTracker/Views/ContentView.swift:201-203 | the collection loses exactly the events at the offsets, the snapshot is written, and the id invariant is kept |
| ContentViewModel.ContentView.DeleteRecord | DaysTracker/Views/ContentView.swift:205-207 | exactly one record of one event is removed; ids and every other event are unchanged; the snapshot is written; the id invariant is kept |
| ContentViewModel.ContentView.SaveRecord | DaysTracker/Views/ContentView.swift:138-147 | the selected event's records become the saved records; no event id changes; the selection is cleared; the snapshot is written; the id invariant is kept when the draft brings a new record id or edits the selected record under its own id |
| ContentViewModel.ContentView.LoadEvents | DaysTracker/Views/ContentView.swift:215-220 | decodable stored data replaces the collection and is written back; absent or malformed data changes nothing; loading right after a write changes nothing |
| ContentViewModel.ContentView.FilteredEvents | DaysTracker/Views/ContentView.swift:222-227 | an empty search gives the collection itself; otherwise an order-preserving subsequence with exactly the matching events |
| Locale.Toggled | DaysTracker/Views/LocaleManager.swift:17 | "ja" becomes "en", anything else becomes "ja", so the result is always one of the two |
| Locale.ToggledTwice | DaysTracker/Views/LocaleManager.swift:16-18 | toggling twice from "ja" or "en" restores it |
| Locale.InitialLocale | DaysTracker/Views/LocaleManager.swift:13 | the stored language if there is one, otherwise "ja" |
| Locale.LocaleManager.constructor | DaysTracker/Views/LocaleManager.swift:12-14 | starts with the stored language or "ja" and writes nothing |
| Locale.LocaleManager.SetCurrentLocale | DaysTracker/Views/LocaleManager.swift:6-10 | every assignment stores the new language under "AppLanguage" and leaves other keys alone |
| Locale.LocaleManager.ToggleLocale | DaysTracker/Views/LocaleManager.swift:16-18 | the language becomes the toggled one and is written out |

## Left out

- JSON: the encoded bytes are kept abstract. `Storage.Encode` stands for an encoder that never fails, so the branch of `saveEvents` that skips the write when encoding fails is not modelled. Decoding distinguishes only well-formed from malformed data.
- `UserDefaults`: kept abstract as a key-to-value map. Disk persistence, process restarts and other value kinds are not modelled. So are the conversions `string(forKey:)` makes for numbers.
- Calendar arithmetic: time zones, daylight-saving changes and leap seconds are not modelled. The unreachable `?? 0` fallback of `components.day` is not modelled either.
- Case-insensitive matching: stands in for `localizedCaseInsensitiveContains`. It folds only ASCII letters. Locale-aware and Unicode case folding, and comparison by grapheme cluster, are not modelled.
- Trimming: works on single characters of the Unicode white-space-and-newline set. Grapheme clusters are not modelled.
- The sort's tie order: `SortedRecords` promises nothing about records that share a date. `sorted(by:)` is not guaranteed stable, so that order is unspecified.
- The record-id assumption: the non-negativity clause of `DaysFromPreviousRecord`, and `DaysFromPreviousOldest` and `DaysFromPreviousGap`, assume that no two records of an event share an id. Every operation except `loadEvents` keeps that invariant under the conditions above; fresh ids coming from `UUID()` is not modelled.
- Loaded data: `loadEvents` does not check the decoded collection, so a stored collection with repeated ids loads as it is, and the record-id assumption above then does not hold.
- Sub-second dates: Swift's `Date` is a floating-point time interval, and the model keeps whole seconds. Two records less than a second apart become a tie. A tie can change which record the previous-record count pairs with: for `a` and `b` on one second and `c` four days earlier, the orders `[a, b, c]` and `[b, a, c]` give 0 and 4 for `a`.
- ContentViewModel.ContentView.DaysFromPrevious: states only the absent-record case and non-negativity. `EventStore.DaysFromPreviousOldest` and `EventStore.DaysFromPreviousGap` characterise the count further.
- View wiring in `body` (ContentView.swift:19-158) is not modelled. This covers the closures that open the record editor and fill `draftRecord`, `selectedRecordID` and `isEditingRecord`; in the model those are public fields that a caller sets. It also covers `showRecordEditor`, `selectedEventIndex`, `isEditing`, sheet presentation and re-rendering. The wiring has two defects, not modelled: first, the row at ContentView.swift:100 passes `sortedRecords(for: events[index])`, but `index` counts positions in `filteredEvents`. Second, `.onDelete` (ContentView.swift:118-119) receives offsets into `filteredEvents` (the `ForEach` at :77), but `deleteEvents` removes those offsets from `events`. So while a search is active, a swipe can delete a different event.
- `isExpanded(_:)` (ContentView.swift:178-180) only reads the flag, so it has no member of its own.
- `searchEvents` (ContentView.swift:168-170) is empty.
- `@Published` change notification in LocaleManager is SwiftUI plumbing and is not modelled.
- LiquidGlassStyle.swift, RecordEditorView.swift and EventSectionView.swift are styling and layout. They are not part of this model; that includes `daysSince` and `formattedDate`.
