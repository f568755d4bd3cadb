# Calendar event store, modelled in Dafny

This project models the core of a browser calendar application. The application keeps all its
events in one browser storage slot as a single list. Four operations read that list, change it
and write it back whole:

- **add** refuses an event whose time range overlaps a stored event on the same date, and
  otherwise appends it;
- **update** runs the same check while skipping the entry being edited, then replaces every
  entry with the edited id;
- **delete** drops every entry with a given id;
- **sort** orders events by date, then by start time.

The search page narrows the list by an optional keyword, an optional type and an optional date.

Modules:

- `StringOrder` (`string_order.dfy`): code-point order on strings, with proofs that it is a
  strict total order. It equals JavaScript's `<` on strings with no character beyond U+FFFF, so
  on every date and time the store compares with that operator.
- `Sequences` (`sequences.dfy`): `Array.prototype.filter` and the order-preserving subsequence
  relation.
- `Events` (`events.dfy`): the event record and the type-to-colour lookup. It also holds the
  store's three-clause conflict test and the `EventStore` class. The class has a `seq<Event>`
  field standing for the storage slot, and its methods reassign that field. Beside the class are
  the pure functions for delete (`Deleted`) and update (`Replaced`) and the lemmas about them.
- `EventSort` (`event_sort.dfy`): `sortEvents`. It is an in-place sort of an array, proved equal
  to a functional stable insertion sort (`SortedEvents`). Lemmas prove that this function is
  ordered, is a permutation of its input, is stable and is idempotent.
- `EventSearch` (`event_search.dfy`): the search page's `filterEvents`, a chain of three guarded
  filters.

The central result is the store invariant `NoOverlap`: no two stored events on the same date
have overlapping `[startTime, endTime)` ranges. The source's three-clause test is proved equal to
half-open overlap (`ConflictIffOverlap`). Add and delete preserve the invariant. Update preserves
it when ids are unique. The store never checks that ids are unique: ids are timestamps taken
when the form is submitted. If two stored events share an id, an update writes the new event
twice, and the two copies overlap (`DuplicateIdUpdateOverlaps`). So `UpdateEvent` promises the
invariant only when ids are unique. Add keeps ids unique when the new id is fresh, and update
keeps them unique when the new event carries the edited id, as the update form's event does.

Times are strings, compared as the store compares them. The forms check `start < end` by
comparing minutes since midnight (a `Date` built from the hour and the minute). For clock times
`HH:MM` (hours 00 to 23, minutes 00 to 59, as the time inputs produce), `ClockLessIffEarlier`
proves that this numeric check agrees with the string comparison. Dates are `YYYY-MM-DD` strings
(the `full-date` form of section 5.6 of RFC 3339), and the store compares them for exact equality.

The model follows what the code does; in particular:

- Update replaces every entry with the id, not just one. "Exactly one event has the id
  afterwards" holds only when the id was stored once (`UpdateSingleResult`).
- Unique ids are not enforced by any operation.
- The type search is a case-insensitive substring test.
- Unreadable storage content makes the source throw. This is not modelled (see below).

## Model

| member | source | states |
|---|---|---|
| `Events.TypeOfColor` | src/api/event.ts:9-15 | each colour of the lookup comes from the type it maps back to |
| `Events.ColorOfOneToOne` | src/api/event.ts:9-15 | the type-to-colour lookup is one-to-one, and the reverse lookup inverts it |
| `Events.ClockLessIffEarlier` | src/components/ui/addEvent.tsx:37-47 | for clock times, the store's string `<` holds exactly when the first time is earlier in minutes, the quantity the form compares |
| `Events.WellFormedTimesOrdered` | src/components/ui/addEvent.tsx:34-47 | an event that passed the form's checks has its start strictly before its end under string order |
| `Events.ConflictIffOverlap` | src/api/event.ts:47-52 | the three-clause test finds a conflict only on the same date, and exactly when the two half-open ranges overlap |
| `Events.OverlapSymmetric` | src/api/event.ts:47-52 | overlap does not depend on argument order, and an event with start before end overlaps itself |
| `Events.HasConflictIffOverlap` | src/api/event.ts:47-52 | add's `some` scan finds a conflict exactly when some stored event overlaps the new one |
| `Events.HasConflictExceptIffOverlap` | src/api/event.ts:71-77 | update's scan finds a conflict exactly when a stored event with another id overlaps the new one |
| `Events.AddPreservesNoOverlap` | src/api/event.ts:44-60 | appending an event that passed the conflict scan keeps every event well formed and the store free of overlaps |
| `Events.AddPreservesUniqueIds` | src/api/event.ts:58 | appending an event with a fresh id keeps ids unique |
| `Events.Deleted` | src/api/event.ts:64 | the result is an order-preserving subsequence holding no event with the id and every event with another id |
| `Events.DeleteAbsent` | src/api/event.ts:62-66 | deleting an id that no event has changes nothing |
| `Events.DeleteKeepsOthers` | src/api/event.ts:64 | every copy of each event with another id survives, and no event with the id does |
| `Events.SubsequenceKeepsInvariants` | src/api/event.ts:64 | any order-preserving subsequence keeps well-formedness, freedom from overlap and unique ids |
| `Events.DeletePreservesInvariants` | src/api/event.ts:62-66 | deleting keeps well-formedness, freedom from overlap and unique ids |
| `Events.Replaced` | src/api/event.ts:83 | same length; each entry with the id becomes the new event; every other entry stays where and as it was |
| `Events.UpdateAbsent` | src/api/event.ts:83-84 | updating an id that no event has leaves the list as it was |
| `Events.UpdatePreservesNoOverlap` | src/api/event.ts:68-85 | with unique ids, an update that passed the scan keeps every event well formed and the store free of overlaps |
| `Events.UpdateSingleResult` | src/api/event.ts:83-84 | updating a stored id with an event carrying that id keeps ids unique, and the new event is the only one with the id, at the old position |
| `Events.ResubmitNeverConflicts` | src/api/event.ts:71-77 | re-submitting an entry with its own date and times never conflicts, because the scan skips the edited id |
| `Events.DuplicateIdUpdateOverlaps` | src/api/event.ts:83-84 | if two stored events share the id, the updated list contains an overlap |
| `Events.EventStore.constructor` | src/api/event.ts:39-41 | a slot never written reads as the empty list, which satisfies the invariant |
| `Events.EventStore.GetAllEvents` | src/api/event.ts:39-42 | returns the stored list |
| `Events.EventStore.AddNewEvent` | src/api/event.ts:44-60 | conflict exactly when the scan finds one, and then the list is unchanged; otherwise the event is appended; the invariant is kept; on a valid store, conflict means an overlap; a fresh id keeps ids unique |
| `Events.EventStore.DeleteEvent` | src/api/event.ts:62-66 | the list becomes the filtered list: no entry with the id, others in order; an absent id is a no-op; the invariant and unique ids are kept |
| `Events.EventStore.UpdateEvent` | src/api/event.ts:68-85 | conflict exactly when the scan (skipping the id) finds one, and then the list is unchanged; otherwise entries with the id are replaced; the length never changes; an absent id changes nothing; with unique ids the invariant is kept |
| `StringOrder.LessAsymmetric` | src/api/event.ts:49-51 | `a < b` excludes `b < a` |
| `StringOrder.LessTransitive` | src/api/event.ts:49-51 | string `<` is transitive |
| `StringOrder.LessTotal` | src/api/event.ts:49-51 | two different strings are ordered one way or the other |
| `StringOrder.LessOrEqual` | src/api/event.ts:49-51 | `!(b < a)` holds exactly when `a < b` or `a == b` |
| `Sequences.Filter` | src/components/pages/Events/Events.tsx:35 | the result is a subsequence of the input; every kept element passes; every element that passes is kept |
| `Sequences.FilterCount` | src/components/pages/Events/Events.tsx:35 | the filter keeps every copy of each passing element and drops every failing one |
| `Sequences.FilterFuse` | src/components/pages/Events/Events.tsx:35-46 | two filters in a row equal one filter by the conjunction |
| `EventSort.BeforeAsymmetric` | src/api/event.ts:31-36 | if the comparator puts `a` first, it does not put `b` first, and the two keys differ |
| `EventSort.NotBeforeTransitive` | src/api/event.ts:31-36 | "not after" under the comparator is transitive |
| `EventSort.InsertPermutation` | src/api/event.ts:31 | inserting adds exactly the one element to the multiset of events |
| `EventSort.InsertCorrect` | src/api/event.ts:31 | inserting into a sorted list keeps it sorted and adds exactly the one element |
| `EventSort.SortedEventsCorrect` | src/api/event.ts:30-37 | the sort's result is ordered by date, then start time, and is a permutation of the input |
| `EventSort.SortedEventsOrder` | src/api/event.ts:31-36 | in the result, an event with an earlier date, or the same date and an earlier start, comes first |
| `EventSort.SortedEventsStable` | src/api/event.ts:31 | events with equal date and start time keep their input order |
| `EventSort.SortedEventsOfSorted` | src/api/event.ts:30-37 | sorting an already sorted list returns it unchanged |
| `EventSort.SortedEventsIdempotent` | src/api/event.ts:30-37 | sorting twice gives the same result as sorting once |
| `EventSort.InsertAt` | src/api/event.ts:31-36 | insertion places the new event right after the last event the comparator does not put after it |
| `EventSort.ShiftGreater` | src/api/event.ts:31 | the inner loop moves right by one each element of the sorted prefix, from the end, that the new event comes before, and stops at the first that it does not |
| `EventSort.InsertInPlace` | src/api/event.ts:31 | one pass of the in-place sort inserts the next element into the sorted prefix and leaves the rest alone |
| `EventSort.SortEvents` | src/api/event.ts:30-37 | the array ends equal to the stable sort of its old contents: ordered and a permutation |
| `EventSearch.LowerChar` | src/components/pages/Events/Events.tsx:36 | upper-case ASCII letters become lower-case, everything else is unchanged, and no upper-case letter remains |
| `EventSearch.Lower` | src/components/pages/Events/Events.tsx:36-37 | the result holds no upper-case ASCII letter, and text without one is returned unchanged |
| `EventSearch.LowerIdempotent` | src/components/pages/Events/Events.tsx:36-42 | lower-casing twice is lower-casing once |
| `EventSearch.SearchIsFilter` | src/components/pages/Events/Events.tsx:31-50 | the three guarded filters equal one filter by "passes every non-empty field" |
| `EventSearch.EmptyQueryKeepsAll` | src/components/pages/Events/Events.tsx:32-49 | with all three fields empty the full list is returned |
| `EventSearch.SearchCorrect` | src/components/pages/Events/Events.tsx:31-49 | the result is an order-preserving subsequence; every kept event passes every active field; every passing event is kept, each copy of it |
| `EventSearch.RefiningNarrows` | src/components/pages/Events/Events.tsx:34-47 | filling in another field yields a subsequence of the earlier result, never a longer list |
| `EventSearch.LowerTypeName` | src/api/event.ts:1-7 | the type names are already lower case |
| `EventSearch.KindSelectionKeepsType` | src/components/pages/Events/Events.tsx:41-43 | choosing a type from the type list keeps every event of that type |
| `EventSearch.CaseInsensitive` | src/components/pages/Events/Events.tsx:36-42 | the keyword and the type match the same events whatever their letter case |

## Left out

- Browser storage and JSON: `localStorage.getItem`/`setItem`, `JSON.parse` and `JSON.stringify` (src/api/event.ts:40-41, 59, 65, 84) are foreign calls. The slot is the field `EventStore.events`, and a write-back followed by a read returns the same list. The exception on unreadable stored content is not modelled.
- Event ids are integers. JavaScript numbers are doubles, but the form's timestamps are integers well inside the exact range.
- `EventSort.SortEvents`: the comparator's date part is `new Date(a.date).getTime() - new Date(b.date).getTime()`. It is modelled as code-point order of the date strings, which gives the same order for `YYYY-MM-DD` dates. `localeCompare` on start times is modelled as code-point order, which agrees with it on fixed-width `HH:MM` strings. Date parsing itself is not modelled.
- `EventSort.SortEvents`: the in-place algorithm is insertion sort, whereas JavaScript engines use other stable sorts. The model does not prove that a stable sort's result is unique, so it does not prove that those sorts give the same result. The source function also returns the same array it sorted; the model's method returns nothing, because the caller's array already holds the result.
- `EventSearch.Search`: the date branch parses both strings with `new Date` and compares `toDateString()` in the local time zone (src/components/pages/Events/Events.tsx:45-47). It is the parameter `sameDay`, an uninterpreted comparison of two date strings.
- `EventSearch.Lower`: `toLowerCase` is modelled on ASCII letters only; Unicode case mapping is left out.
- `StringOrder.Less`: JavaScript compares strings by UTF-16 code units, the model by code points. The two orders differ only when a character beyond U+FFFF is involved, which no `YYYY-MM-DD` date or `HH:MM` time contains.
- `EventSearch.KindSelectionKeepsType`: only this direction is stated. The converse needs each type name to contain no other type name. That is a fact about five string literals, not about the filter, and it is not proved.
- The form code (src/components/ui/addEvent.tsx, src/components/ui/updateEvent.tsx): form validation, the "not in the past" date check (it reads the clock) and `id: Date.now()` (it is nondeterministic). Only the name, date, time and colour constraints remain, as the precondition `WellFormed` of `AddNewEvent` and `UpdateEvent`.
- The day, week, month and year views, the header's download, the modals, routing and the context provider are not part of this model. They are rendering, and their date bucketing depends on `Date` objects and the local time zone.
- Running two browser tabs at once is not modelled. Each operation is one synchronous read-modify-write of the slot.
