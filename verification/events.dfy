/** The event store: one sequence of events kept under a single storage key,
    read, modified and written back whole by each operation. */
module Events {
  import opened StringOrder
  import opened Sequences

  datatype EventType = Personal | Work | Social | Family | Other

  datatype EventColor = Blue | Green | Yellow | Purple | Red

  /** The `EventColor[type]` lookup. */
  function ColorOf(t: EventType): EventColor
  {
    match t
    case Personal => Blue
    case Work => Green
    case Social => Yellow
    case Family => Purple
    case Other => Red
  }

  /** The reverse lookup: every colour belongs to exactly one event type. */
  function TypeOfColor(c: EventColor): (t: EventType)
    ensures ColorOf(t) == c
  {
    match c
    case Blue => Personal
    case Green => Work
    case Yellow => Social
    case Purple => Family
    case Red => Other
  }

  lemma ColorOfOneToOne(t: EventType, u: EventType)
    ensures TypeOfColor(ColorOf(t)) == t
    ensures ColorOf(t) == ColorOf(u) ==> t == u
  {
  }

  datatype Event = Event(
    id: int,
    name: string,
    date: string,
    description: string,
    startTime: string,
    endTime: string,
    kind: EventType,
    color: EventColor)

  predicate IsDigit(c: char)
  {
    '0' <= c <= '9'
  }

  function DigitValue(c: char): int
    requires IsDigit(c)
  {
    c as int - '0' as int
  }

  /** Five characters `DD:DD`, the shape the forms' time pattern accepts. */
  predicate IsTimeShape(s: string)
  {
    |s| == 5 && IsDigit(s[0]) && IsDigit(s[1]) && s[2] == ':' && IsDigit(s[3]) && IsDigit(s[4])
  }

  function Hour(s: string): int
    requires IsTimeShape(s)
  {
    10 * DigitValue(s[0]) + DigitValue(s[1])
  }

  function Minute(s: string): int
    requires IsTimeShape(s)
  {
    10 * DigitValue(s[3]) + DigitValue(s[4])
  }

  /** A 24-hour clock time `HH:MM`, as a time input yields it. */
  predicate IsClockTime(s: string)
  {
    IsTimeShape(s) && Hour(s) <= 23 && Minute(s) <= 59
  }

  /** Minutes since midnight: the quantity the forms compare when they check
      that the start comes before the end. */
  function Minutes(s: string): int
    requires IsTimeShape(s)
  {
    60 * Hour(s) + Minute(s)
  }

  /** `YYYY-MM-DD`, the calendar date kept in an event. */
  predicate IsFullDate(d: string)
  {
    |d| == 10 && d[4] == '-' && d[7] == '-' &&
    IsDigit(d[0]) && IsDigit(d[1]) && IsDigit(d[2]) && IsDigit(d[3]) &&
    IsDigit(d[5]) && IsDigit(d[6]) && IsDigit(d[8]) && IsDigit(d[9])
  }

  /** What the add and update forms guarantee of every event they hand to the store. */
  predicate WellFormed(e: Event)
  {
    e.name != "" && IsFullDate(e.date) &&
    IsClockTime(e.startTime) && IsClockTime(e.endTime) &&
    Minutes(e.startTime) < Minutes(e.endTime) &&
    e.color == ColorOf(e.kind)
  }

  /** For clock times the store's string comparison and the forms' numeric
      comparison agree. */
  lemma ClockLessIffEarlier(a: string, b: string)
    requires IsClockTime(a) && IsClockTime(b)
    ensures Less(a, b) <==> Minutes(a) < Minutes(b)
  {
    assert a[1..][0] == a[1] && b[1..][0] == b[1];
    assert a[1..][1..] == a[2..] && b[1..][1..] == b[2..];
    assert a[2..][0] == a[2] && b[2..][0] == b[2];
    assert a[2..][1..] == a[3..] && b[2..][1..] == b[3..];
    assert a[3..][0] == a[3] && b[3..][0] == b[3];
    assert a[3..][1..] == a[4..] && b[3..][1..] == b[4..];
    assert a[4..][0] == a[4] && b[4..][0] == b[4];
    assert a[4..][1..] == [] && b[4..][1..] == [];
    assert Less(a[4..], b[4..]) <==> a[4] < b[4];
    assert Less(a[3..], b[3..]) <==> Minute(a) < Minute(b);
    assert Less(a[1..], b[1..]) <==> a[1] < b[1] || (a[1] == b[1] && Minute(a) < Minute(b));
    assert Less(a, b) <==> Hour(a) < Hour(b) || (Hour(a) == Hour(b) && Minute(a) < Minute(b));
  }

  lemma WellFormedTimesOrdered(e: Event)
    requires WellFormed(e)
    ensures Less(e.startTime, e.endTime)
  {
    ClockLessIffEarlier(e.startTime, e.endTime);
  }

  /** Half-open overlap of `[startTime, endTime)` on the same date. */
  predicate Overlap(a: Event, b: Event)
  {
    a.date == b.date && Less(a.startTime, b.endTime) && Less(b.startTime, a.endTime)
  }

  /** The test `addNewEvent` and `updateEvent` apply to each stored event:
      the new start lies inside the existing span, or the new end does, or
      the new span covers the existing one. */
  predicate Conflicts(existing: Event, incoming: Event)
  {
    existing.date == incoming.date &&
    ((!Less(incoming.startTime, existing.startTime) && Less(incoming.startTime, existing.endTime)) ||
     (Less(existing.startTime, incoming.endTime) && !Less(existing.endTime, incoming.endTime)) ||
     (!Less(existing.startTime, incoming.startTime) && !Less(incoming.endTime, existing.endTime)))
  }

  /** For two events whose starts precede their ends, the three-clause test is
      exactly half-open overlap on the same date. */
  lemma ConflictIffOverlap(existing: Event, incoming: Event)
    requires Less(existing.startTime, existing.endTime)
    requires Less(incoming.startTime, incoming.endTime)
    ensures Conflicts(existing, incoming) ==> existing.date == incoming.date
    ensures Conflicts(existing, incoming) <==> Overlap(incoming, existing)
  {
    var s1, e1 := existing.startTime, existing.endTime;
    var s2, e2 := incoming.startTime, incoming.endTime;
    LessOrEqual(s1, s2);
    LessOrEqual(s2, s1);
    LessOrEqual(e2, e1);
    LessOrEqual(e1, e2);
    if !Less(s2, s1) && Less(s2, e1) {
      // the new start lies inside the existing span
      if Less(s1, s2) { LessTransitive(s1, s2, e2); }
    }
    if Less(s1, e2) && !Less(e1, e2) {
      // the new end lies inside the existing span
      if Less(e2, e1) { LessTransitive(s2, e2, e1); }
    }
    if !Less(s1, s2) && !Less(e2, e1) {
      // the new span covers the existing one
      if Less(s2, s1) { LessTransitive(s2, s1, e1); }
      if Less(e1, e2) { LessTransitive(s1, e1, e2); }
    }
    if Less(s2, e1) && Less(s1, e2) && Less(s2, s1) && Less(e1, e2) {
      assert !Less(s1, s2) && !Less(e2, e1) by {
        LessAsymmetric(s2, s1);
        LessAsymmetric(e1, e2);
      }
    }
  }

  /** Overlap is symmetric, and an event whose start precedes its end overlaps itself. */
  lemma OverlapSymmetric(a: Event, b: Event)
    ensures Overlap(a, b) <==> Overlap(b, a)
    ensures Less(a.startTime, a.endTime) ==> Overlap(a, a)
  {
  }

  /** `events.some(...)` in `addNewEvent`. */
  predicate HasConflict(events: seq<Event>, e: Event)
  {
    exists i :: 0 <= i < |events| && Conflicts(events[i], e)
  }

  /** `events.some(...)` in `updateEvent`: entries with the edited id are skipped. */
  predicate HasConflictExcept(events: seq<Event>, id: int, e: Event)
  {
    exists i :: 0 <= i < |events| && events[i].id != id && Conflicts(events[i], e)
  }

  predicate AllWellFormed(events: seq<Event>)
  {
    forall i :: 0 <= i < |events| ==> WellFormed(events[i])
  }

  /** The store's invariant: no two events on the same date overlap. */
  predicate NoOverlap(events: seq<Event>)
  {
    forall i, j :: 0 <= i < j < |events| ==> !Overlap(events[i], events[j])
  }

  predicate UniqueIds(events: seq<Event>)
  {
    forall i, j :: 0 <= i < j < |events| ==> events[i].id != events[j].id
  }

  predicate HasId(events: seq<Event>, id: int)
  {
    exists i :: 0 <= i < |events| && events[i].id == id
  }

  lemma HasConflictIffOverlap(events: seq<Event>, e: Event)
    requires AllWellFormed(events) && WellFormed(e)
    ensures HasConflict(events, e) <==> exists i :: 0 <= i < |events| && Overlap(events[i], e)
  {
    WellFormedTimesOrdered(e);
    forall i | 0 <= i < |events|
      ensures Conflicts(events[i], e) <==> Overlap(events[i], e)
    {
      WellFormedTimesOrdered(events[i]);
      ConflictIffOverlap(events[i], e);
    }
  }

  lemma HasConflictExceptIffOverlap(events: seq<Event>, id: int, e: Event)
    requires AllWellFormed(events) && WellFormed(e)
    ensures HasConflictExcept(events, id, e) <==>
            exists i :: 0 <= i < |events| && events[i].id != id && Overlap(events[i], e)
  {
    WellFormedTimesOrdered(e);
    forall i | 0 <= i < |events|
      ensures Conflicts(events[i], e) <==> Overlap(events[i], e)
    {
      WellFormedTimesOrdered(events[i]);
      ConflictIffOverlap(events[i], e);
    }
  }

  /** A successful add keeps the store free of overlaps. */
  lemma AddPreservesNoOverlap(events: seq<Event>, e: Event)
    requires AllWellFormed(events) && NoOverlap(events)
    requires WellFormed(e) && !HasConflict(events, e)
    ensures AllWellFormed(events + [e]) && NoOverlap(events + [e])
  {
    HasConflictIffOverlap(events, e);
    var s := events + [e];
    forall i, j | 0 <= i < j < |s|
      ensures !Overlap(s[i], s[j])
    {
      if j == |events| {
        assert !Overlap(events[i], e);
      } else {
        assert !Overlap(events[i], events[j]);
      }
    }
  }

  /** With a fresh id the ids stay unique. */
  lemma AddPreservesUniqueIds(events: seq<Event>, e: Event)
    requires UniqueIds(events) && !HasId(events, e.id)
    ensures UniqueIds(events + [e])
  {
    var s := events + [e];
    forall i, j | 0 <= i < j < |s|
      ensures s[i].id != s[j].id
    {
      if j == |events| {
        assert s[i] == events[i];
      }
    }
  }

  /** `events.filter(event => event.id !== id)`. */
  function Deleted(events: seq<Event>, id: int): (r: seq<Event>)
    ensures IsSubsequence(r, events)
    ensures !HasId(r, id)
    ensures forall i :: 0 <= i < |events| && events[i].id != id ==> events[i] in r
  {
    Filter(events, (e: Event) => e.id != id)
  }

  /** Deleting an id nobody has is not an error and changes nothing. */
  lemma DeleteAbsent(events: seq<Event>, id: int)
    requires !HasId(events, id)
    ensures Deleted(events, id) == events
  {
    FilterKeepsAll(events, (e: Event) => e.id != id);
  }

  /** Deleting keeps each event other than the deleted ones, every copy of it. */
  lemma DeleteKeepsOthers(events: seq<Event>, id: int, x: Event)
    ensures multiset(Deleted(events, id))[x] == if x.id != id then multiset(events)[x] else 0
  {
    FilterCount(events, (e: Event) => e.id != id, x);
  }

  /** Any order-preserving subsequence of the store keeps its invariants. */
  lemma SubsequenceKeepsInvariants(a: seq<Event>, b: seq<Event>)
    requires IsSubsequence(a, b)
    ensures AllWellFormed(b) ==> AllWellFormed(a)
    ensures NoOverlap(b) ==> NoOverlap(a)
    ensures UniqueIds(b) ==> UniqueIds(a)
  {
    forall i | 0 <= i < |a|
      ensures exists k :: 0 <= k < |b| && b[k] == a[i]
    {
      SubsequenceElement(a, b, i);
    }
    forall i, j | 0 <= i < j < |a|
      ensures exists k, l :: 0 <= k < l < |b| && b[k] == a[i] && b[l] == a[j]
    {
      SubsequencePair(a, b, i, j);
    }
  }

  lemma DeletePreservesInvariants(events: seq<Event>, id: int)
    ensures AllWellFormed(events) ==> AllWellFormed(Deleted(events, id))
    ensures NoOverlap(events) ==> NoOverlap(Deleted(events, id))
    ensures UniqueIds(events) ==> UniqueIds(Deleted(events, id))
  {
    SubsequenceKeepsInvariants(Deleted(events, id), events);
  }

  /** `events.map(event => event.id === id ? updatedEvent : event)`. */
  function Replaced(events: seq<Event>, id: int, e: Event): (r: seq<Event>)
    ensures |r| == |events|
    ensures forall i :: 0 <= i < |events| && events[i].id == id ==> r[i] == e
    ensures forall i :: 0 <= i < |events| && events[i].id != id ==> r[i] == events[i]
  {
    if events == [] then []
    else [if events[0].id == id then e else events[0]] + Replaced(events[1..], id, e)
  }

  /** Updating an id nobody has leaves the sequence as it was. */
  lemma UpdateAbsent(events: seq<Event>, id: int, e: Event)
    requires !HasId(events, id)
    ensures Replaced(events, id, e) == events
  {
  }

  /** When the edited id is stored once, a successful update keeps the store
      free of overlaps. */
  lemma UpdatePreservesNoOverlap(events: seq<Event>, id: int, e: Event)
    requires AllWellFormed(events) && NoOverlap(events) && UniqueIds(events)
    requires WellFormed(e) && !HasConflictExcept(events, id, e)
    ensures AllWellFormed(Replaced(events, id, e)) && NoOverlap(Replaced(events, id, e))
  {
    HasConflictExceptIffOverlap(events, id, e);
    var s := Replaced(events, id, e);
    forall i, j | 0 <= i < j < |s|
      ensures !Overlap(s[i], s[j])
    {
      if events[i].id == id {
        assert events[j].id != id;
        assert !Overlap(events[j], e);
      } else if events[j].id == id {
        assert !Overlap(events[i], e);
      } else {
        assert !Overlap(events[i], events[j]);
      }
    }
  }

  /** After updating a stored id with an event carrying that id, exactly one
      event has the id, and it is the new one. */
  lemma UpdateSingleResult(events: seq<Event>, id: int, e: Event, k: int)
    requires UniqueIds(events) && 0 <= k < |events| && events[k].id == id && e.id == id
    ensures UniqueIds(Replaced(events, id, e))
    ensures Replaced(events, id, e)[k] == e
    ensures forall i :: 0 <= i < |events| && Replaced(events, id, e)[i].id == id ==> i == k
  {
    var s := Replaced(events, id, e);
    forall i, j | 0 <= i < j < |s|
      ensures s[i].id != s[j].id
    {
      if events[i].id == id {
        assert events[j].id != id;
      } else if events[j].id == id {
        assert s[i] == events[i];
      }
    }
  }

  /** Resubmitting an event with its own date and times never conflicts: the
      update skips the entry being edited. */
  lemma ResubmitNeverConflicts(events: seq<Event>, k: int, e: Event)
    requires AllWellFormed(events) && NoOverlap(events) && 0 <= k < |events|
    requires e.date == events[k].date && e.startTime == events[k].startTime && e.endTime == events[k].endTime
    ensures !HasConflictExcept(events, events[k].id, e)
  {
    WellFormedTimesOrdered(events[k]);
    forall i | 0 <= i < |events| && events[i].id != events[k].id
      ensures !Conflicts(events[i], e)
    {
      WellFormedTimesOrdered(events[i]);
      ConflictIffOverlap(events[i], e);
      if i < k {
        assert !Overlap(events[i], events[k]);
      } else {
        assert !Overlap(events[k], events[i]);
      }
    }
  }

  /** Ids are not checked by the store. When two stored events share an id,
      updating that id writes the same event twice, and the copies overlap:
      the no-overlap guarantee of an update needs unique ids. */
  lemma DuplicateIdUpdateOverlaps(events: seq<Event>, id: int, e: Event, i: int, j: int)
    requires 0 <= i < j < |events| && events[i].id == id && events[j].id == id
    requires WellFormed(e)
    ensures !NoOverlap(Replaced(events, id, e))
  {
    WellFormedTimesOrdered(e);
    assert Overlap(Replaced(events, id, e)[i], Replaced(events, id, e)[j]);
  }

  datatype Outcome = Success | ConflictError

  /** The browser storage slot holding the serialized event list. */
  class EventStore {
    var events: seq<Event>

    /** What the store maintains: well-formed events, none overlapping another on its date. */
    ghost predicate Valid()
      reads this
    {
      AllWellFormed(events) && NoOverlap(events)
    }

    /** A slot never written reads as the empty list. */
    constructor ()
      ensures events == [] && Valid()
    {
      events := [];
    }

    /** `getAllEvents`. */
    method GetAllEvents() returns (r: seq<Event>)
      ensures r == events
    {
      r := events;
    }

    /** `addNewEvent`: refuses an event that overlaps a stored one on its date,
        otherwise appends it. */
    method AddNewEvent(e: Event) returns (outcome: Outcome)
      requires WellFormed(e)
      modifies this
      ensures outcome == ConflictError <==> HasConflict(old(events), e)
      ensures outcome == ConflictError ==> events == old(events)
      ensures outcome == Success ==> events == old(events) + [e]
      ensures old(Valid()) ==> Valid()
      ensures old(Valid()) ==>
                (outcome == ConflictError <==> exists i :: 0 <= i < |old(events)| && Overlap(old(events)[i], e))
      ensures old(UniqueIds(events)) && !old(HasId(events, e.id)) ==> UniqueIds(events)
    {
      if Valid() {
        HasConflictIffOverlap(events, e);
      }
      if HasConflict(events, e) {
        outcome := ConflictError;
        return;
      }
      if Valid() {
        AddPreservesNoOverlap(events, e);
      }
      if UniqueIds(events) && !HasId(events, e.id) {
        AddPreservesUniqueIds(events, e);
      }
      events := events + [e];
      outcome := Success;
    }

    /** `deleteEvent`: drops every event with the id; an absent id is a no-op. */
    method DeleteEvent(id: int)
      modifies this
      ensures events == Deleted(old(events), id)
      ensures !HasId(events, id) && IsSubsequence(events, old(events))
      ensures !old(HasId(events, id)) ==> events == old(events)
      ensures old(Valid()) ==> Valid()
      ensures old(UniqueIds(events)) ==> UniqueIds(events)
    {
      if !HasId(events, id) {
        DeleteAbsent(events, id);
      }
      DeletePreservesInvariants(events, id);
      events := Deleted(events, id);
    }

    /** `updateEvent`: refuses an event that overlaps a stored one other than
        the edited entry, otherwise replaces every entry with the id. */
    method UpdateEvent(id: int, e: Event) returns (outcome: Outcome)
      requires WellFormed(e)
      modifies this
      ensures outcome == ConflictError <==> HasConflictExcept(old(events), id, e)
      ensures outcome == ConflictError ==> events == old(events)
      ensures outcome == Success ==> events == Replaced(old(events), id, e)
      ensures |events| == |old(events)|
      ensures !old(HasId(events, id)) ==> events == old(events)
      ensures old(Valid()) && old(UniqueIds(events)) ==> Valid()
      ensures old(UniqueIds(events)) && e.id == id ==> UniqueIds(events)
    {
      if HasConflictExcept(events, id, e) {
        outcome := ConflictError;
        return;
      }
      if Valid() && UniqueIds(events) {
        UpdatePreservesNoOverlap(events, id, e);
      }
      if !HasId(events, id) {
        UpdateAbsent(events, id, e);
      } else if UniqueIds(events) && e.id == id {
        var k :| 0 <= k < |events| && events[k].id == id;
        UpdateSingleResult(events, id, e, k);
      }
      events := Replaced(events, id, e);
      outcome := Success;
    }
  }

  /** Two adds on one date, the second overlapping the first, then an edit
      that keeps the times: the second add is refused and the edit goes through. */
  method Scenario()
  {
    var store := new EventStore();
    var first := Event(1, "Standup", "2024-06-01", "", "09:00", "10:00", Work, Green);
    var second := Event(2, "Review", "2024-06-01", "", "09:30", "10:30", Work, Green);
    var renamed := first.(name := "renamed");
    var outcome := store.AddNewEvent(first);
    assert outcome == Success && store.events == [first];
    ClockLessIffEarlier(second.startTime, first.endTime);
    ClockLessIffEarlier(first.startTime, second.endTime);
    assert Overlap(store.events[0], second);
    outcome := store.AddNewEvent(second);
    assert outcome == ConflictError && store.events == [first];
    ResubmitNeverConflicts(store.events, 0, renamed);
    outcome := store.UpdateEvent(1, renamed);
    assert outcome == Success && store.events == [renamed];
    var all := store.GetAllEvents();
    assert all[0].name == "renamed";
  }
}
