/** The search page's `filterEvents`: the stored events narrowed by an optional
    keyword, an optional type and an optional date, each applied only when its
    field is non-empty. */
module EventSearch {
  import opened Sequences
  import opened Events

  /** The three search fields; the empty string means the field is unused. */
  datatype Query = Query(term: string, kind: string, date: string)

  /** `toLowerCase` on ASCII letters; every other character is kept. */
  function LowerChar(c: char): (r: char)
    ensures 'A' <= c <= 'Z' ==> r as int == c as int + 32
    ensures !('A' <= c <= 'Z') ==> r == c
    ensures !('A' <= r <= 'Z')
  {
    if 'A' <= c <= 'Z' then (c as int + 32) as char else c
  }

  function Lower(s: string): (r: string)
    ensures |r| == |s| && forall i :: 0 <= i < |s| ==> r[i] == LowerChar(s[i])
    ensures forall i :: 0 <= i < |r| ==> !('A' <= r[i] <= 'Z')
    ensures (forall i :: 0 <= i < |s| ==> !('A' <= s[i] <= 'Z')) ==> r == s
  {
    seq(|s|, i requires 0 <= i < |s| => LowerChar(s[i]))
  }

  /** Lower-casing twice is lower-casing once. */
  lemma LowerIdempotent(s: string)
    ensures Lower(Lower(s)) == Lower(s)
  {
  }

  /** `s.includes(sub)`. */
  predicate Contains(s: string, sub: string)
  {
    exists i :: 0 <= i <= |s| && sub <= s[i..]
  }

  /** The name of each type as the `EventType` enum spells it. */
  function TypeName(t: EventType): string
  {
    match t
    case Personal => "personal"
    case Work => "work"
    case Social => "social"
    case Family => "family"
    case Other => "other"
  }

  /** The keyword test: lower-cased name or lower-cased description contains the lower-cased term. */
  predicate MatchesTerm(e: Event, term: string)
  {
    Contains(Lower(e.name), Lower(term)) || Contains(Lower(e.description), Lower(term))
  }

  /** The type test: the lower-cased type name contains the lower-cased selection. */
  predicate MatchesKind(e: Event, kind: string)
  {
    Contains(Lower(TypeName(e.kind)), Lower(kind))
  }

  function TermFilter(term: string): Event -> bool
  {
    (e: Event) => MatchesTerm(e, term)
  }

  function KindFilter(kind: string): Event -> bool
  {
    (e: Event) => MatchesKind(e, kind)
  }

  /** The date test compares the two dates as calendar days; `sameDay` stands
      for that comparison. */
  function DateFilter(date: string, sameDay: (string, string) -> bool): Event -> bool
  {
    (e: Event) => sameDay(e.date, date)
  }

  /** `if (field) { filtered = filtered.filter(p); }`. */
  function Narrow(s: seq<Event>, active: bool, p: Event -> bool): seq<Event>
  {
    if active then Filter(s, p) else s
  }

  /** `filterEvents`. */
  function Search(events: seq<Event>, q: Query, sameDay: (string, string) -> bool): seq<Event>
  {
    var byTerm := Narrow(events, q.term != "", TermFilter(q.term));
    var byKind := Narrow(byTerm, q.kind != "", KindFilter(q.kind));
    Narrow(byKind, q.date != "", DateFilter(q.date, sameDay))
  }

  /** An event passes every active field of the query. */
  predicate Accepts(q: Query, sameDay: (string, string) -> bool, e: Event)
  {
    (q.term != "" ==> MatchesTerm(e, q.term)) &&
    (q.kind != "" ==> MatchesKind(e, q.kind)) &&
    (q.date != "" ==> sameDay(e.date, q.date))
  }

  lemma NarrowIsFilter(s: seq<Event>, active: bool, p: Event -> bool, p': Event -> bool)
    requires forall e :: p'(e) == (!active || p(e))
    ensures Narrow(s, active, p) == Filter(s, p')
  {
    if active {
      FilterEquivalent(s, p, p');
    } else {
      FilterKeepsAll(s, p');
    }
  }

  /** The three chained filters are one filter by the conjunction of the active tests. */
  lemma SearchIsFilter(events: seq<Event>, q: Query, sameDay: (string, string) -> bool, accepts: Event -> bool)
    requires forall e :: accepts(e) == Accepts(q, sameDay, e)
    ensures Search(events, q, sameDay) == Filter(events, accepts)
  {
    var p1 := (e: Event) => q.term == "" || MatchesTerm(e, q.term);
    var p2 := (e: Event) => q.kind == "" || MatchesKind(e, q.kind);
    var p3 := (e: Event) => q.date == "" || sameDay(e.date, q.date);
    var p12 := (e: Event) => p1(e) && p2(e);
    NarrowIsFilter(events, q.term != "", TermFilter(q.term), p1);
    var byTerm := Filter(events, p1);
    NarrowIsFilter(byTerm, q.kind != "", KindFilter(q.kind), p2);
    FilterFuse(events, p1, p2, p12);
    var byKind := Filter(events, p12);
    NarrowIsFilter(byKind, q.date != "", DateFilter(q.date, sameDay), p3);
    FilterFuse(events, p12, p3, accepts);
  }

  /** With every field empty the whole list is shown. */
  lemma EmptyQueryKeepsAll(events: seq<Event>, sameDay: (string, string) -> bool)
    ensures Search(events, Query("", "", ""), sameDay) == events
  {
  }

  /** Soundness, completeness and order: the result is exactly the accepted
      events, every copy of each, in their original order. */
  lemma SearchCorrect(events: seq<Event>, q: Query, sameDay: (string, string) -> bool)
    ensures IsSubsequence(Search(events, q, sameDay), events)
    ensures forall i :: 0 <= i < |Search(events, q, sameDay)| ==> Accepts(q, sameDay, Search(events, q, sameDay)[i])
    ensures forall i :: 0 <= i < |events| && Accepts(q, sameDay, events[i]) ==> events[i] in Search(events, q, sameDay)
    ensures forall e :: multiset(Search(events, q, sameDay))[e] == if Accepts(q, sameDay, e) then multiset(events)[e] else 0
  {
    var accepts := (e: Event) => Accepts(q, sameDay, e);
    SearchIsFilter(events, q, sameDay, accepts);
    forall e
      ensures multiset(Search(events, q, sameDay))[e] == if Accepts(q, sameDay, e) then multiset(events)[e] else 0
    {
      FilterCount(events, accepts, e);
    }
  }

  /** `strict` asks at least what `loose` asks: every field `loose` uses,
      `strict` uses with the same value. */
  predicate Refines(strict: Query, loose: Query)
  {
    (loose.term != "" ==> strict.term == loose.term) &&
    (loose.kind != "" ==> strict.kind == loose.kind) &&
    (loose.date != "" ==> strict.date == loose.date)
  }

  /** Filling in another field never adds events: the result is a subsequence
      of the result without it. */
  lemma RefiningNarrows(events: seq<Event>, strict: Query, loose: Query, sameDay: (string, string) -> bool)
    requires Refines(strict, loose)
    ensures IsSubsequence(Search(events, strict, sameDay), Search(events, loose, sameDay))
    ensures |Search(events, strict, sameDay)| <= |Search(events, loose, sameDay)|
  {
    var a1 := (e: Event) => Accepts(loose, sameDay, e);
    var a2 := (e: Event) => Accepts(strict, sameDay, e);
    SearchIsFilter(events, loose, sameDay, a1);
    SearchIsFilter(events, strict, sameDay, a2);
    FilterFuse(events, a1, a2, a2);
    SubsequenceLength(Search(events, strict, sameDay), Search(events, loose, sameDay));
  }

  lemma LowerTypeName(t: EventType)
    ensures Lower(TypeName(t)) == TypeName(t)
  {
    var n := TypeName(t);
    assert forall i :: 0 <= i < |n| ==> !('A' <= n[i] <= 'Z');
  }

  /** Choosing a type from the list of types keeps every event of that type. */
  lemma KindSelectionKeepsType(e: Event, t: EventType)
    requires e.kind == t
    ensures MatchesKind(e, TypeName(t))
  {
    LowerTypeName(t);
    assert TypeName(t) <= Lower(TypeName(e.kind))[0..];
  }

  /** The keyword and the type are matched without regard to letter case. */
  lemma CaseInsensitive(e: Event, term: string, kind: string)
    ensures MatchesTerm(e, Lower(term)) == MatchesTerm(e, term)
    ensures MatchesKind(e, Lower(kind)) == MatchesKind(e, kind)
  {
    LowerIdempotent(term);
    LowerIdempotent(kind);
  }
}
