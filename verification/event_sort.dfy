/** `sortEvents`: the events ordered by date, then by start time, equal keys
    kept in their original order, sorted in place. */
module EventSort {
  import opened StringOrder
  import opened Sequences
  import opened Events

  /** The comparator is negative: `a` comes before `b` by date, or on the
      same date by start time. */
  predicate Before(a: Event, b: Event)
  {
    Less(a.date, b.date) || (a.date == b.date && Less(a.startTime, b.startTime))
  }

  /** The comparator is zero. */
  predicate SameKey(a: Event, b: Event)
  {
    a.date == b.date && a.startTime == b.startTime
  }

  lemma BeforeIrreflexive(a: Event)
    ensures !Before(a, a)
  {
    LessIrreflexive(a.date);
    LessIrreflexive(a.startTime);
  }

  lemma BeforeAsymmetric(a: Event, b: Event)
    requires Before(a, b)
    ensures !Before(b, a) && !SameKey(a, b)
  {
    if Less(a.date, b.date) {
      LessAsymmetric(a.date, b.date);
      LessIrreflexive(a.date);
    } else {
      LessAsymmetric(a.startTime, b.startTime);
      LessIrreflexive(a.startTime);
    }
  }

  /** Not after is transitive, so sorted order is well defined. */
  lemma NotBeforeTransitive(a: Event, b: Event, c: Event)
    requires !Before(b, a) && !Before(c, b)
    ensures !Before(c, a)
  {
    LessOrEqual(a.date, b.date);
    LessOrEqual(b.date, c.date);
    LessOrEqual(a.date, c.date);
    LessOrEqual(a.startTime, b.startTime);
    LessOrEqual(b.startTime, c.startTime);
    LessOrEqual(a.startTime, c.startTime);
    if Less(a.date, b.date) && Less(b.date, c.date) {
      LessTransitive(a.date, b.date, c.date);
    }
    if Less(a.startTime, b.startTime) && Less(b.startTime, c.startTime) {
      LessTransitive(a.startTime, b.startTime, c.startTime);
    }
  }

  predicate Sorted(s: seq<Event>)
  {
    forall i, j :: 0 <= i < j < |s| ==> !Before(s[j], s[i])
  }

  /** Places `x` after every element of `t` that does not come after it. */
  function Insert(t: seq<Event>, x: Event): seq<Event>
  {
    if t == [] then [x]
    else if Before(x, t[|t| - 1]) then Insert(t[..|t| - 1], x) + [t[|t| - 1]]
    else t + [x]
  }

  /** The stable sort of `s`: each element inserted in turn into the sorted prefix. */
  function SortedEvents(s: seq<Event>): seq<Event>
  {
    if s == [] then [] else Insert(SortedEvents(s[..|s| - 1]), s[|s| - 1])
  }

  lemma {:induction false} InsertPermutation(t: seq<Event>, x: Event)
    ensures multiset(Insert(t, x)) == multiset(t) + multiset{x}
  {
    if t != [] {
      var init, last := t[..|t| - 1], t[|t| - 1];
      assert t == init + [last];
      if Before(x, last) {
        InsertPermutation(init, x);
      }
    }
  }

  lemma {:induction false} InsertCorrect(t: seq<Event>, x: Event)
    requires Sorted(t)
    ensures Sorted(Insert(t, x))
    ensures multiset(Insert(t, x)) == multiset(t) + multiset{x}
  {
    InsertPermutation(t, x);
    if t != [] {
      var init, last := t[..|t| - 1], t[|t| - 1];
      assert t == init + [last];
      if Before(x, last) {
        assert Sorted(init);
        InsertCorrect(init, x);
        var r := Insert(init, x);
        BeforeAsymmetric(x, last);
        forall k | 0 <= k < |r|
          ensures !Before(last, r[k])
        {
          assert r[k] in multiset(r);
          if r[k] != x {
            assert r[k] in multiset(init);
            var m :| 0 <= m < |init| && init[m] == r[k];
            assert !Before(t[|t| - 1], t[m]);
          }
        }
        assert Insert(t, x) == r + [last];
      } else {
        forall k | 0 <= k < |t|
          ensures !Before(x, t[k])
        {
          if k < |t| - 1 {
            NotBeforeTransitive(t[k], last, x);
          }
        }
        assert Insert(t, x) == t + [x];
      }
    }
  }

  /** The result is ordered by date then start time and is a permutation of the input. */
  lemma {:induction false} SortedEventsCorrect(s: seq<Event>)
    ensures Sorted(SortedEvents(s))
    ensures multiset(SortedEvents(s)) == multiset(s)
    ensures |SortedEvents(s)| == |s|
  {
    if s != [] {
      var init, last := s[..|s| - 1], s[|s| - 1];
      assert s == init + [last];
      SortedEventsCorrect(init);
      var t := SortedEvents(init);
      InsertCorrect(t, last);
      assert SortedEvents(s) == Insert(t, last);
      assert multiset(s) == multiset(init) + multiset{last};
      assert |SortedEvents(s)| == |multiset(SortedEvents(s))|;
    }
  }

  /** An earlier date, or the same date and an earlier start, comes first. */
  lemma SortedEventsOrder(s: seq<Event>, i: int, j: int)
    requires 0 <= i < |SortedEvents(s)| && 0 <= j < |SortedEvents(s)|
    requires Before(SortedEvents(s)[i], SortedEvents(s)[j])
    ensures i < j
  {
    SortedEventsCorrect(s);
    if j == i {
      BeforeIrreflexive(SortedEvents(s)[i]);
    }
  }

  lemma {:induction false} InsertStable(t: seq<Event>, x: Event, p: Event -> bool)
    requires forall a, b :: p(a) && p(b) ==> SameKey(a, b)
    ensures Filter(Insert(t, x), p) == Filter(t, p) + Filter([x], p)
  {
    if t == [] {
      assert Filter([x], p) == (if p(x) then [x] else []);
    } else {
      var init, last := t[..|t| - 1], t[|t| - 1];
      assert t == init + [last];
      FilterConcat(init, [last], p);
      if Before(x, last) {
        InsertStable(init, x, p);
        FilterConcat(Insert(init, x), [last], p);
        BeforeAsymmetric(x, last);
        assert Filter([x], p) == [] || Filter([last], p) == [];
      } else {
        FilterConcat(t, [x], p);
      }
    }
  }

  /** Stability: among events with one key, the sort keeps the input order. */
  lemma {:induction false} SortedEventsStable(s: seq<Event>, p: Event -> bool)
    requires forall a, b :: p(a) && p(b) ==> SameKey(a, b)
    ensures Filter(SortedEvents(s), p) == Filter(s, p)
  {
    if s != [] {
      var init, last := s[..|s| - 1], s[|s| - 1];
      assert s == init + [last];
      SortedEventsStable(init, p);
      InsertStable(SortedEvents(init), last, p);
      FilterConcat(init, [last], p);
    }
  }

  lemma {:induction false} SortedEventsOfSorted(s: seq<Event>)
    requires Sorted(s)
    ensures SortedEvents(s) == s
  {
    if s != [] {
      var init := s[..|s| - 1];
      SortedEventsOfSorted(init);
      assert s == init + [s[|s| - 1]];
    }
  }

  /** Sorting twice is sorting once. */
  lemma SortedEventsIdempotent(s: seq<Event>)
    ensures SortedEvents(SortedEvents(s)) == SortedEvents(s)
  {
    SortedEventsCorrect(s);
    SortedEventsOfSorted(SortedEvents(s));
  }

  /** `Insert` puts `x` after the last element that does not come after it. */
  lemma {:induction false} InsertAt(t: seq<Event>, x: Event, j: int)
    requires 0 <= j <= |t|
    requires j == 0 || !Before(x, t[j - 1])
    requires forall k :: j <= k < |t| ==> Before(x, t[k])
    ensures Insert(t, x) == t[..j] + [x] + t[j..]
  {
    if |t| > j {
      var init := t[..|t| - 1];
      assert init[..j] == t[..j] && init[j..] + [t[|t| - 1]] == t[j..];
      InsertAt(init, x, j);
    } else {
      assert t[..j] == t;
      if j > 0 {
        assert t[..j - 1] + [t[j - 1]] == t;
      }
    }
  }

  /** The inner loop of the in-place sort: shifts right by one every element
      of `a[..i]`, from the end, that `x` comes before, and returns the hole
      left behind. */
  method ShiftGreater(a: array<Event>, i: int, x: Event) returns (j: int)
    requires 0 <= i < a.Length
    modifies a
    ensures 0 <= j <= i
    ensures forall k :: 0 <= k < j ==> a[k] == old(a[k])
    ensures forall k :: j < k <= i ==> a[k] == old(a[k - 1])
    ensures forall k :: i < k < a.Length ==> a[k] == old(a[k])
    ensures j == 0 || !Before(x, a[j - 1])
    ensures forall k :: j <= k < i ==> Before(x, old(a[k]))
  {
    j := i;
    while j > 0 && Before(x, a[j - 1])
      invariant 0 <= j <= i
      invariant forall k :: 0 <= k < j ==> a[k] == old(a[k])
      invariant forall k :: j < k <= i ==> a[k] == old(a[k - 1])
      invariant forall k :: i < k < a.Length ==> a[k] == old(a[k])
      invariant forall k :: j <= k < i ==> Before(x, old(a[k]))
    {
      a[j] := a[j - 1];
      j := j - 1;
    }
  }

  /** One step of the in-place sort: moves `a[i]` left past every element of
      `a[..i]` that comes after it. */
  method InsertInPlace(a: array<Event>, i: int)
    requires 0 <= i < a.Length
    modifies a
    ensures a[..i + 1] == Insert(old(a[..i]), old(a[i]))
    ensures a[i + 1..] == old(a[i + 1..])
  {
    var x := a[i];
    ghost var t := a[..i];
    var j := ShiftGreater(a, i, x);
    a[j] := x;
    InsertAt(t, x, j);
    Placement(t, x, j, a[..i + 1]);
  }

  /** A sequence that agrees with `t` before `j`, holds `x` at `j` and agrees
      with `t` shifted by one after `j` is `t` with `x` inserted at `j`. */
  lemma Placement(t: seq<Event>, x: Event, j: int, s: seq<Event>)
    requires 0 <= j <= |t| && |s| == |t| + 1
    requires forall k :: 0 <= k < j ==> s[k] == t[k]
    requires s[j] == x
    requires forall k :: j < k < |s| ==> s[k] == t[k - 1]
    ensures s == t[..j] + [x] + t[j..]
  {
    var placed := t[..j] + [x] + t[j..];
    forall k | 0 <= k < |s|
      ensures s[k] == placed[k]
    {
      if k < j {
        assert placed[k] == t[k];
      } else if j < k {
        assert placed[k] == t[k - 1];
      }
    }
  }

  /** `events.sort(...)`: a stable in-place sort of the array by date, then
      start time. */
  method SortEvents(a: array<Event>)
    modifies a
    ensures a[..] == SortedEvents(old(a[..]))
    ensures Sorted(a[..]) && multiset(a[..]) == multiset(old(a[..]))
  {
    ghost var input := a[..];
    var i := 0;
    while i < a.Length
      invariant 0 <= i <= a.Length
      invariant a[..i] == SortedEvents(input[..i])
      invariant a[i..] == input[i..]
    {
      assert input[..i + 1] == input[..i] + [input[i]];
      InsertInPlace(a, i);
      i := i + 1;
    }
    assert input[..a.Length] == input;
    SortedEventsCorrect(input);
  }
}
