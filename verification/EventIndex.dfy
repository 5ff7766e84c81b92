/** The index over timeline events that are sorted by start, and its iterators
    (opsiclientd_data/common/static_html/timeline/timeline_ajax/simile-ajax-bundle.js). */
module EventIndexes {
  import opened Common

  class TimelineEvent {
    const start: int
    const end: int
    var earliestOverlapIndex: int

    constructor (start: int, end: int)
      ensures this.start == start && this.end == end
    {
      this.start, this.end := start, end;
    }
  }

  type Events = seq<TimelineEvent>

  predicate SortedByStart(events: Events) {
    forall i, j :: 0 <= i < j < |events| ==> events[i].start <= events[j].start
  }

  predicate Distinct(events: Events) {
    forall i, j :: 0 <= i < j < |events| ==> events[i] != events[j]
  }

  /** Everything before b starts earlier than date, everything from b on does not. */
  predicate LowerBound(events: Events, date: int, b: int) {
    && 0 <= b <= |events|
    && (forall k :: 0 <= k < b ==> events[k].start < date)
    && (forall k :: b <= k < |events| ==> events[k].start >= date)
  }

  // ----- the plain filter -----

  predicate Overlaps(e: TimelineEvent, startDate: int, endDate: int) {
    e.start < endDate && e.end > startDate
  }

  function Matching(events: Events, startDate: int, endDate: int): Events {
    if events == [] then []
    else if Overlaps(events[0], startDate, endDate) then [events[0]] + Matching(events[1..], startDate, endDate)
    else Matching(events[1..], startDate, endDate)
  }

  function Reversed(events: Events): Events {
    if events == [] then [] else Reversed(events[1..]) + [events[0]]
  }

  lemma {:induction false} MatchingConcat(a: Events, b: Events, startDate: int, endDate: int)
    ensures Matching(a + b, startDate, endDate) == Matching(a, startDate, endDate) + Matching(b, startDate, endDate)
  {
    if a == [] {
      assert a + b == b;
    } else {
      assert (a + b)[1..] == a[1..] + b;
      MatchingConcat(a[1..], b, startDate, endDate);
    }
  }

  lemma {:induction false} NothingMatches(events: Events, startDate: int, endDate: int)
    requires forall k :: 0 <= k < |events| ==> !Overlaps(events[k], startDate, endDate)
    ensures Matching(events, startDate, endDate) == []
  {
    if events != [] {
      NothingMatches(events[1..], startDate, endDate);
    }
  }

  lemma {:induction false} ReversedConcat(a: Events, b: Events)
    ensures Reversed(a + b) == Reversed(b) + Reversed(a)
  {
    if a == [] {
      assert a + b == b;
    } else {
      assert (a + b)[1..] == a[1..] + b;
      ReversedConcat(a[1..], b);
    }
  }

  /** The filter keeps exactly the events that start before the end date and end after the start date. */
  lemma {:induction false} MatchingMembers(events: Events, startDate: int, endDate: int)
    ensures forall k :: 0 <= k < |Matching(events, startDate, endDate)| ==>
              var e := Matching(events, startDate, endDate)[k]; e in events && e.start < endDate && e.end > startDate
    ensures forall k :: 0 <= k < |events| && events[k].start < endDate && events[k].end > startDate ==>
              events[k] in Matching(events, startDate, endDate)
    ensures Distinct(events) ==> Distinct(Matching(events, startDate, endDate))
  {
    if events != [] {
      MatchingMembers(events[1..], startDate, endDate);
      assert forall k :: 1 <= k < |events| ==> events[k] == events[1..][k - 1];
      if Distinct(events) {
        assert events[0] !in events[1..];
      }
    }
  }

  /** The filter keeps the order. */
  lemma {:induction false} MatchingSorted(events: Events, startDate: int, endDate: int)
    requires SortedByStart(events)
    ensures SortedByStart(Matching(events, startDate, endDate))
  {
    if events != [] {
      var rest := Matching(events[1..], startDate, endDate);
      MatchingSorted(events[1..], startDate, endDate);
      MatchingMembers(events[1..], startDate, endDate);
      forall k | 0 <= k < |rest|
        ensures events[0].start <= rest[k].start
      {
        assert rest[k] in events[1..];
        var i :| 0 <= i < |events[1..]| && events[1..][i] == rest[k];
        assert events[i + 1] == rest[k];
      }
    }
  }

  // ----- the overlap index -----

  /** i is the first event that still lasts when the k-th event starts, or the k-th event itself. */
  predicate EarliestOverlap(events: Events, k: int, i: int)
    requires 0 <= k < |events|
  {
    && 0 <= i <= k
    && (i == k || events[i].end > events[k].start)
    && forall j :: 0 <= j < i ==> events[j].end <= events[k].start
  }

  predicate IndexedBelow(events: Events, n: int)
    reads events
  {
    n <= |events| && forall k {:trigger events[k].earliestOverlapIndex} :: 0 <= k < n ==>
      EarliestOverlap(events, k, events[k].earliestOverlapIndex)
  }

  /** Where the iterators begin: nothing before that index lasts beyond startDate. */
  predicate BeginsAt(events: Events, startDate: int, begin: int) {
    0 <= begin <= |events| && forall k :: 0 <= k < begin ==> events[k].end <= startDate
  }

  lemma BeginsEarly(events: Events, startDate: int, found: int, begin: int)
    requires SortedByStart(events) && LowerBound(events, startDate, found)
    requires if found > 0 then EarliestOverlap(events, found - 1, begin) else begin == found
    ensures BeginsAt(events, startDate, begin)
  {
  }

  /** The events between the two bounds match as all events do. */
  lemma WindowSuffices(events: Events, startDate: int, endDate: int, begin: int, max: int)
    requires BeginsAt(events, startDate, begin) && LowerBound(events, endDate, max)
    ensures begin <= max ==> Matching(events[begin..max], startDate, endDate) == Matching(events, startDate, endDate)
    ensures begin > max ==> Matching(events, startDate, endDate) == []
  {
    if begin <= max {
      NothingMatches(events[..begin], startDate, endDate);
      NothingMatches(events[max..], startDate, endDate);
      MatchingConcat(events[..begin], events[begin..max], startDate, endDate);
      MatchingConcat(events[..begin] + events[begin..max], events[max..], startDate, endDate);
      assert events == events[..begin] + events[begin..max] + events[max..];
    } else {
      NothingMatches(events, startDate, endDate);
    }
  }

  lemma OverlapFound(events: Events, f: nat, g: nat)
    requires f < g < |events| && events[g].start < events[f].end
    requires forall j :: 0 <= j < f ==> events[j].end <= events[g].start
    ensures EarliestOverlap(events, g, f)
  {
  }

  lemma NoLaterOverlap(events: Events, f: nat, g: nat)
    requires SortedByStart(events) && f < g < |events| && events[f].end <= events[g].start
    ensures forall k :: g <= k < |events| ==> events[f].end <= events[k].start
  {
  }

  // ----- sorted arrays -----

  class SortedArray {
    var a: Events

    constructor ()
      ensures a == []
    {
      a := [];
    }

    /** Binary search for the first event that does not start before date. */
    method Find(date: int) returns (b: int)
      requires SortedByStart(a)
      ensures LowerBound(a, date, b)
    {
      b := 0;
      var n := |a|;
      while b < n
        invariant 0 <= b <= n <= |a|
        invariant forall k :: 0 <= k < b ==> a[k].start < date
        invariant forall k :: n <= k < |a| ==> a[k].start >= date
        decreases n - b
      {
        var c := (b + n) / 2;
        if c == b {
          return if a[c].start < date then b + 1 else b;
        } else if a[c].start < date {
          b := c;
        } else {
          n := c;
        }
      }
    }

    /** Puts the event before all that do not start earlier. */
    method Add(event: TimelineEvent) returns (ghost b: nat)
      requires SortedByStart(a)
      modifies this
      ensures SortedByStart(a)
      ensures LowerBound(old(a), event.start, b) && a == old(a)[..b] + [event] + old(a)[b..]
      ensures Distinct(old(a)) && event !in old(a) ==> Distinct(a)
    {
      var i := Find(event.start);
      b := i;
      if i < |a| {
        a := a[..i] + [event] + a[i..];
      } else {
        assert a[..i] == a && a[i..] == [];
        a := a + [event];
      }
    }
  }

  // ----- iterators -----

  class Iterator {
    const events: SortedArray
    const startDate: int
    const endDate: int
    var currentIndex: int
    var maxIndex: int
    var hasNext: bool
    var next: TimelineEvent?

    /** The position lies in the array, and the event shown is the one it stands on. */
    predicate Valid()
      reads this, events
    {
      && -1 <= currentIndex
      && 0 <= maxIndex <= |events.a|
      && (hasNext ==> 0 <= currentIndex < maxIndex && next == events.a[currentIndex])
    }

    /** What the iterator still gives. */
    ghost function Rest(): Events
      requires Valid()
      reads this, events
    {
      if hasNext then [next] + Matching(events.a[currentIndex + 1..maxIndex], startDate, endDate) else []
    }

    constructor (events: SortedArray, startDate: int, endDate: int)
      requires SortedByStart(events.a)
      requires IndexedBelow(events.a, |events.a|)
      ensures this.events == events && this.startDate == startDate && this.endDate == endDate
      ensures Valid() && Rest() == Matching(events.a, startDate, endDate)
    {
      this.events, this.startDate, this.endDate := events, startDate, endDate;
      hasNext, next := false, null;
      currentIndex, maxIndex := 0, 0;
      new;
      hide Matching, Overlaps, LowerBound, BeginsAt, SortedByStart, EarliestOverlap;
      currentIndex := events.Find(startDate);
      ghost var found := currentIndex;
      if currentIndex - 1 >= 0 {
        currentIndex := events.a[currentIndex - 1].earliestOverlapIndex;
      }
      BeginsEarly(events.a, startDate, found, currentIndex);
      currentIndex := currentIndex - 1;
      maxIndex := events.Find(endDate);
      WindowSuffices(events.a, startDate, endDate, currentIndex + 1, maxIndex);
      FindNext();
    }

    method FindNext()
      requires -1 <= currentIndex && 0 <= maxIndex <= |events.a|
      modifies this`currentIndex, this`hasNext, this`next
      ensures Valid()
      ensures Rest() ==
                if old(currentIndex) + 1 <= maxIndex
                then Matching(events.a[old(currentIndex) + 1..maxIndex], startDate, endDate) else []
    {
      ghost var first := currentIndex + 1;
      currentIndex := currentIndex + 1;
      while currentIndex < maxIndex
        invariant first <= currentIndex && (currentIndex <= maxIndex || currentIndex == first)
        invariant first <= maxIndex ==>
                    Matching(events.a[first..maxIndex], startDate, endDate) ==
                      Matching(events.a[currentIndex..maxIndex], startDate, endDate)
      {
        var e := events.a[currentIndex];
        assert events.a[currentIndex..maxIndex][1..] == events.a[currentIndex + 1..maxIndex];
        if e.start < endDate && e.end > startDate {
          next := e;
          hasNext := true;
          return;
        }
        currentIndex := currentIndex + 1;
      }
      next := null;
      hasNext := false;
    }

    /** The next event, null when there is none left. */
    method Next() returns (r: TimelineEvent?)
      requires Valid()
      modifies this`currentIndex, this`hasNext, this`next
      ensures Valid()
      ensures old(Rest()) == [] ==> r == null && Rest() == []
      ensures old(Rest()) != [] ==> r == old(Rest())[0] && Rest() == old(Rest())[1..]
    {
      if hasNext {
        r := next;
        FindNext();
      } else {
        r := null;
      }
    }
  }

  class ReverseIterator {
    const events: SortedArray
    const startDate: int
    const endDate: int
    var currentIndex: int
    var minIndex: int
    var hasNext: bool
    var next: TimelineEvent?

    predicate Valid()
      reads this, events
    {
      && 0 <= minIndex && currentIndex <= |events.a|
      && (hasNext ==> minIndex <= currentIndex < |events.a| && next == events.a[currentIndex])
    }

    ghost function Rest(): Events
      requires Valid()
      reads this, events
    {
      if hasNext then [next] + Reversed(Matching(events.a[minIndex..currentIndex], startDate, endDate)) else []
    }

    constructor (events: SortedArray, startDate: int, endDate: int)
      requires SortedByStart(events.a)
      requires IndexedBelow(events.a, |events.a|)
      ensures this.events == events && this.startDate == startDate && this.endDate == endDate
      ensures Valid() && Rest() == Reversed(Matching(events.a, startDate, endDate))
    {
      this.events, this.startDate, this.endDate := events, startDate, endDate;
      hasNext, next := false, null;
      currentIndex, minIndex := 0, 0;
      new;
      hide Matching, Overlaps, LowerBound, BeginsAt, SortedByStart, EarliestOverlap;
      minIndex := events.Find(startDate);
      ghost var found := minIndex;
      if minIndex - 1 >= 0 {
        minIndex := events.a[minIndex - 1].earliestOverlapIndex;
      }
      BeginsEarly(events.a, startDate, found, minIndex);
      currentIndex := events.Find(endDate);
      WindowSuffices(events.a, startDate, endDate, minIndex, currentIndex);
      FindNext();
    }

    method FindNext()
      requires 0 <= minIndex && currentIndex <= |events.a|
      modifies this`currentIndex, this`hasNext, this`next
      ensures Valid()
      ensures Rest() ==
                if minIndex <= old(currentIndex)
                then Reversed(Matching(events.a[minIndex..old(currentIndex)], startDate, endDate)) else []
    {
      ghost var last := currentIndex;
      currentIndex := currentIndex - 1;
      while currentIndex >= minIndex
        invariant currentIndex < last && (minIndex <= currentIndex + 1 || currentIndex + 1 == last)
        invariant minIndex <= last ==>
                    Matching(events.a[minIndex..last], startDate, endDate) ==
                      Matching(events.a[minIndex..currentIndex + 1], startDate, endDate)
      {
        var e := events.a[currentIndex];
        LastMatching(events.a[minIndex..currentIndex], e, startDate, endDate);
        assert events.a[minIndex..currentIndex + 1] == events.a[minIndex..currentIndex] + [e];
        if e.start < endDate && e.end > startDate {
          next := e;
          hasNext := true;
          return;
        }
        currentIndex := currentIndex - 1;
      }
      next := null;
      hasNext := false;
    }

    method Next() returns (r: TimelineEvent?)
      requires Valid()
      modifies this`currentIndex, this`hasNext, this`next
      ensures Valid()
      ensures old(Rest()) == [] ==> r == null && Rest() == []
      ensures old(Rest()) != [] ==> r == old(Rest())[0] && Rest() == old(Rest())[1..]
    {
      if hasNext {
        r := next;
        FindNext();
      } else {
        r := null;
      }
    }
  }

  lemma LastMatching(events: Events, e: TimelineEvent, startDate: int, endDate: int)
    ensures Matching(events + [e], startDate, endDate) ==
              Matching(events, startDate, endDate) + if Overlaps(e, startDate, endDate) then [e] else []
    ensures Reversed(Matching(events + [e], startDate, endDate)) ==
            (if Overlaps(e, startDate, endDate) then [e] else []) + Reversed(Matching(events, startDate, endDate))
  {
    MatchingConcat(events, [e], startDate, endDate);
    var m := if Overlaps(e, startDate, endDate) then [e] else [];
    assert Matching([e], startDate, endDate) == m;
    ReversedConcat(Matching(events, startDate, endDate), m);
    assert Reversed(m) == m;
  }

  // ----- the index -----

  class EventIndex {
    const events: SortedArray
    var indexed: bool

    predicate Valid()
      reads this, events, events.a
    {
      && SortedByStart(events.a) && Distinct(events.a)
      && (indexed ==> IndexedBelow(events.a, |events.a|))
    }

    constructor ()
      ensures Valid() && events.a == [] && fresh(events)
    {
      events := new SortedArray();
      indexed := true;
    }

    method Add(event: TimelineEvent)
      requires Valid() && event !in events.a
      modifies this, events
      ensures Valid() && multiset(events.a) == multiset(old(events.a)) + multiset{event}
    {
      ghost var before := events.a;
      ghost var b := events.Add(event);
      assert before == before[..b] + before[b..];
      indexed := false;
    }

    method RemoveAll()
      modifies this, events
      ensures Valid() && events.a == []
    {
      events.a := [];
      indexed := false;
    }

    /** Computes for each event where the events that overlap its start begin, with two indexes that only move
        forward. */
    method Index()
      requires Valid()
      modifies this`indexed, events.a
      ensures Valid() && indexed
    {
      var a := events.a;
      var e := |a|;
      for f := 0 to e
        invariant forall k :: 0 <= k < f ==> a[k].earliestOverlapIndex == k
      {
        a[f].earliestOverlapIndex := f;
      }
      var g := 1;
      for f := 0 to e
        invariant 1 <= g && (f > 0 ==> f <= g) && (g <= e || g == 1)
        invariant IndexedBelow(a, if g < e then g else e)
        invariant forall k :: g <= k < e ==> a[k].earliestOverlapIndex == k
        invariant forall k, j :: g <= k < e && 0 <= j < f ==> a[j].end <= a[k].start
      {
        g := if g < f + 1 then f + 1 else g;
        g := Sweep(f, g);
      }
      indexed := true;
    }

    /** The inner loop: all events from g on that start before the end of the f-th overlap it. */
    method Sweep(f: nat, g0: nat) returns (g: nat)
      requires SortedByStart(events.a) && Distinct(events.a)
      requires f < |events.a| && f + 1 <= g0 <= |events.a|
      requires IndexedBelow(events.a, g0)
      requires forall k :: g0 <= k < |events.a| ==> events.a[k].earliestOverlapIndex == k
      requires forall k, j :: g0 <= k < |events.a| && 0 <= j < f ==> events.a[j].end <= events.a[k].start
      modifies events.a
      ensures g0 <= g <= |events.a|
      ensures IndexedBelow(events.a, g)
      ensures forall k :: g <= k < |events.a| ==> events.a[k].earliestOverlapIndex == k
      ensures forall k, j :: g <= k < |events.a| && 0 <= j <= f ==> events.a[j].end <= events.a[k].start
    {
      hide EarliestOverlap, SortedByStart;
      var a := events.a;
      g := g0;
      while g < |a|
        invariant g0 <= g <= |a|
        invariant IndexedBelow(a, g)
        invariant forall k :: g <= k < |a| ==> a[k].earliestOverlapIndex == k
      {
        if a[g].start < a[f].end {
          OverlapFound(a, f, g);
          a[g].earliestOverlapIndex := f;
          g := g + 1;
        } else {
          NoLaterOverlap(a, f, g);
          break;
        }
      }
    }

    method GetIterator(startDate: int, endDate: int) returns (it: Iterator)
      requires Valid()
      modifies this`indexed, events.a
      ensures Valid() && fresh(it) && it.events == events && it.Valid()
      ensures it.Rest() == Matching(events.a, startDate, endDate) && SortedByStart(it.Rest())
    {
      if !indexed {
        Index();
      }
      it := new Iterator(events, startDate, endDate);
      MatchingSorted(events.a, startDate, endDate);
    }

    method GetReverseIterator(startDate: int, endDate: int) returns (it: ReverseIterator)
      requires Valid()
      modifies this`indexed, events.a
      ensures Valid() && fresh(it) && it.events == events && it.Valid()
      ensures it.Rest() == Reversed(Matching(events.a, startDate, endDate))
    {
      if !indexed {
        Index();
      }
      it := new ReverseIterator(events, startDate, endDate);
    }

    /** The latest end, found among the events that may overlap the start of the last one. */
    method GetLatestDate() returns (date: Option<int>)
      requires Valid()
      modifies this`indexed, events.a
      ensures Valid()
      ensures date.None? <==> events.a == []
      ensures date.Some? ==>
                exists c ::
                  EarliestOverlap(events.a, |events.a| - 1, c) && MaximumFrom(events.a, c, |events.a|, date.value)
    {
      if events.a == [] {
        return None;
      }
      if !indexed {
        Index();
      }
      var last := events.a[|events.a| - 1];
      var c := last.earliestOverlapIndex;
      assert EarliestOverlap(events.a, |events.a| - 1, c);
      var b := LatestFrom(c);
      return Some(b);
    }

    method LatestFrom(c: int) returns (b: int)
      requires 0 <= c < |events.a|
      ensures MaximumFrom(events.a, c, |events.a|, b)
    {
      b := events.a[c].end;
      ghost var k := c;
      for d := c + 1 to |events.a|
        invariant c <= k < d && events.a[k].end == b
        invariant forall k :: c <= k < d ==> events.a[k].end <= b
      {
        if events.a[d].end > b {
          b, k := events.a[d].end, d;
        }
      }
    }
  }

  /** The latest end of the events from c up to n. */
  predicate MaximumFrom(events: Events, c: int, n: int, date: int) {
    && 0 <= c < n <= |events|
    && (exists k :: c <= k < n && events[k].end == date)
    && (forall k :: c <= k < n ==> events[k].end <= date)
  }

  /** The date found is the latest of all ends exactly if the last event does not end before it starts, or some
      event lasts beyond its start, or no event ends later than it. */
  lemma LatestOfAllIff(events: Events, c: int, date: int)
    requires events != [] && EarliestOverlap(events, |events| - 1, c) && MaximumFrom(events, c, |events|, date)
    ensures var last := events[|events| - 1];
      MaximumFrom(events, 0, |events|, date) <==>
        (last.start <= last.end || (exists k :: 0 <= k < |events| && events[k].end > last.start) ||
         forall k :: 0 <= k < |events| ==> events[k].end <= last.end)
  {
    var last := events[|events| - 1];
    if exists k :: 0 <= k < |events| && events[k].end > last.start {
      var k :| 0 <= k < |events| && events[k].end > last.start;
      assert c <= k;
      assert last.start < date;
    }
  }

  /** Two events for which the date found is not the latest: the last event ends before it starts, and the
      first is over by then but ends later. */
  lemma LatestMissesEarlier(first: TimelineEvent, last: TimelineEvent)
    requires (first.start, first.end) == (0, 5) && (last.start, last.end) == (10, 1)
    ensures var events := [first, last];
      SortedByStart(events) && EarliestOverlap(events, 1, 1) && MaximumFrom(events, 1, 2, 1) &&
        !MaximumFrom(events, 0, 2, 1)
    ensures forall c, date :: EarliestOverlap([first, last], 1, c) && MaximumFrom([first, last], c, 2, date) ==>
              date == 1
  {
    var events := [first, last];
    assert events[0] == first && events[1] == last;
  }
}
