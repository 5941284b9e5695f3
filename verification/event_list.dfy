/** The events list the public page renders: a case-insensitive search over
    four text fields, an upcoming/past/all date window, and a sort by date
    (ascending for upcoming, descending otherwise). Case folding is the
    caller-supplied `lower`, since Unicode lowering is not modelled. */
module EventList {
  import opened Types
  import opened Seqs
  import opened Text

  datatype FilterType = All | Upcoming | Past

  /** The search predicate: the lowered term occurs in the lowered name,
      description (missing reads as empty), location or provider name. An
      empty term matches nothing here; it switches the search off instead. */
  predicate MatchesSearch(e: Event, term: string, lower: string -> string) {
    var t := lower(term);
    || Contains(lower(e.name), t)
    || Contains(lower(e.description.GetOr("")), t)
    || Contains(lower(e.location), t)
    || Contains(lower(e.serviceProvider.name), t)
  }

  function Searching(term: string, lower: string -> string): Event -> bool {
    (e: Event) => MatchesSearch(e, term, lower)
  }

  /** Strictly after `now`. */
  function IsUpcoming(now: int): Event -> bool {
    (e: Event) => e.date > now
  }

  /** At or before `now`: an event happening exactly now is already past. */
  function IsPastAt(now: int): Event -> bool {
    (e: Event) => e.date <= now
  }

  /** The date window a filter type selects. */
  predicate InWindow(e: Event, ft: FilterType, now: int) {
    match ft
    case All => true
    case Upcoming => e.date > now
    case Past => e.date <= now
  }

  /** The sort key: the date for ascending order, its negation otherwise. */
  function Key(e: Event, ascending: bool): int {
    if ascending then e.date else -e.date
  }

  predicate Sorted(s: seq<Event>, ascending: bool) {
    forall i, j :: 0 <= i < j < |s| ==> Key(s[i], ascending) <= Key(s[j], ascending)
  }

  /** Places `x` in front of the first element whose key is not smaller, so
      `x` stays ahead of equal keys. */
  function Insert(x: Event, t: seq<Event>, ascending: bool): (r: seq<Event>)
    ensures multiset(r) == multiset(t) + multiset{x}
  {
    if t == [] then [x]
    else if Key(x, ascending) <= Key(t[0], ascending) then [x] + t
    else
      assert t == [t[0]] + t[1..];
      [t[0]] + Insert(x, t[1..], ascending)
  }

  /** Everything in the result of an insertion was inserted or was there. */
  lemma InsertMember(x: Event, t: seq<Event>, ascending: bool, y: Event)
    requires y in Insert(x, t, ascending)
    ensures y == x || y in t
  {
    assert y in multiset(Insert(x, t, ascending));
  }

  /** Putting an element no greater than everything in a sorted list in
      front of it keeps the list sorted. */
  lemma ConsSorted(h: Event, rest: seq<Event>, ascending: bool)
    requires Sorted(rest, ascending)
    requires forall j :: 0 <= j < |rest| ==> Key(h, ascending) <= Key(rest[j], ascending)
    ensures Sorted([h] + rest, ascending)
  {
    var r := [h] + rest;
    forall i, j | 0 <= i < j < |r| ensures Key(r[i], ascending) <= Key(r[j], ascending) {
      assert r[j] == rest[j - 1];
      if i > 0 {
        assert r[i] == rest[i - 1];
      }
    }
  }

  /** The head of a sorted list is no greater than anything inserted after
      it, provided the inserted element is greater. */
  lemma HeadBelowInsert(x: Event, t: seq<Event>, ascending: bool)
    requires t != [] && Sorted(t, ascending)
    requires Key(x, ascending) > Key(t[0], ascending)
    ensures forall j :: 0 <= j < |Insert(x, t[1..], ascending)| ==>
      Key(t[0], ascending) <= Key(Insert(x, t[1..], ascending)[j], ascending)
  {
    var tail := t[1..];
    var rest := Insert(x, tail, ascending);
    forall j | 0 <= j < |rest| ensures Key(t[0], ascending) <= Key(rest[j], ascending) {
      InsertMember(x, tail, ascending, rest[j]);
      if rest[j] != x {
        var k :| 0 <= k < |tail| && tail[k] == rest[j];
        assert t[k + 1] == rest[j];
      }
    }
  }

  lemma SortedTail(t: seq<Event>, ascending: bool)
    requires t != [] && Sorted(t, ascending)
    ensures Sorted(t[1..], ascending)
  {
    var tail := t[1..];
    forall i, j | 0 <= i < j < |tail| ensures Key(tail[i], ascending) <= Key(tail[j], ascending) {
      assert tail[i] == t[i + 1] && tail[j] == t[j + 1];
    }
  }

  /** Inserting into a sorted list keeps it sorted. */
  lemma {:induction false} InsertSorted(x: Event, t: seq<Event>, ascending: bool)
    requires Sorted(t, ascending)
    ensures Sorted(Insert(x, t, ascending), ascending)
  {
    if t == [] {
    } else if Key(x, ascending) <= Key(t[0], ascending) {
      assert Insert(x, t, ascending) == [x] + t;
      ConsSorted(x, t, ascending);
    } else {
      SortedTail(t, ascending);
      InsertSorted(x, t[1..], ascending);
      HeadBelowInsert(x, t, ascending);
      assert Insert(x, t, ascending) == [t[0]] + Insert(x, t[1..], ascending);
      ConsSorted(t[0], Insert(x, t[1..], ascending), ascending);
    }
  }

  /** A stable insertion sort by key, the order `Array.prototype.sort` with
      a date-difference comparator produces. */
  function Sort(s: seq<Event>, ascending: bool): (r: seq<Event>)
    ensures multiset(r) == multiset(s) && |r| == |s|
    ensures Sorted(r, ascending)
  {
    if s == [] then []
    else
      assert s == [s[0]] + s[1..];
      InsertSorted(s[0], Sort(s[1..], ascending), ascending);
      Insert(s[0], Sort(s[1..], ascending), ascending)
  }

  /** The events that pass the search, in list order; an empty term keeps
      every event. */
  function Searched(events: seq<Event>, term: string, lower: string -> string): (r: seq<Event>)
    ensures forall e :: e in r <==> e in events && (term == "" || MatchesSearch(e, term, lower))
  {
    if term == "" then events else Filter(events, Searching(term, lower))
  }

  /** The events of `s` inside the date window, in list order. */
  function Windowed(s: seq<Event>, ft: FilterType, now: int): (r: seq<Event>)
    ensures forall e :: e in r <==> e in s && InWindow(e, ft, now)
  {
    match ft
    case All => s
    case Upcoming => Filter(s, IsUpcoming(now))
    case Past => Filter(s, IsPastAt(now))
  }

  /** `filterEvents`: search (only for a non-empty term), then the date
      window, then the sort. */
  function FilterEvents(events: seq<Event>, term: string, ft: FilterType, now: int,
                        lower: string -> string): (r: seq<Event>)
    ensures forall e :: e in r <==>
      e in events && (term == "" || MatchesSearch(e, term, lower)) && InWindow(e, ft, now)
    ensures Sorted(r, ft == Upcoming)
  {
    var windowed := Windowed(Searched(events, term, lower), ft, now);
    var r := Sort(windowed, ft == Upcoming);
    assert forall e :: e in r <==> e in multiset(r);
    r
  }

  /** The view is a rearrangement of the searched list restricted to the
      window: every kept event appears as often as it does in the input. */
  lemma FilterEventsMultiset(events: seq<Event>, term: string, ft: FilterType, now: int,
                             lower: string -> string, e: Event)
    ensures multiset(FilterEvents(events, term, ft, now, lower))[e]
         == if (term == "" || MatchesSearch(e, term, lower)) && InWindow(e, ft, now)
            then multiset(events)[e] else 0
  {
    var searched := Searched(events, term, lower);
    if term != "" {
      FilterMultiset(events, Searching(term, lower), e);
    }
    match ft
    case All =>
    case Upcoming => FilterMultiset(searched, IsUpcoming(now), e);
    case Past => FilterMultiset(searched, IsPastAt(now), e);
  }

  /** Upcoming and past split the searched events: together they have
      exactly as many entries as the "all" view. */
  lemma UpcomingAndPastPartition(events: seq<Event>, term: string, now: int, lower: string -> string)
    ensures |FilterEvents(events, term, Upcoming, now, lower)| + |FilterEvents(events, term, Past, now, lower)|
         == |FilterEvents(events, term, All, now, lower)|
  {
    var searched := Searched(events, term, lower);
    assert forall x: Event :: IsPastAt(now)(x) == !IsUpcoming(now)(x);
    FilterSplit(searched, IsUpcoming(now), IsPastAt(now));
  }

  /** No event is in both the upcoming and the past view. */
  lemma UpcomingAndPastDisjoint(events: seq<Event>, term: string, now: int, lower: string -> string, e: Event)
    ensures !(e in FilterEvents(events, term, Upcoming, now, lower) && e in FilterEvents(events, term, Past, now, lower))
  {
  }

  /** Filtering the view again with the same settings changes nothing. */
  lemma FilterEventsIdempotent(events: seq<Event>, term: string, ft: FilterType, now: int,
                               lower: string -> string)
    ensures var v := FilterEvents(events, term, ft, now, lower);
      multiset(FilterEvents(v, term, ft, now, lower)) == multiset(v)
  {
    var v := FilterEvents(events, term, ft, now, lower);
    var w := FilterEvents(v, term, ft, now, lower);
    forall e ensures multiset(w)[e] == multiset(v)[e] {
      FilterEventsMultiset(v, term, ft, now, lower, e);
      FilterEventsMultiset(events, term, ft, now, lower, e);
    }
    assert multiset(w) == multiset(v);
  }
}
