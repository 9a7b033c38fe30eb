/** The two views App computes over a parsed itinerary: the trip
    statistics and the search filter. */
module App {
  import opened Common
  import opened EventType
  import opened Itinerary
  import opened Lists

  /* ---------- calculateStats ---------- */

  datatype Stats = Stats(totalDays: nat, totalEvents: nat, foodCount: nat, transportCount: nat)

  /** The number of events of kind k among the slots. */
  function KindCount(slots: seq<Slot>, k: Kind): (r: nat)
    ensures r <= |slots|
  {
    if slots == [] then 0
    else KindCount(Front(slots), k) + (if Last(slots).event.kind == k then 1 else 0)
  }

  /** The number of events over all days. */
  function EventCount(days: seq<Day>): nat {
    if days == [] then 0 else EventCount(Front(days)) + |Last(days).events|
  }

  /** The number of events of kind k over all days. */
  function DaysKindCount(days: seq<Day>, k: Kind): nat {
    if days == [] then 0 else DaysKindCount(Front(days), k) + KindCount(Last(days).events, k)
  }

  /** What calculateStats reports for an itinerary. */
  function StatsOf(itinerary: seq<Day>): Stats {
    Stats(|itinerary|, EventCount(itinerary), DaysKindCount(itinerary, Food), DaysKindCount(itinerary, Transport))
  }

  /** calculateStats: an empty itinerary gives zero counts; otherwise one
      pass over the days adds up the events, and an inner pass over each
      day's events counts the food and transport ones. */
  method CalculateStats(itinerary: seq<Day>) returns (stats: Stats)
    ensures stats == StatsOf(itinerary)
    ensures itinerary == [] ==> stats == Stats(0, 0, 0, 0)
  {
    if itinerary == [] {
      return Stats(0, 0, 0, 0);
    }
    var totalDays := |itinerary|;
    var totalEvents := 0;
    var foodCount := 0;
    var transportCount := 0;
    for i := 0 to |itinerary|
      invariant totalEvents == EventCount(itinerary[..i])
      invariant foodCount == DaysKindCount(itinerary[..i], Food)
      invariant transportCount == DaysKindCount(itinerary[..i], Transport)
    {
      var day := itinerary[i];
      totalEvents := totalEvents + |day.events|;
      for j := 0 to |day.events|
        invariant foodCount == DaysKindCount(itinerary[..i], Food) + KindCount(day.events[..j], Food)
        invariant transportCount == DaysKindCount(itinerary[..i], Transport) + KindCount(day.events[..j], Transport)
      {
        assert Front(day.events[..j + 1]) == day.events[..j];
        if day.events[j].event.kind == Food {
          foodCount := foodCount + 1;
        }
        if day.events[j].event.kind == Transport {
          transportCount := transportCount + 1;
        }
      }
      assert day.events[..|day.events|] == day.events;
      assert Front(itinerary[..i + 1]) == itinerary[..i] && Last(itinerary[..i + 1]) == day;
    }
    assert itinerary[..|itinerary|] == itinerary;
    return Stats(totalDays, totalEvents, foodCount, transportCount);
  }

  /** All the slots of an itinerary, day after day. */
  function AllSlots(days: seq<Day>): seq<Slot> {
    if days == [] then [] else AllSlots(Front(days)) + Last(days).events
  }

  predicate IsKind(k: Kind, sl: Slot) {
    sl.event.kind == k
  }

  function OfKind(k: Kind): Slot -> bool {
    (sl: Slot) => IsKind(k, sl)
  }

  /** The count of one kind is the number of events of that kind. */
  lemma {:induction false} KindCountIsFilter(slots: seq<Slot>, k: Kind)
    ensures KindCount(slots, k) == |Filter(slots, OfKind(k))|
  {
    if slots != [] {
      KindCountIsFilter(Front(slots), k);
    }
  }

  /** The counters agree with a count over the itinerary's events taken
      together: totalEvents is their number, foodCount and transportCount
      the number of food and transport events among them. */
  lemma {:induction false} StatsCountAllEvents(itinerary: seq<Day>)
    ensures StatsOf(itinerary).totalEvents == |AllSlots(itinerary)|
    ensures StatsOf(itinerary).foodCount == |Filter(AllSlots(itinerary), OfKind(Food))|
    ensures StatsOf(itinerary).transportCount == |Filter(AllSlots(itinerary), OfKind(Transport))|
  {
    AllSlotsCounts(itinerary, Food);
    AllSlotsCounts(itinerary, Transport);
    KindCountIsFilter(AllSlots(itinerary), Food);
    KindCountIsFilter(AllSlots(itinerary), Transport);
  }

  lemma {:induction false} AllSlotsCounts(days: seq<Day>, k: Kind)
    ensures EventCount(days) == |AllSlots(days)|
    ensures DaysKindCount(days, k) == KindCount(AllSlots(days), k)
  {
    if days != [] {
      AllSlotsCounts(Front(days), k);
      KindCountAppend(AllSlots(Front(days)), Last(days).events, k);
    }
  }

  lemma {:induction false} KindCountAppend(a: seq<Slot>, b: seq<Slot>, k: Kind)
    ensures KindCount(a + b, k) == KindCount(a, k) + KindCount(b, k)
    decreases |b|
  {
    if b == [] {
      assert a + b == a;
    } else {
      KindCountAppend(a, Front(b), k);
      assert Front(a + b) == a + Front(b) && Last(a + b) == Last(b);
    }
  }

  /** No event is both food and transport, so the two counts together
      never exceed the number of events. */
  lemma {:induction false} StatsBound(itinerary: seq<Day>)
    ensures StatsOf(itinerary).foodCount + StatsOf(itinerary).transportCount <= StatsOf(itinerary).totalEvents
  {
    if itinerary != [] {
      StatsBound(Front(itinerary));
      KindPairBound(Last(itinerary).events);
    }
  }

  lemma {:induction false} KindPairBound(slots: seq<Slot>)
    ensures KindCount(slots, Food) + KindCount(slots, Transport) <= |slots|
  {
    if slots != [] {
      KindPairBound(Front(slots));
    }
  }

  /* ---------- filteredItinerary ---------- */

  /** The lower-cased query occurs in the lower-cased title, description
      or location of the event. */
  predicate Matches(query: string, sl: Slot) {
    || Contains(Lower(sl.event.title), query)
    || Contains(Lower(sl.event.description), query)
    || Contains(Lower(sl.event.location), query)
  }

  function MatchesQuery(query: string): Slot -> bool {
    (sl: Slot) => Matches(query, sl)
  }

  predicate HasEvents(day: Day) {
    day.events != []
  }

  function NonEmpty(): Day -> bool {
    (day: Day) => HasEvents(day)
  }

  /** Each day with only its matching events. */
  function Narrowed(days: seq<Day>, query: string): (r: seq<Day>)
    ensures |r| == |days|
  {
    seq(|days|, i requires 0 <= i < |days| => days[i].(events := Filter(days[i].events, MatchesQuery(query))))
  }

  /** filteredItinerary: an empty query leaves the itinerary as it is;
      otherwise every day keeps the events matching the lower-cased query,
      and the days left empty are dropped. */
  function FilteredItinerary(itinerary: seq<Day>, searchQuery: string): (r: seq<Day>)
    ensures |r| <= |itinerary|
  {
    if searchQuery == [] then itinerary
    else Filter(Narrowed(itinerary, Lower(searchQuery)), NonEmpty())
  }

  /** An empty query keeps the whole itinerary. */
  lemma {:induction false} EmptyQueryKeepsAll(itinerary: seq<Day>)
    ensures FilteredItinerary(itinerary, []) == itinerary
  {
  }

  /** The search ignores the case of the query. */
  lemma {:induction false} FilteredCaseInsensitive(itinerary: seq<Day>, searchQuery: string)
    ensures FilteredItinerary(itinerary, Lower(searchQuery)) == FilteredItinerary(itinerary, searchQuery)
  {
    LowerIdempotent(searchQuery);
  }

  /** The search matches across the case of accented letters: the query
      `É` finds an event titled `école`, and `é` one titled `École`. */
  lemma {:induction false} AccentedQueryMatches(sl: Slot)
    requires sl.event.title == "\U{C9}cole" || sl.event.title == "\U{E9}cole"
    ensures Matches(Lower("\U{C9}"), sl) && Matches(Lower("\U{E9}"), sl)
  {
    var t := Lower(sl.event.title);
    assert t[0] == '\U{E9}';
    assert HasAt(t, Lower("\U{C9}"), 0) && HasAt(t, Lower("\U{E9}"), 0);
  }

  /** The same for a Greek capital with tonos: `ά` and `Ά` both find an
      event titled `Άθηνα`. */
  lemma {:induction false} TonosQueryMatches(sl: Slot)
    requires sl.event.title == "\U{386}\U{3B8}\U{3B7}\U{3BD}\U{3B1}"
    ensures Matches(Lower("\U{3AC}"), sl) && Matches(Lower("\U{386}"), sl)
  {
    var t := Lower(sl.event.title);
    assert t[0] == '\U{3AC}';
    assert HasAt(t, Lower("\U{3AC}"), 0) && HasAt(t, Lower("\U{386}"), 0);
  }

  /** And for a Cyrillic capital outside the basic alphabet: `ґ` and `Ґ`
      both find an event titled `Ґанок`. */
  lemma {:induction false} CyrillicQueryMatches(sl: Slot)
    requires sl.event.title == "\U{490}\U{430}\U{43D}\U{43E}\U{43A}"
    ensures Matches(Lower("\U{491}"), sl) && Matches(Lower("\U{490}"), sl)
  {
    var t := Lower(sl.event.title);
    assert t[0] == '\U{491}';
    assert HasAt(t, Lower("\U{491}"), 0) && HasAt(t, Lower("\U{490}"), 0);
  }

  /** Every day shown is a day of the itinerary, with its date and weekday,
      holding that day's matching events and at least one of them. */
  lemma {:induction false} FilteredDaySound(itinerary: seq<Day>, searchQuery: string, d: Day)
    requires searchQuery != [] && d in FilteredItinerary(itinerary, searchQuery)
    ensures d.events != []
    ensures exists i :: (0 <= i < |itinerary| && d.date == itinerary[i].date && d.dayOfWeek == itinerary[i].dayOfWeek
      && d.events == Filter(itinerary[i].events, MatchesQuery(Lower(searchQuery))))
  {
    var n := Narrowed(itinerary, Lower(searchQuery));
    FilterSound(n, NonEmpty(), d);
    var i :| 0 <= i < |n| && n[i] == d;
  }

  /** Every event shown matches the query. */
  lemma {:induction false} FilteredEventSound(itinerary: seq<Day>, searchQuery: string, d: Day, sl: Slot)
    requires searchQuery != [] && d in FilteredItinerary(itinerary, searchQuery) && sl in d.events
    ensures Matches(Lower(searchQuery), sl)
    ensures exists i :: 0 <= i < |itinerary| && d.date == itinerary[i].date && sl in itinerary[i].events
  {
    FilteredDaySound(itinerary, searchQuery, d);
    var i :| (0 <= i < |itinerary| && d.date == itinerary[i].date && d.dayOfWeek == itinerary[i].dayOfWeek
      && d.events == Filter(itinerary[i].events, MatchesQuery(Lower(searchQuery))));
    FilterSound(itinerary[i].events, MatchesQuery(Lower(searchQuery)), sl);
  }

  /** No matching event is lost: its day is shown, narrowed to its matching
      events, and the event is among them. */
  lemma {:induction false} FilteredComplete(itinerary: seq<Day>, searchQuery: string, i: nat, sl: Slot)
    requires searchQuery != [] && i < |itinerary|
    requires sl in itinerary[i].events && Matches(Lower(searchQuery), sl)
    ensures itinerary[i].(events := Filter(itinerary[i].events, MatchesQuery(Lower(searchQuery))))
      in FilteredItinerary(itinerary, searchQuery)
    ensures sl in Filter(itinerary[i].events, MatchesQuery(Lower(searchQuery)))
  {
    var q := Lower(searchQuery);
    FilterComplete(itinerary[i].events, MatchesQuery(q), sl);
    var n := Narrowed(itinerary, q);
    assert n[i] in n;
    FilterComplete(n, NonEmpty(), n[i]);
  }

  /** The days shown keep their order, and so do the events of each. */
  lemma {:induction false} FilteredOrder(itinerary: seq<Day>, searchQuery: string, i: nat)
    requires searchQuery != [] && i < |itinerary|
    ensures Subseq(FilteredItinerary(itinerary, searchQuery), Narrowed(itinerary, Lower(searchQuery)))
    ensures Subseq(Narrowed(itinerary, Lower(searchQuery))[i].events, itinerary[i].events)
  {
    var q := Lower(searchQuery);
    FilterOrder(Narrowed(itinerary, q), NonEmpty());
    FilterOrder(itinerary[i].events, MatchesQuery(q));
  }
}
