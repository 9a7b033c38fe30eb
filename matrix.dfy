/** parseMatrixCSV: a sheet whose first column holds the hour and whose
    other columns are the trip's days becomes an itinerary of days, each
    with its events sorted by hour and runs of equal cells merged. */
module Matrix {
  import opened Common
  import opened EventType
  import opened OptionSyntax
  import opened DateHeader
  import opened Itinerary
  import opened TimeSort
  import opened Merge
  import opened Lists

  /** One row of the parsed CSV: the cell text under each header. A header
      the row has no entry for is an undefined cell. */
  type Row = map<string, string>

  const TimeHeader: string := "時間"
  const DefaultMetadata: Metadata := Metadata("Trip Planner", "", "")

  predicate Distinct(s: seq<string>) {
    forall i, j :: 0 <= i < j < |s| ==> s[i] != s[j]
  }

  predicate IsDateKey(k: string) {
    k != TimeHeader && k != []
  }

  /** The date columns: every header except the time column and the empty
      header, in header order. */
  function DateKeys(header: seq<string>): (r: seq<string>)
    ensures |r| <= |header|
    ensures forall k :: k in r <==> k in header && IsDateKey(k)
  {
    if header == [] then []
    else DateKeys(Front(header)) + (if IsDateKey(Last(header)) then [Last(header)] else [])
  }

  /** The date columns keep the header order. */
  lemma {:induction false} DateKeysOrder(header: seq<string>)
    ensures Subseq(DateKeys(header), header)
  {
    if header != [] {
      var f, l := Front(header), Last(header);
      DateKeysOrder(f);
      assert f + [l] == header;
      if IsDateKey(l) {
        var r := DateKeys(header);
        assert r == DateKeys(f) + [l];
        assert Front(r) == DateKeys(f) && Last(r) == l;
      } else {
        assert DateKeys(header) == DateKeys(f);
        SubseqSnoc(DateKeys(f), f, l);
      }
    }
  }

  /** Headers are the keys of a row, so they are distinct, and so are the
      date columns taken from them. */
  lemma {:induction false} DateKeysDistinct(header: seq<string>)
    requires Distinct(header)
    ensures Distinct(DateKeys(header))
  {
    if header != [] {
      var f := Front(header);
      assert Distinct(f);
      DateKeysDistinct(f);
      assert Last(header) !in f;
    }
  }

  /** A cell's text when it is defined and not empty, the two cases
      JavaScript treats as true. */
  function Truthy(row: Row, key: string): Option<string> {
    if key in row && row[key] != [] then Some(row[key]) else None
  }

  /** The event built from a non-blank cell of row `rowIndex`. */
  function CellEvent(rowIndex: nat, key: string, time: string, content: string): Event {
    var title := Trim(content);
    Event("sheet-" + NatToString(rowIndex) + "-" + key, Trim(time), title, ParseOptions(title),
      "", InferType(content), "", "", true)
  }

  /** The event row `i` contributes to column `key`: none when the row's
      time is missing or empty, or when the cell is missing or blank. */
  function CellOf(rows: seq<Row>, i: nat, key: string): Option<Event>
    requires i < |rows|
  {
    match Truthy(rows[i], TimeHeader)
    case None => None
    case Some(time) =>
      match Truthy(rows[i], key)
      case None => None
      case Some(content) => if Trim(content) == [] then None else Some(CellEvent(i, key, time, content))
  }

  /** Row `i`'s event for column `key`, as a function of the row index. */
  function CellAt(rows: seq<Row>, key: string): nat -> Option<Event> {
    (i: nat) => if i < |rows| then CellOf(rows, i, key) else None
  }

  /** The events of column `key` from the first `n` rows, in row order. */
  function ColumnEvents(rows: seq<Row>, key: string, n: nat): (r: seq<Event>)
    requires n <= |rows|
    ensures |r| <= n
  {
    Collect(CellAt(rows, key), n)
  }

  /** The values `f` has at 0, 1, ..., n - 1, in that order. */
  function Collect<T>(f: nat -> Option<T>, n: nat): (r: seq<T>)
    ensures |r| <= n
  {
    if n == 0 then [] else Collect(f, n - 1) + AsSeq(f(n - 1))
  }

  function AsSeq<T>(o: Option<T>): (r: seq<T>)
    ensures |r| <= 1
  {
    match o case None => [] case Some(x) => [x]
  }

  lemma {:induction false} CollectSound<T>(f: nat -> Option<T>, n: nat, x: T)
    requires x in Collect(f, n)
    ensures exists i :: 0 <= i < n && f(i) == Some(x)
  {
    if x in Collect(f, n - 1) {
      CollectSound(f, n - 1, x);
    }
  }

  lemma {:induction false} CollectComplete<T>(f: nat -> Option<T>, n: nat, i: nat, x: T)
    requires i < n && f(i) == Some(x)
    ensures x in Collect(f, n)
  {
    if i < n - 1 {
      CollectComplete(f, n - 1, i, x);
    }
  }

  /** One day: the date and weekday from the column header, and the
      column's events sorted by hour and merged. */
  function DayOf(rows: seq<Row>, key: string): Day {
    DayFrom(key, ColumnEvents(rows, key, |rows|))
  }

  function DayFrom(key: string, events: seq<Event>): Day {
    var h := ParseDateHeader(key);
    Day(h.dateStr, h.dayOfWeek, Merged(SortByTime(events)))
  }

  /** One day per date column, in column order. */
  function Days(rows: seq<Row>, keys: seq<string>): (r: seq<Day>)
    ensures |r| == |keys|
  {
    if keys == [] then [] else Days(rows, Front(keys)) + [DayOf(rows, Last(keys))]
  }

  lemma {:induction false} DaysAt(rows: seq<Row>, keys: seq<string>, i: nat)
    requires i < |keys|
    ensures Days(rows, keys)[i] == DayOf(rows, keys[i])
  {
    if i < |keys| - 1 {
      DaysAt(rows, Front(keys), i);
    }
  }

  /** The trip's title and date range from its first and last day. */
  function MetadataOf(days: seq<Day>): Metadata {
    if days == [] then DefaultMetadata
    else Metadata(days[0].date + " - " + Last(days).date + " Trip", days[0].date, Last(days).date)
  }

  /** What parseMatrixCSV returns for a header row and the data rows. */
  function ParseMatrix(header: seq<string>, rows: seq<Row>): Trip {
    if rows == [] then Trip([], DefaultMetadata)
    else
      var days := Days(rows, DateKeys(header));
      Trip(days, MetadataOf(days))
  }

  /** parseMatrixCSV: fills one bucket per date column row by row, then
      sorts and merges each bucket into a day. `header` is the key order of
      the first row. */
  method ParseMatrixCSV(header: seq<string>, rows: seq<Row>) returns (trip: Trip)
    requires Distinct(header)
    ensures trip == ParseMatrix(header, rows)
  {
    if |rows| == 0 {
      return Trip([], DefaultMetadata);
    }
    var dateKeys := DateKeys(header);
    DateKeysDistinct(header);
    var eventsByDate := FillBuckets(dateKeys, rows);
    var itinerary := BuildDays(dateKeys, eventsByDate);
    DaysFromColumns(dateKeys, rows, eventsByDate);
    var metadata := DefaultMetadata;
    if |itinerary| > 0 {
      var startDate, endDate := itinerary[0].date, itinerary[|itinerary| - 1].date;
      metadata := Metadata(startDate + " - " + endDate + " Trip", startDate, endDate);
    }
    trip := Trip(itinerary, metadata);
  }

  /** The second loop of parseMatrixCSV: one day per date column, in
      column order. */
  method BuildDays(dateKeys: seq<string>, eventsByDate: map<string, seq<Event>>) returns (itinerary: seq<Day>)
    requires forall k :: k in dateKeys ==> k in eventsByDate
    ensures itinerary == DaysFrom(dateKeys, eventsByDate)
  {
    itinerary := [];
    var j := 0;
    while j < |dateKeys|
      invariant 0 <= j <= |dateKeys|
      invariant itinerary == DaysFrom(dateKeys[..j], eventsByDate)
    {
      PrefixStep(dateKeys, j);
      var day := BuildDay(dateKeys[j], eventsByDate[dateKeys[j]]);
      itinerary := itinerary + [day];
      j := j + 1;
    }
    assert dateKeys[..j] == dateKeys;
  }

  /** The days built from the buckets, one per date column. */
  function DaysFrom(keys: seq<string>, buckets: map<string, seq<Event>>): (r: seq<Day>)
    requires forall k :: k in keys ==> k in buckets
  {
    if keys == [] then [] else DaysFrom(Front(keys), buckets) + [DayFrom(Last(keys), buckets[Last(keys)])]
  }

  /** Buckets holding each column's events give the days of the sheet. */
  lemma {:induction false} DaysFromColumns(keys: seq<string>, rows: seq<Row>, buckets: map<string, seq<Event>>)
    requires forall k :: k in keys ==> k in buckets && buckets[k] == ColumnEvents(rows, k, |rows|)
    ensures DaysFrom(keys, buckets) == Days(rows, keys)
  {
    if keys != [] {
      DaysFromColumns(Front(keys), rows, buckets);
    }
  }

  /** One date column's bucket sorted in place by hour, then merged. */
  method BuildDay(dateKey: string, dayEvents: seq<Event>) returns (day: Day)
    ensures day == DayFrom(dateKey, dayEvents)
  {
    var h := ParseDateHeader(dateKey);
    var a := new Event[|dayEvents|](q requires 0 <= q < |dayEvents| => dayEvents[q]);
    assert a[..] == dayEvents;
    SortInPlace(a, TimeKey);
    var mergedEvents := MergeEvents(a[..]);
    day := Day(h.dateStr, h.dayOfWeek, mergedEvents);
  }

  /** The bucket-filling part of parseMatrixCSV: every date column starts
      empty, and each row with a time pushes its non-blank cells. */
  method FillBuckets(dateKeys: seq<string>, rows: seq<Row>) returns (eventsByDate: map<string, seq<Event>>)
    requires Distinct(dateKeys)
    ensures forall k :: k in dateKeys ==> k in eventsByDate && eventsByDate[k] == ColumnEvents(rows, k, |rows|)
  {
    eventsByDate := map[];
    var j := 0;
    while j < |dateKeys|
      invariant 0 <= j <= |dateKeys|
      invariant forall q :: 0 <= q < j ==> dateKeys[q] in eventsByDate && eventsByDate[dateKeys[q]] == []
    {
      eventsByDate := eventsByDate[dateKeys[j] := []];
      j := j + 1;
    }
    var rowIndex := 0;
    while rowIndex < |rows|
      invariant 0 <= rowIndex <= |rows|
      invariant forall q :: 0 <= q < |dateKeys| ==>
        dateKeys[q] in eventsByDate && eventsByDate[dateKeys[q]] == ColumnEvents(rows, dateKeys[q], rowIndex)
    {
      eventsByDate := AddRow(dateKeys, rows, rowIndex, eventsByDate);
      rowIndex := rowIndex + 1;
    }
  }

  /** One row of the bucket-filling loop: a row with a time pushes each of
      its non-blank date cells onto that column's bucket. */
  method AddRow(dateKeys: seq<string>, rows: seq<Row>, rowIndex: nat, buckets: map<string, seq<Event>>)
    returns (eventsByDate: map<string, seq<Event>>)
    requires Distinct(dateKeys) && rowIndex < |rows|
    requires forall q :: 0 <= q < |dateKeys| ==>
      dateKeys[q] in buckets && buckets[dateKeys[q]] == ColumnEvents(rows, dateKeys[q], rowIndex)
    ensures forall q :: 0 <= q < |dateKeys| ==>
      dateKeys[q] in eventsByDate && eventsByDate[dateKeys[q]] == ColumnEvents(rows, dateKeys[q], rowIndex + 1)
  {
    eventsByDate := buckets;
    var row := rows[rowIndex];
    var time := Truthy(row, TimeHeader);
    if time.None? {
      forall q | 0 <= q < |dateKeys|
        ensures ColumnEvents(rows, dateKeys[q], rowIndex + 1) == ColumnEvents(rows, dateKeys[q], rowIndex)
      {
        ColumnStep(rows, dateKeys[q], rowIndex);
      }
      return;
    }
    var m := 0;
    while m < |dateKeys|
      invariant 0 <= m <= |dateKeys|
      invariant forall q :: 0 <= q < |dateKeys| ==> dateKeys[q] in eventsByDate
      invariant forall q :: 0 <= q < m ==> eventsByDate[dateKeys[q]] == ColumnEvents(rows, dateKeys[q], rowIndex + 1)
      invariant forall q :: m <= q < |dateKeys| ==> eventsByDate[dateKeys[q]] == ColumnEvents(rows, dateKeys[q], rowIndex)
    {
      ColumnStep(rows, dateKeys[m], rowIndex);
      eventsByDate := AddCell(dateKeys, m, rows, rowIndex, time.value, eventsByDate);
      m := m + 1;
    }
  }

  /** The body of the inner loop: a non-blank cell becomes an event pushed
      onto its column's bucket; no other bucket changes. */
  method AddCell(dateKeys: seq<string>, m: nat, rows: seq<Row>, rowIndex: nat, time: string,
                 buckets: map<string, seq<Event>>)
    returns (eventsByDate: map<string, seq<Event>>)
    requires Distinct(dateKeys) && m < |dateKeys| && rowIndex < |rows|
    requires Truthy(rows[rowIndex], TimeHeader) == Some(time)
    requires forall q :: 0 <= q < |dateKeys| ==> dateKeys[q] in buckets
    ensures forall q :: 0 <= q < |dateKeys| ==> dateKeys[q] in eventsByDate
    ensures eventsByDate[dateKeys[m]] == buckets[dateKeys[m]] + Cell(rows, rowIndex, dateKeys[m])
    ensures forall q :: 0 <= q < |dateKeys| && q != m ==> eventsByDate[dateKeys[q]] == buckets[dateKeys[q]]
  {
    eventsByDate := buckets;
    var dateKey := dateKeys[m];
    var content := Truthy(rows[rowIndex], dateKey);
    ghost var cell := Cell(rows, rowIndex, dateKey);
    CellCases(rows, rowIndex, dateKey, time);
    if content.Some? && Trim(content.value) != [] {
      var event := CellEvent(rowIndex, dateKey, time, content.value);
      eventsByDate := eventsByDate[dateKey := eventsByDate[dateKey] + [event]];
      assert eventsByDate[dateKey] == buckets[dateKey] + cell;
    } else {
      assert eventsByDate[dateKey] == buckets[dateKey] + cell;
    }
  }

  /** The cell's event, spelled out for a row whose time is `time`. */
  lemma {:induction false} CellCases(rows: seq<Row>, rowIndex: nat, key: string, time: string)
    requires rowIndex < |rows| && Truthy(rows[rowIndex], TimeHeader) == Some(time)
    ensures var content := Truthy(rows[rowIndex], key);
      Cell(rows, rowIndex, key) ==
        if content.Some? && Trim(content.value) != [] then [CellEvent(rowIndex, key, time, content.value)] else []
  {
  }

  /** The cell's event as a sequence of at most one. */
  function Cell(rows: seq<Row>, i: nat, key: string): seq<Event>
    requires i < |rows|
  {
    AsSeq(CellOf(rows, i, key))
  }

  lemma {:induction false} ColumnStep(rows: seq<Row>, key: string, n: nat)
    requires n < |rows|
    ensures ColumnEvents(rows, key, n + 1) == ColumnEvents(rows, key, n) + Cell(rows, n, key)
  {
    assert CellAt(rows, key)(n) == CellOf(rows, n, key);
  }

  /* ---------- Properties of the parsed trip ---------- */

  /** An empty sheet gives no days and the default metadata; otherwise
      there is one day per date column, in column order, dated and named by
      its header; the metadata spans the first to the last day. */
  lemma {:induction false} ParseMatrixShape(header: seq<string>, rows: seq<Row>)
    ensures var trip := ParseMatrix(header, rows);
      && (rows == [] ==> trip == Trip([], Metadata("Trip Planner", "", "")))
      && (rows != [] ==> |trip.itinerary| == |DateKeys(header)|)
      && (trip.itinerary == [] ==> trip.metadata == Metadata("Trip Planner", "", ""))
      && (trip.itinerary != [] ==> trip.metadata == Metadata(
            trip.itinerary[0].date + " - " + Last(trip.itinerary).date + " Trip",
            trip.itinerary[0].date, Last(trip.itinerary).date))
  {
  }

  /** Day `i` of a non-empty sheet belongs to date column `i`: its date and
      weekday come from that column's header and its events from that
      column's cells. */
  lemma {:induction false} ParseMatrixDay(header: seq<string>, rows: seq<Row>, i: nat)
    requires rows != [] && i < |DateKeys(header)|
    ensures var day := ParseMatrix(header, rows).itinerary[i];
      var key := DateKeys(header)[i];
      && day.date == ParseDateHeader(key).dateStr
      && day.dayOfWeek == ParseDateHeader(key).dayOfWeek
      && day.events == Merged(SortByTime(ColumnEvents(rows, key, |rows|)))
  {
    DaysAt(rows, DateKeys(header), i);
  }

  /** A row adds an event to a column exactly when its time is defined and
      non-empty and its cell there is defined and not blank; the event's
      title is the trimmed cell, never empty, and its type is read from the
      untrimmed cell. */
  lemma {:induction false} CellOfSpec(rows: seq<Row>, i: nat, key: string)
    requires i < |rows|
    ensures CellOf(rows, i, key).None? <==>
      TimeHeader !in rows[i] || rows[i][TimeHeader] == [] || key !in rows[i] || Trim(rows[i][key]) == []
    ensures CellOf(rows, i, key).Some? ==>
      var e := CellOf(rows, i, key).value;
      && e.title == Trim(rows[i][key]) && e.title != [] && IsTrimmed(e.title)
      && e.time == Trim(rows[i][TimeHeader])
      && e.kind == InferType(rows[i][key])
      && e.options == ParseOptions(e.title)
      && e.id == "sheet-" + NatToString(i) + "-" + key
  {
  }

  /** Every event of a column comes from one of its rows... */
  lemma {:induction false} ColumnEventsSound(rows: seq<Row>, key: string, n: nat, e: Event)
    requires n <= |rows| && e in ColumnEvents(rows, key, n)
    ensures exists i :: 0 <= i < n && CellOf(rows, i, key) == Some(e)
  {
    CollectSound(CellAt(rows, key), n, e);
    var i :| 0 <= i < n && CellAt(rows, key)(i) == Some(e);
    assert CellOf(rows, i, key) == Some(e);
  }

  /** ...and every event a row contributes is in the column. */
  lemma {:induction false} ColumnEventsComplete(rows: seq<Row>, key: string, n: nat, i: nat, e: Event)
    requires i < n <= |rows| && CellOf(rows, i, key) == Some(e)
    ensures e in ColumnEvents(rows, key, n)
  {
    assert CellAt(rows, key)(i) == Some(e);
    CollectComplete(CellAt(rows, key), n, i, e);
  }

  /** A day has at most as many events as its column has non-blank cells,
      and has none exactly when the column has none. */
  lemma {:induction false} DayCount(rows: seq<Row>, key: string)
    ensures |DayOf(rows, key).events| <= |ColumnEvents(rows, key, |rows|)| <= |rows|
    ensures DayOf(rows, key).events == [] <==> ColumnEvents(rows, key, |rows|) == []
  {
    var c := ColumnEvents(rows, key, |rows|);
    MergedCount(SortByTime(c));
  }

  /** Neighbouring events of a day have different titles. */
  lemma {:induction false} DayTitlesDiffer(rows: seq<Row>, key: string, i: nat)
    requires i + 1 < |DayOf(rows, key).events|
    ensures DayOf(rows, key).events[i].event.title != DayOf(rows, key).events[i + 1].event.title
  {
    MergedAdjacentDiffer(SortByTime(ColumnEvents(rows, key, |rows|)), i);
  }

  /** When every time in a column parses as an integer, the day's events
      are in non-decreasing order of that integer. */
  lemma {:induction false} DaySorted(rows: seq<Row>, key: string)
    requires AllKeyed(ColumnEvents(rows, key, |rows|), TimeKey)
    ensures Sorted(DayOf(rows, key).events, SlotKey)
  {
    var c := ColumnEvents(rows, key, |rows|);
    SortSorts(c, TimeKey);
    MergedSorted(SortByTime(c));
  }
}
