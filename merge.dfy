/** Merging a sorted day's consecutive events that share a title into one
    event whose display time spans the run ("17:00 - 20:00"). */
module Merge {
  import opened Common
  import opened Itinerary
  import opened TimeSort

  /** The merge loop's `currentEvent` and the `lastTimeBlock` it carries. */
  datatype Pending = Pending(event: Event, lastTimeBlock: Option<string>)

  /** finalizeEvent: the display time is "<time> - <last time>" when the
      last time block is a non-empty string, else the event's own time. */
  function Finalize(p: Pending): (r: Slot)
    ensures r.event == p.event
    ensures StartsWith(r.displayTime, p.event.time)
  {
    if p.lastTimeBlock.Some? && p.lastTimeBlock.value != [] then
      Slot(p.event, p.event.time + " - " + p.lastTimeBlock.value)
    else
      Slot(p.event, p.event.time)
  }

  /** One step of the loop on an event with the current title: the last
      time block moves to it, and an empty description is filled from it. */
  function Absorb(p: Pending, e: Event): Pending {
    var description := if p.event.description == [] && e.description != [] then e.description else p.event.description;
    Pending(p.event.(description := description), Some(e.time))
  }

  /* ---------- The reference: runs of equal titles ---------- */

  predicate SameTitle(run: seq<Event>) {
    run != [] && forall k :: 0 <= k < |run| ==> run[k].title == run[0].title
  }

  predicate NonEmptyRuns(rs: seq<seq<Event>>) {
    forall i :: 0 <= i < |rs| ==> rs[i] != []
  }

  /** The events cut into maximal runs of consecutive equal titles. */
  function Runs(s: seq<Event>): (rs: seq<seq<Event>>)
    ensures |rs| <= |s| && (rs == [] <==> s == [])
    ensures NonEmptyRuns(rs)
  {
    if s == [] then []
    else
      var rs: seq<seq<Event>> := Runs(Front(s));
      var e := Last(s);
      if rs != [] && Last(rs)[0].title == e.title then
        Front(rs) + [Last(rs) + [e]]
      else
        rs + [[e]]
  }

  /** How one more event extends the runs: it joins the last run when it
      has that run's title, and starts a new run otherwise. */
  lemma {:induction false} RunsSnoc(s: seq<Event>, e: Event)
    ensures var rs: seq<seq<Event>> := Runs(s);
      Runs(s + [e]) == if rs != [] && Last(rs)[0].title == e.title then Front(rs) + [Last(rs) + [e]] else rs + [[e]]
  {
    assert Front(s + [e]) == s && Last(s + [e]) == e;
  }

  function Flatten(rs: seq<seq<Event>>): seq<Event> {
    if rs == [] then [] else Flatten(Front(rs)) + Last(rs)
  }

  /** The runs put back together are the events. */
  lemma {:induction false} RunsFlatten(s: seq<Event>)
    ensures Flatten(Runs(s)) == s
  {
    if s != [] {
      var f, e := Front(s), Last(s);
      assert s == f + [e];
      RunsFlatten(f);
      RunsSnoc(f, e);
      var rs: seq<seq<Event>> := Runs(f);
      if rs != [] && Last(rs)[0].title == e.title {
        var r := Front(rs) + [Last(rs) + [e]];
        assert Front(r) == Front(rs) && Last(r) == Last(rs) + [e];
        assert Flatten(rs) == Flatten(Front(rs)) + Last(rs);
        assert Flatten(r) == Flatten(Front(rs)) + (Last(rs) + [e]);
      } else {
        var r := rs + [[e]];
        assert Front(r) == rs && Last(r) == [e];
      }
    }
  }

  /** Every run holds one title. */
  lemma {:induction false} RunsSameTitle(s: seq<Event>)
    ensures forall i :: 0 <= i < |Runs(s)| ==> SameTitle(Runs(s)[i])
  {
    if s != [] {
      var f, e := Front(s), Last(s);
      assert s == f + [e];
      RunsSameTitle(f);
      RunsSnoc(f, e);
      var rs: seq<seq<Event>> := Runs(f);
      var r: seq<seq<Event>> := Runs(s);
      if rs != [] && Last(rs)[0].title == e.title {
        assert SameTitle(Last(rs));
        forall i | 0 <= i < |r| ensures SameTitle(r[i]) {
          if i < |rs| - 1 {
            assert r[i] == rs[i];
          } else {
            assert r[i] == Last(rs) + [e];
          }
        }
      } else {
        forall i | 0 <= i < |r| ensures SameTitle(r[i]) {
          if i < |rs| {
            assert r[i] == rs[i];
          } else {
            assert r[i] == [e];
          }
        }
      }
    }
  }

  /** Neighbouring runs have different titles: the runs are maximal. */
  lemma {:induction false} RunsDiffer(s: seq<Event>)
    ensures forall i :: 0 <= i < |Runs(s)| - 1 ==> Runs(s)[i][0].title != Runs(s)[i + 1][0].title
  {
    if s != [] {
      var f, e := Front(s), Last(s);
      assert s == f + [e];
      RunsDiffer(f);
      RunsSnoc(f, e);
      var rs: seq<seq<Event>> := Runs(f);
      var r: seq<seq<Event>> := Runs(s);
      forall i | 0 <= i < |r| - 1 ensures r[i][0].title != r[i + 1][0].title {
        if rs != [] && Last(rs)[0].title == e.title {
          assert r[i] == rs[i];
          assert r[i + 1][0] == rs[i + 1][0];
        } else {
          assert r[i] == rs[i];
          if i + 1 < |rs| {
            assert r[i + 1] == rs[i + 1];
          } else {
            assert r[i + 1] == [e];
          }
        }
      }
    }
  }

  /** The first non-empty description of a run, or the empty text. */
  function RunDescription(run: seq<Event>): string
    requires run != []
  {
    if |run| == 1 then run[0].description
    else if RunDescription(Front(run)) == [] then Last(run).description
    else RunDescription(Front(run))
  }

  /** The loop state after a whole run: the run's first event with the
      run's description, and the last time when the run has two or more
      events. */
  function PendingOf(run: seq<Event>): Pending
    requires run != []
  {
    Pending(run[0].(description := RunDescription(run)), if |run| >= 2 then Some(Last(run).time) else None)
  }

  /** The merged event of one run. */
  function Summary(run: seq<Event>): Slot
    requires run != []
  {
    Finalize(PendingOf(run))
  }

  function Summaries(rs: seq<seq<Event>>): (r: seq<Slot>)
    requires NonEmptyRuns(rs)
    ensures |r| == |rs|
  {
    if rs == [] then [] else Summaries(Front(rs)) + [Summary(Last(rs))]
  }

  lemma {:induction false} SummariesAt(rs: seq<seq<Event>>, i: nat)
    requires NonEmptyRuns(rs) && i < |rs|
    ensures Summaries(rs)[i] == Summary(rs[i])
  {
    if i < |rs| - 1 {
      SummariesAt(Front(rs), i);
    }
  }

  /** What the merge produces: one summary per run. */
  function Merged(s: seq<Event>): (r: seq<Slot>)
  {
    Summaries(Runs(s))
  }

  /** How one more event changes the merge: the last summary is redone over
      the longer run, or a summary of the event alone is appended. */
  lemma {:induction false} MergedSnoc(s: seq<Event>, e: Event)
    ensures var rs: seq<seq<Event>> := Runs(s);
      Merged(s + [e]) ==
        if rs != [] && Last(rs)[0].title == e.title then Front(Merged(s)) + [Summary(Last(rs) + [e])]
        else Merged(s) + [Summary([e])]
  {
    RunsSnoc(s, e);
    var rs: seq<seq<Event>> := Runs(s);
    if rs != [] && Last(rs)[0].title == e.title {
      var r := Front(rs) + [Last(rs) + [e]];
      assert Front(r) == Front(rs) && Last(r) == Last(rs) + [e];
    } else {
      var r := rs + [[e]];
      assert Front(r) == rs && Last(r) == [e];
    }
  }

  /** The merge loop of parseMatrixCSV over one day's sorted events. */
  method MergeEvents(events: seq<Event>) returns (merged: seq<Slot>)
    ensures merged == Merged(events)
  {
    merged := [];
    var current: Option<Pending> := None;
    var i := 0;
    while i < |events|
      invariant 0 <= i <= |events|
      invariant LoopState(events, i, current, merged)
    {
      current, merged := MergeStep(events, i, current, merged);
      i := i + 1;
    }
    FinishState(events, i, current, merged);
    if current.Some? {
      merged := merged + [Finalize(current.value)];
    }
  }

  /** One turn of the merge loop: the event opens the first run, joins the
      current run, or closes it and opens the next. */
  method MergeStep(events: seq<Event>, i: nat, current: Option<Pending>, merged: seq<Slot>)
    returns (current': Option<Pending>, merged': seq<Slot>)
    requires i < |events| && LoopState(events, i, current, merged)
    ensures LoopState(events, i + 1, current', merged')
  {
    var e := events[i];
    if current.None? {
      StartState(events, i, merged);
      current', merged' := Some(Pending(e, None)), merged;
    } else if e.title == current.value.event.title {
      AbsorbState(events, i, current.value, merged);
      current', merged' := Some(Absorb(current.value, e)), merged;
    } else {
      CloseState(events, i, current.value, merged);
      current', merged' := Some(Pending(e, None)), merged + [Finalize(current.value)];
    }
  }

  /** After the last event, closing the open run completes the merge; with
      no run open there were no events to merge. */
  lemma {:induction false} FinishState(events: seq<Event>, i: nat, current: Option<Pending>, merged: seq<Slot>)
    requires i == |events| && LoopState(events, i, current, merged)
    ensures current.Some? ==> merged + [Finalize(current.value)] == Merged(events)
    ensures current.None? ==> merged == Merged(events)
  {
    assert events[..i] == events;
    if current.None? {
      assert Runs(events) == [] && |Merged(events)| == 0;
    }
  }

  /** The state of the merge loop after the first `i` events: nothing
      before the first event; after it, `current` is the state of the last
      run so far and `merged` holds the summaries of the runs before it. */
  predicate LoopState(events: seq<Event>, i: nat, current: Option<Pending>, merged: seq<Slot>)
    requires i <= |events|
  {
    var p := events[..i];
    if p == [] then current.None? && merged == []
    else
      var rs: seq<seq<Event>> := Runs(p);
      current == Some(PendingOf(Last(rs))) && merged == Summaries(Front(rs))
  }

  /** The first event opens the first run. */
  lemma {:induction false} StartState(events: seq<Event>, i: nat, merged: seq<Slot>)
    requires i < |events| && LoopState(events, i, None, merged)
    ensures LoopState(events, i + 1, Some(Pending(events[i], None)), merged)
  {
    var e := events[i];
    assert events[..i + 1] == [e];
    MergedSnoc([], e);
    assert Runs([e]) == [[e]];
    assert PendingOf([e]) == Pending(e, None);
  }

  /** An event with the current title joins the current run. */
  lemma {:induction false} AbsorbState(events: seq<Event>, i: nat, current: Pending, merged: seq<Slot>)
    requires i < |events| && LoopState(events, i, Some(current), merged) && events[i].title == current.event.title
    ensures LoopState(events, i + 1, Some(Absorb(current, events[i])), merged)
  {
    var p, e := events[..i], events[i];
    assert events[..i + 1] == p + [e];
    var rs: seq<seq<Event>> := Runs(p);
    RunsSnoc(p, e);
    MergedSnoc(p, e);
    AbsorbRun(Last(rs), e);
    var r: seq<seq<Event>> := Runs(p + [e]);
    assert Last(r) == Last(rs) + [e];
  }

  /** An event with another title closes the current run and opens the
      next. */
  lemma {:induction false} CloseState(events: seq<Event>, i: nat, current: Pending, merged: seq<Slot>)
    requires i < |events| && LoopState(events, i, Some(current), merged) && events[i].title != current.event.title
    ensures LoopState(events, i + 1, Some(Pending(events[i], None)), merged + [Finalize(current)])
  {
    var p, e := events[..i], events[i];
    assert events[..i + 1] == p + [e];
    var rs: seq<seq<Event>> := Runs(p);
    RunsSnoc(p, e);
    MergedSnoc(p, e);
    var r: seq<seq<Event>> := Runs(p + [e]);
    assert Last(r) == [e];
    assert PendingOf([e]) == Pending(e, None);
  }

  /** Absorbing an event of the same title extends the run's state. */
  lemma {:induction false} AbsorbRun(run: seq<Event>, e: Event)
    requires run != []
    ensures Absorb(PendingOf(run), e) == PendingOf(run + [e])
  {
    assert Front(run + [e]) == run;
    assert (run + [e])[0] == run[0];
  }

  /* ---------- Properties of the merge ---------- */

  /** Merging never produces more events than it is given, and produces
      none exactly when there are none. */
  lemma {:induction false} MergedCount(s: seq<Event>)
    ensures |Merged(s)| <= |s|
    ensures Merged(s) == [] <==> s == []
  {
  }

  /** Adjacent merged events have different titles. */
  lemma {:induction false} MergedAdjacentDiffer(s: seq<Event>, i: nat)
    requires i + 1 < |Merged(s)|
    ensures Merged(s)[i].event.title != Merged(s)[i + 1].event.title
  {
    var rs: seq<seq<Event>> := Runs(s);
    RunsDiffer(s);
    SummariesAt(rs, i);
    SummariesAt(rs, i + 1);
    assert rs[i][0].title != rs[i + 1][0].title;
  }

  /** Each merged event is the first event of its run, with the run's first
      non-empty description, and its display time spans the run: the first
      time alone, or "<first> - <last>" when the run has two or more events
      and the last time is not empty. */
  lemma {:induction false} MergedEvent(s: seq<Event>, i: nat)
    requires i < |Runs(s)|
    ensures var run := Runs(s)[i];
      && Merged(s)[i].event == run[0].(description := RunDescription(run))
      && Merged(s)[i].displayTime ==
        if |run| >= 2 && Last(run).time != [] then run[0].time + " - " + Last(run).time else run[0].time
  {
    SummariesAt(Runs(s), i);
  }

  /** The run description is the first non-empty description of the run,
      or empty when all are. */
  lemma {:induction false} RunDescriptionFirst(run: seq<Event>)
    requires run != []
    ensures var d := RunDescription(run);
      && (d == [] <==> forall k :: 0 <= k < |run| ==> run[k].description == [])
      && (d != [] ==> exists k :: (0 <= k < |run| && d == run[k].description
            && forall j :: 0 <= j < k ==> run[j].description == []))
  {
    if |run| > 1 {
      var f := Front(run);
      RunDescriptionFirst(f);
      assert forall k :: 0 <= k < |f| ==> f[k] == run[k];
      if RunDescription(f) != [] {
        var k :| 0 <= k < |f| && RunDescription(f) == f[k].description
          && forall j :: 0 <= j < k ==> f[j].description == [];
        assert RunDescription(run) == run[k].description;
      } else {
        assert forall j :: 0 <= j < |run| - 1 ==> run[j].description == [];
      }
    }
  }

  /** Events whose neighbours all have different titles are kept one by one,
      each shown at its own time. */
  lemma {:induction false} MergedDistinct(s: seq<Event>)
    requires forall i :: 0 <= i < |s| - 1 ==> s[i].title != s[i + 1].title
    ensures |Merged(s)| == |s|
    ensures forall i :: 0 <= i < |s| ==> Merged(s)[i] == Slot(s[i], s[i].time)
  {
    if s != [] {
      var f, e := Front(s), Last(s);
      assert s == f + [e];
      assert forall i :: 0 <= i < |f| - 1 ==> f[i].title != f[i + 1].title;
      MergedDistinct(f);
      if f != [] {
        LastRunTitle(f);
        assert Last(Merged(f)).event.title == f[|f| - 1].title == s[|s| - 2].title;
      }
      MergedSnocNew(f, e);
      DistinctStep(Merged(s), Merged(f), f, e);
    } else {
      assert Runs(s) == [] && |Merged(s)| == 0;
    }
  }

  /** The last run has the title of the last merged event. */
  lemma {:induction false} LastRunTitle(f: seq<Event>)
    requires f != []
    ensures Runs(f) != [] && Merged(f) != []
    ensures Last(Runs(f))[0].title == Last(Merged(f)).event.title
  {
    MergedEvent(f, |Runs(f)| - 1);
  }

  /** An event whose title differs from the last run's starts a run of its
      own, merged into itself. */
  lemma {:induction false} MergedSnocNew(f: seq<Event>, e: Event)
    requires Runs(f) == [] || Last(Runs(f))[0].title != e.title
    ensures Merged(f + [e]) == Merged(f) + [Slot(e, e.time)]
  {
    MergedSnoc(f, e);
    assert Summary([e]) == Slot(e, e.time);
  }

  lemma {:induction false} DistinctStep(m: seq<Slot>, mf: seq<Slot>, f: seq<Event>, e: Event)
    requires m == mf + [Slot(e, e.time)] && |mf| == |f|
    requires forall i :: 0 <= i < |f| ==> mf[i] == Slot(f[i], f[i].time)
    ensures |m| == |f + [e]|
    ensures forall i :: 0 <= i < |f + [e]| ==> m[i] == Slot((f + [e])[i], (f + [e])[i].time)
  {
  }

  function SlotKey(sl: Slot): Option<int> {
    TimeKey(sl.event)
  }

  /** A merged event starts at the time of its run's first event. */
  lemma {:induction false} SummaryTime(run: seq<Event>)
    requires run != []
    ensures Summary(run).event.time == run[0].time
  {
  }

  /** One more event leaves the start times of the merged events so far
      as they were, and at most adds a merged event starting at its own
      time. */
  lemma {:induction false} MergedSnocTimes(f: seq<Event>, e: Event)
    ensures |Merged(f + [e])| == |Merged(f)| || |Merged(f + [e])| == |Merged(f)| + 1
    ensures |Merged(f + [e])| == |Merged(f)| + 1 ==> Merged(f + [e])[|Merged(f)|].event.time == e.time
    ensures forall k :: 0 <= k < |Merged(f)| ==> Merged(f + [e])[k].event.time == Merged(f)[k].event.time
  {
    MergedSnoc(f, e);
    var rs: seq<seq<Event>> := Runs(f);
    var mf := Merged(f);
    if rs != [] && Last(rs)[0].title == e.title {
      var run := Last(rs);
      SummariesAt(rs, |rs| - 1);
      SummaryTime(run);
      SummaryTime(run + [e]);
      assert (run + [e])[0] == run[0];
    } else {
      SummaryTime([e]);
    }
  }

  /** The slot starts at the time of one of the events. */
  predicate StartsAtTimeOf(sl: Slot, s: seq<Event>) {
    exists j :: 0 <= j < |s| && sl.event.time == s[j].time
  }

  /** Every merged event starts at the time of one of the day's events. */
  lemma {:induction false} MergedTimes(s: seq<Event>)
    ensures forall k :: 0 <= k < |Merged(s)| ==> StartsAtTimeOf(Merged(s)[k], s)
  {
    if s != [] {
      var f, e := Front(s), Last(s);
      assert s == f + [e];
      MergedTimes(f);
      MergedSnocTimes(f, e);
      TimesStep(Merged(s), Merged(f), f, e, s);
    } else {
      assert Runs(s) == [] && |Merged(s)| == 0;
    }
  }

  /** The induction step of MergedTimes, on the merged events alone. */
  lemma {:induction false} TimesStep(m: seq<Slot>, mf: seq<Slot>, f: seq<Event>, e: Event, s: seq<Event>)
    requires s == f + [e]
    requires |m| == |mf| || (|m| == |mf| + 1 && m[|mf|].event.time == e.time)
    requires forall k :: 0 <= k < |mf| ==> m[k].event.time == mf[k].event.time
    requires forall k :: 0 <= k < |mf| ==> StartsAtTimeOf(mf[k], f)
    ensures forall k :: 0 <= k < |m| ==> StartsAtTimeOf(m[k], s)
  {
    forall k | 0 <= k < |m| ensures StartsAtTimeOf(m[k], s) {
      if k < |mf| {
        assert StartsAtTimeOf(mf[k], f);
        var j :| 0 <= j < |f| && mf[k].event.time == f[j].time;
        assert s[j] == f[j];
      } else {
        assert m[k].event.time == s[|f|].time;
      }
    }
  }

  /** Replacing elements by ones of the same key keeps a sequence sorted. */
  lemma {:induction false} SortedSameKeys(a: seq<Slot>, b: seq<Slot>)
    requires |a| == |b| && Sorted(b, SlotKey)
    requires forall k :: 0 <= k < |a| ==> SlotKey(a[k]) == SlotKey(b[k])
    ensures Sorted(a, SlotKey)
  {
  }

  /** An element no earlier than any before it extends a sorted sequence. */
  lemma {:induction false} SortedSnoc(a: seq<Slot>, x: Slot)
    requires Sorted(a, SlotKey)
    requires forall k :: 0 <= k < |a| ==> !Less(x, a[k], SlotKey)
    ensures Sorted(a + [x], SlotKey)
  {
  }

  /** When a day's events are sorted by time, so are its merged events. */
  lemma {:induction false} MergedSorted(s: seq<Event>)
    requires Sorted(s, TimeKey)
    ensures Sorted(Merged(s), SlotKey)
  {
    if s != [] {
      var f, e := Front(s), Last(s);
      assert s == f + [e];
      assert Sorted(f, TimeKey);
      MergedSorted(f);
      MergedSnocTimes(f, e);
      MergedTimes(f);
      SortedStep(Merged(s), Merged(f), f, e);
    }
  }

  /** The induction step of MergedSorted, on the merged events alone. */
  lemma {:induction false} SortedStep(m: seq<Slot>, mf: seq<Slot>, f: seq<Event>, e: Event)
    requires Sorted(f + [e], TimeKey) && Sorted(mf, SlotKey)
    requires |m| == |mf| || (|m| == |mf| + 1 && m[|mf|].event.time == e.time)
    requires forall k :: 0 <= k < |mf| ==> m[k].event.time == mf[k].event.time
    requires forall k :: 0 <= k < |mf| ==> StartsAtTimeOf(mf[k], f)
    ensures Sorted(m, SlotKey)
  {
    if |m| == |mf| {
      SortedSameKeys(m, mf);
    } else {
      var s := f + [e];
      SortedSameKeys(m[..|mf|], mf);
      forall k | 0 <= k < |mf| ensures !Less(m[|mf|], m[k], SlotKey) {
        assert StartsAtTimeOf(mf[k], f);
        var j :| 0 <= j < |f| && mf[k].event.time == f[j].time;
        assert s[j] == f[j] && s[|f|] == e;
        assert !Less(e, f[j], TimeKey);
      }
      SortedSnoc(m[..|mf|], m[|mf|]);
      assert m == m[..|mf|] + [m[|mf|]];
    }
  }
}
