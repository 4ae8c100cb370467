/** The calendar's orchestration: today's weekday, the per-day pipeline (grouping, time
    parsing, dropping untimed events, column layout), the neighbourhood facets of the selected
    day and the recomputation run whenever the events or the filters change. */
module Calendar {
  import opened Wrappers
  import opened Text
  import opened Seqs
  import opened Sorting
  import opened Events
  import opened TimeUtils
  import opened ColumnLayout
  import opened FilterUtils

  // ---------------------------------------------------------------------------
  // Today's weekday
  // ---------------------------------------------------------------------------

  /** Position in `Weekdays` (Monday first) of a `Date#getDay` value (Sunday is 0). */
  function WeekdayIndex(jsDay: nat): (i: nat)
    requires jsDay < 7
    ensures i < 7
  {
    if jsDay == 0 then 6 else jsDay - 1
  }

  /** The `getDay` value of position `i` of `Weekdays`. */
  function JsDayOf(i: nat): (d: nat)
    requires i < 7
    ensures d < 7
  {
    (i + 1) % 7
  }

  /** The index mapping is a bijection on 0..6, undone by `JsDayOf`. */
  lemma WeekdayIndexBijective()
    ensures forall d :: 0 <= d < 7 ==> JsDayOf(WeekdayIndex(d)) == d
    ensures forall i :: 0 <= i < 7 ==> WeekdayIndex(JsDayOf(i)) == i
    ensures forall d, e :: 0 <= d < 7 && 0 <= e < 7 && WeekdayIndex(d) == WeekdayIndex(e) ==> d == e
  {
    forall d | 0 <= d < 7 ensures JsDayOf(WeekdayIndex(d)) == d {
      if d == 0 {
        assert JsDayOf(6) == 0;
      }
    }
  }

  /** The day names in the order of `Date#getDay`: 0 is Sunday, 1 is Monday, and so on. */
  const GetDayNames: seq<string> :=
    ["Sunday", "Monday", "Tuesday", "Wednesday", "Thursday", "Friday", "Saturday"]

  /** `getTodayWeekday`, given the `getDay` value of the clock. */
  function TodayWeekday(jsDay: nat): (day: string)
    requires jsDay < 7
    ensures day in Weekdays
    ensures day == GetDayNames[jsDay]
  {
    Weekdays[WeekdayIndex(jsDay)]
  }

  // ---------------------------------------------------------------------------
  // The per-day pipeline
  // ---------------------------------------------------------------------------

  /** An event with its parsed times, when both are known after the 30-minute default. */
  function TimedOf(e: RawEvent): (t: Option<TimedEvent>)
    ensures t.Some? ==> t.value.event == e
  {
    var times := ParseEventTimes(e);
    if times.startMinutes.Some? && times.endMinutes.Some? then
      Some(TimedEvent(e, times.startMinutes.value, times.endMinutes.value))
    else None
  }

  /** An event keeps a place on the calendar exactly when its start time parses: the end is
      then always known, either parsed or defaulted to 30 minutes later. */
  lemma TimedOfIffStartParses(e: RawEvent)
    ensures TimedOf(e).Some? <==> ParseTimeToMinutes(e.startTime).Some?
    ensures TimedOf(e).Some? ==>
      var t := TimedOf(e).value;
      Some(t.startMinutes as nat) == ParseTimeToMinutes(e.startTime) &&
      (ParseTimeToMinutes(e.endTime).Some? ==> Some(t.endMinutes as nat) == ParseTimeToMinutes(e.endTime)) &&
      (ParseTimeToMinutes(e.endTime).None? ==> t.endMinutes == t.startMinutes + 30)
  {
  }

  /** The `.map(parse times).filter(start and end known)` of one day's bucket. */
  function DayTimed(bucket: seq<RawEvent>): (r: seq<TimedEvent>)
    ensures |r| <= |bucket|
    ensures forall t :: t in r ==> t.event in bucket
  {
    if bucket == [] then []
    else
      var init, last := bucket[..|bucket| - 1], bucket[|bucket| - 1];
      assert bucket == init + [last];
      DayTimed(init) + (match TimedOf(last) case Some(t) => [t] case None => [])
  }

  /** A day keeps exactly the events of its bucket whose times are known, with those times. */
  lemma {:induction false} DayTimedExact(bucket: seq<RawEvent>)
    ensures forall t :: t in DayTimed(bucket) ==> TimedOf(t.event) == Some(t)
    ensures forall e :: e in bucket && TimedOf(e).Some? ==> TimedOf(e).value in DayTimed(bucket)
  {
    if bucket != [] {
      var init, last := bucket[..|bucket| - 1], bucket[|bucket| - 1];
      DayTimedExact(init);
      assert bucket == init + [last];
      var tail := match TimedOf(last) case Some(t) => [t] case None => [];
      assert DayTimed(bucket) == DayTimed(init) + tail;
    }
  }

  /** Appending an event to a bucket appends its timed form exactly when its times are
      known. */
  lemma DayTimedSnoc(bucket: seq<RawEvent>, e: RawEvent)
    ensures DayTimed(bucket + [e]) == DayTimed(bucket) + (if TimedOf(e).Some? then [TimedOf(e).value] else [])
  {
    assert (bucket + [e])[..|bucket|] == bucket;
  }

  /** An event never shows under a day other than its own weekday. */
  lemma DayListsOwnDay(events: seq<RawEvent>, day: string)
    ensures forall t :: t in DayTimed(Bucket(events, day)) ==> t.event.weekday == Some(day) && t.event in events
  {
    var b := Bucket(events, day);
    SubsequenceElements(b, events);
    forall t | t in DayTimed(b) ensures t.event.weekday == Some(day) && t.event in events {
      assert t.event in b;
    }
  }

  /** The days of a list hold, together, at most as many events as the input: each event is
      in the bucket of its own day only. */
  lemma {:induction false} DayListsTotal(events: seq<RawEvent>)
    ensures TotalOver(events, Weekdays) <= |events|
  {
    WeekdaysDistinct();
    BucketsTotal(events, Weekdays);
  }

  /** Number of events, across the buckets of `days`, that keep a place. */
  function TotalOver(events: seq<RawEvent>, days: seq<string>): nat
  {
    if days == [] then 0 else |DayTimed(Bucket(events, days[0]))| + TotalOver(events, days[1..])
  }

  /** Number of events of `events` whose weekday is one of `days`. */
  function OnDays(events: seq<RawEvent>, days: seq<string>): nat
  {
    if events == [] then 0
    else
      var last := events[|events| - 1];
      OnDays(events[..|events| - 1], days) + (if last.weekday.Some? && last.weekday.value in days then 1 else 0)
  }

  lemma {:induction false} BucketsTotal(events: seq<RawEvent>, days: seq<string>)
    requires Distinct(days)
    ensures TotalOver(events, days) <= OnDays(events, days) <= |events|
  {
    OnDaysAtMost(events, days);
    if days != [] {
      assert Distinct(days[1..]);
      BucketsTotal(events, days[1..]);
      OnDaysSplit(events, days);
    }
  }

  lemma {:induction false} OnDaysAtMost(events: seq<RawEvent>, days: seq<string>)
    ensures OnDays(events, days) <= |events|
  {
    if events != [] {
      OnDaysAtMost(events[..|events| - 1], days);
    }
  }

  /** The events on the first of distinct days are apart from those on the others. */
  lemma {:induction false} OnDaysSplit(events: seq<RawEvent>, days: seq<string>)
    requires days != [] && Distinct(days)
    ensures OnDays(events, days) == |Bucket(events, days[0])| + OnDays(events, days[1..])
  {
    if events != [] {
      OnDaysSplit(events[..|events| - 1], days);
      var last := events[|events| - 1];
      if last.weekday.Some? && last.weekday.value in days && last.weekday.value != days[0] {
        assert last.weekday.value in days[1..];
      }
    }
  }

  /** The objects of `objs` are the day's timed events sorted by start, each holding its
      first-fit column and the column count. */
  ghost predicate LaidOut(objs: seq<CalEvent>, bucket: seq<RawEvent>)
    reads objs
  {
    Timed(objs) == SortBy(DayTimed(bucket), StartMinutesOf) &&
    var a := Layout(Timed(objs));
    forall i :: 0 <= i < |objs| ==> objs[i].column == a.columns[i] && objs[i].totalColumns == a.count
  }

  /** One day of `processEvents`: a fresh record for each event of the bucket whose times are
      known, then the column layout. */
  method LayoutDay(bucket: seq<RawEvent>) returns (objs: seq<CalEvent>)
    ensures LaidOut(objs, bucket)
    ensures forall o :: o in objs ==> fresh(o)
  {
    var made := NewRecords(DayTimed(bucket));
    objs := CalculateEventColumns(made);
    TimedSortBy(made);
    forall o | o in objs ensures fresh(o) {
      assert o in multiset(objs);
      assert o in made;
    }
  }

  /** The `{ ...event, startMinutes, endMinutes }` records of a day: one new object per timed
      event, in order. */
  method NewRecords(ts: seq<TimedEvent>) returns (made: seq<CalEvent>)
    ensures Timed(made) == ts
    ensures forall o :: o in made ==> fresh(o)
    ensures Distinct(made)
  {
    made := [];
    for i := 0 to |ts|
      invariant Timed(made) == ts[..i]
      invariant forall o :: o in made ==> fresh(o)
      invariant Distinct(made)
    {
      var o := new CalEvent(ts[i]);
      assert ts[..i + 1] == ts[..i] + [ts[i]];
      TimedAppend(made, [o]);
      made := made + [o];
    }
    assert ts[..|ts|] == ts;
  }

  /** `processEvents`: every weekday gets the layout of its bucket. */
  method ProcessEvents(events: seq<RawEvent>) returns (processed: map<string, seq<CalEvent>>)
    ensures processed.Keys == set d | d in Weekdays
    ensures forall d :: d in processed ==> LaidOut(processed[d], Bucket(events, d))
    ensures forall d, o :: d in processed && o in processed[d] ==> fresh(o)
  {
    var grouped := GroupEventsByWeekday(events);
    processed := LayoutDays(grouped, Weekdays);
  }

  /** The `forEach` of `processEvents` over `days`, each day given the layout of its bucket. */
  method LayoutDays(grouped: map<string, seq<RawEvent>>, days: seq<string>)
    returns (processed: map<string, seq<CalEvent>>)
    requires forall d :: d in days ==> d in grouped
    ensures processed.Keys == set d | d in days
    ensures forall d :: d in processed ==> LaidOut(processed[d], grouped[d])
    ensures forall d, o :: d in processed && o in processed[d] ==> fresh(o)
  {
    processed := map[];
    for k := 0 to |days|
      invariant forall d :: d in processed <==> d in days[..k]
      invariant forall d :: d in processed ==> d in grouped && LaidOut(processed[d], grouped[d])
      invariant forall d, o :: d in processed && o in processed[d] ==> fresh(o)
    {
      var day := days[k];
      assert days[..k + 1] == days[..k] + [day];
      processed := AddDay(processed, grouped, day);
    }
    assert days[..|days|] == days;
    assert processed.Keys == set d | d in days;
  }

  /** One step of the `forEach` of `processEvents`: the day's entry set to the layout of its
      bucket, the entries of the other days kept. */
  method AddDay(processed: map<string, seq<CalEvent>>, grouped: map<string, seq<RawEvent>>, day: string)
    returns (next: map<string, seq<CalEvent>>)
    requires day in grouped
    requires forall d :: d in processed ==> d in grouped && LaidOut(processed[d], grouped[d])
    ensures next.Keys == processed.Keys + {day}
    ensures forall d :: d in next ==> d in grouped && LaidOut(next[d], grouped[d])
    ensures forall d :: d in processed && d != day ==> next[d] == processed[d]
    ensures forall o :: o in next[day] ==> fresh(o)
  {
    var objs := LayoutDay(grouped[day]);
    assert forall d :: d in processed ==> LaidOut(processed[d], grouped[d]);
    next := processed[day := objs];
  }

  /** The effect run when the events or the filters change: no day keys at all for an empty
      event list, otherwise the layout of the filtered events. */
  method RecomputeLayout(events: seq<RawEvent>, filters: Filters) returns (processed: map<string, seq<CalEvent>>)
    ensures |events| == 0 ==> processed == map[]
    ensures |events| > 0 ==> processed.Keys == set d | d in Weekdays
    ensures |events| > 0 ==>
      forall d :: d in processed ==> LaidOut(processed[d], Bucket(ApplyFilters(events, filters), d))
  {
    if |events| == 0 {
      return map[];
    }
    var filtered := ApplyFilters(events, filters);
    processed := ProcessEvents(filtered);
  }

  // ---------------------------------------------------------------------------
  // Neighbourhood facets of the selected day
  // ---------------------------------------------------------------------------

  /** The count shown for a neighbourhood: its entry, or 0 when it has none. */
  function CountOr0(counts: map<string, nat>, n: string): nat
  {
    if n in counts then counts[n] else 0
  }

  /** The facet sort key: the negated count, so ascending keys are descending counts. */
  function FacetKey(counts: map<string, nat>): string -> int
  {
    (n: string) => 0 - CountOr0(counts, n) as int
  }

  /** The neighbourhoods sorted by descending count, stably. */
  function OrderFacets(names: seq<string>, counts: map<string, nat>): (r: seq<string>)
    ensures multiset(r) == multiset(names)
  {
    SortBy(names, FacetKey(counts))
  }

  /** Facets come by descending count; equal counts stay in ascending name order; names
      without activity-matching events (count 0) come last. */
  lemma FacetOrder(names: seq<string>, counts: map<string, nat>)
    requires StrictlyAscending(names)
    ensures var r := OrderFacets(names, counts);
      (forall i, j :: 0 <= i < j < |r| ==> CountOr0(counts, r[i]) >= CountOr0(counts, r[j])) &&
      (forall i, j :: 0 <= i < j < |r| && CountOr0(counts, r[i]) == CountOr0(counts, r[j]) ==>
        LexLess(r[i], r[j])) &&
      (forall i, j :: 0 <= i < j < |r| && CountOr0(counts, r[i]) == 0 ==> CountOr0(counts, r[j]) == 0)
  {
    var key := FacetKey(counts);
    SortBySorted(names, key);
    assert TiesOrdered(names, key, LexLess);
    SortByTies(names, key, LexLess);
  }

  /** The facet data of the selected day: counts over that day's unfiltered events with only
      the activity selection applied, and its neighbourhoods ordered by those counts. */
  method NeighborhoodFacets(events: seq<RawEvent>, selectedDay: string, filters: Filters)
    returns (names: seq<string>, counts: map<string, nat>)
    ensures var dayEvents := ApplyFilters(Bucket(events, selectedDay), ActivityOnly(filters));
      (forall n :: n in counts <==> n != "" && HasNeighborhood(dayEvents, n)) &&
      (forall n :: n in counts ==> counts[n] == CountIn(dayEvents, n))
    ensures names == OrderFacets(UniqueNeighborhoods(Bucket(events, selectedDay)), counts)
  {
    var dayEvents := Bucket(events, selectedDay);
    counts := NeighborhoodCounts(dayEvents, filters);
    names := OrderFacets(UniqueNeighborhoods(dayEvents), counts);
  }
}
