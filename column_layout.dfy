/** Side-by-side columns for the events of one day: greedy first-fit colouring of the
    intervals taken in order of start time. */
module ColumnLayout {
  import opened Events
  import opened Seqs
  import opened Sorting
  import opened TimeUtils

  // ---------------------------------------------------------------------------
  // The layout as a value
  // ---------------------------------------------------------------------------

  /** The column of each event, by position, and the number of columns opened. */
  datatype Assignment = Assignment(columns: seq<nat>, count: nat)

  /** `x` may join column `c`: no event already placed there overlaps it. */
  predicate Fits(placed: seq<TimedEvent>, cols: seq<nat>, c: nat, x: TimedEvent)
    requires |cols| == |placed|
  {
    forall i :: 0 <= i < |placed| && cols[i] == c ==> !EventsOverlap(placed[i], x)
  }

  /** The first column from `c` on, below `count`, that `x` fits in; `count` (a new column)
      when there is none. */
  function FirstFit(placed: seq<TimedEvent>, cols: seq<nat>, x: TimedEvent, c: nat, count: nat): (r: nat)
    requires |cols| == |placed| && c <= count
    ensures c <= r <= count
    ensures r < count ==> Fits(placed, cols, r, x)
    ensures forall j :: c <= j < r ==> !Fits(placed, cols, j, x)
    decreases count - c
  {
    if c == count then count
    else if Fits(placed, cols, c, x) then c
    else FirstFit(placed, cols, x, c + 1, count)
  }

  /** Columns given to `events`, taken in the order given, each to the first column it fits
      in, a new column being opened when it fits in none. */
  function Layout(events: seq<TimedEvent>): (a: Assignment)
    ensures |a.columns| == |events|
    ensures forall i :: 0 <= i < |events| ==> a.columns[i] < a.count
    ensures a.count <= |events|
  {
    if events == [] then Assignment([], 0)
    else
      var prev := Layout(events[..|events| - 1]);
      var c := FirstFit(events[..|events| - 1], prev.columns, events[|events| - 1], 0, prev.count);
      Assignment(prev.columns + [c], if c == prev.count then prev.count + 1 else prev.count)
  }

  /** Placing later events never moves an earlier one. */
  lemma LayoutPrefix(events: seq<TimedEvent>)
    requires events != []
    ensures Layout(events).columns[..|events| - 1] == Layout(events[..|events| - 1]).columns
    ensures Layout(events[..|events| - 1]).count <= Layout(events).count
  {
  }

  /** No two events sharing a column overlap. */
  lemma {:induction false} LayoutNoOverlap(events: seq<TimedEvent>)
    ensures var a := Layout(events);
      forall i, j :: 0 <= i < j < |events| && a.columns[i] == a.columns[j] ==>
        !EventsOverlap(events[i], events[j])
  {
    if events != [] {
      var n := |events| - 1;
      var init := events[..n];
      LayoutNoOverlap(init);
      var a, prev := Layout(events), Layout(init);
      LayoutPrefix(events);
      forall i, j | 0 <= i < j < |events| && a.columns[i] == a.columns[j]
        ensures !EventsOverlap(events[i], events[j])
      {
        if j < n {
          assert events[i] == init[i] && events[j] == init[j];
          assert a.columns[i] == prev.columns[i] && a.columns[j] == prev.columns[j];
        } else {
          assert a.columns[i] == prev.columns[i] && events[i] == init[i];
          assert a.columns[n] < prev.count;
          assert Fits(init, prev.columns, a.columns[n], events[n]);
        }
      }
    }
  }

  /** First fit: an event does not fit in any column to the left of its own, that is,
      each of those columns holds an earlier event overlapping it. */
  lemma {:induction false} LayoutFirstFit(events: seq<TimedEvent>)
    ensures var a := Layout(events);
      forall i, c :: 0 <= i < |events| && 0 <= c < a.columns[i] ==>
        !Fits(events[..i], a.columns[..i], c, events[i])
  {
    if events != [] {
      var n := |events| - 1;
      var init := events[..n];
      LayoutFirstFit(init);
      var a, prev := Layout(events), Layout(init);
      LayoutPrefix(events);
      forall i, c | 0 <= i < |events| && 0 <= c < a.columns[i]
        ensures !Fits(events[..i], a.columns[..i], c, events[i])
      {
        assert a.columns[..i] == prev.columns[..i] && events[..i] == init[..i];
        if i < n {
          assert events[i] == init[i] && a.columns[i] == prev.columns[i];
        } else {
          assert !Fits(init, prev.columns, c, events[n]);
        }
      }
    }
  }

  /** Some event is in column `c`. */
  ghost predicate Used(cols: seq<nat>, c: nat)
  {
    exists i :: 0 <= i < |cols| && cols[i] == c
  }

  /** Every column below the count holds at least one event, so the count is the number of
      columns actually used. */
  lemma {:induction false} LayoutColumnsUsed(events: seq<TimedEvent>)
    ensures var a := Layout(events);
      forall c :: 0 <= c < a.count ==> Used(a.columns, c)
  {
    if events != [] {
      var n := |events| - 1;
      var init := events[..n];
      LayoutColumnsUsed(init);
      var a, prev := Layout(events), Layout(init);
      LayoutPrefix(events);
      forall c | 0 <= c < a.count ensures Used(a.columns, c) {
        if c < prev.count {
          assert Used(prev.columns, c);
          var i :| 0 <= i < n && prev.columns[i] == c;
          assert a.columns[i] == c;
        } else {
          assert a.columns[n] == c;
        }
      }
    }
  }

  /** No events, no columns; any event opens at least one. */
  lemma LayoutEmpty(events: seq<TimedEvent>)
    ensures Layout(events).count == 0 <==> events == []
  {
    if events != [] {
      assert Layout(events).columns[0] < Layout(events).count;
    }
  }

  /** Three events where the second overlaps the first and the third follows both: the
      columns are 0, 1, 0 and two columns are opened. */
  lemma LayoutExample(e: RawEvent)
    ensures var events := [TimedEvent(e, 600, 660), TimedEvent(e, 630, 690), TimedEvent(e, 700, 730)];
      Layout(events) == Assignment([0, 1, 0], 2)
  {
    var events := [TimedEvent(e, 600, 660), TimedEvent(e, 630, 690), TimedEvent(e, 700, 730)];
    assert events[..1] == [events[0]] && events[..2] == [events[0], events[1]];
    assert [events[0]][..0] == [];
    assert Layout([events[0]]) == Assignment([0], 1);
    assert !Fits([events[0]], [0], 0, events[1]);
    assert Layout(events[..2]) == Assignment([0, 1], 2);
    assert Fits(events[..2], [0, 1], 0, events[2]);
  }

  // ---------------------------------------------------------------------------
  // The layout written into the event objects
  // ---------------------------------------------------------------------------

  /** An event record of a day as the calendar holds it: its times are fixed, its column and
      column count are written by `CalculateEventColumns`. */
  class CalEvent {
    const timed: TimedEvent
    var column: nat
    var totalColumns: nat

    constructor (t: TimedEvent)
      ensures timed == t && column == 0 && totalColumns == 0
    {
      timed := t;
      column := 0;
      totalColumns := 0;
    }
  }

  /** The sort key of the layout: the start minute. */
  function StartOf(e: CalEvent): int
  {
    e.timed.startMinutes
  }

  function StartMinutesOf(t: TimedEvent): int
  {
    t.startMinutes
  }

  /** The times carried by a list of event objects. */
  function Timed(objs: seq<CalEvent>): (ts: seq<TimedEvent>)
    ensures |ts| == |objs| && forall i :: 0 <= i < |objs| ==> ts[i] == objs[i].timed
  {
    seq(|objs|, i requires 0 <= i < |objs| => objs[i].timed)
  }

  /** Sorting the objects by start and then reading their times is sorting the times. */
  lemma {:induction false} TimedSortBy(objs: seq<CalEvent>)
    ensures Timed(SortBy(objs, StartOf)) == SortBy(Timed(objs), StartMinutesOf)
  {
    if objs != [] {
      var n := |objs| - 1;
      assert Timed(objs[..n]) == Timed(objs)[..n];
      TimedSortBy(objs[..n]);
      TimedInsert(objs[n], SortBy(objs[..n], StartOf));
    }
  }

  lemma {:induction false} TimedInsert(x: CalEvent, s: seq<CalEvent>)
    ensures Timed(Insert(x, s, StartOf)) == Insert(x.timed, Timed(s), StartMinutesOf)
  {
    if s == [] {
      assert Timed([x]) == [x.timed];
    } else if StartOf(x) < StartOf(s[0]) {
      TimedAppend([x], s);
      assert Timed([x]) == [x.timed];
    } else {
      var ts := Timed(s);
      calc {
        Timed(Insert(x, s, StartOf));
        Timed([s[0]] + Insert(x, s[1..], StartOf));
        { TimedAppend([s[0]], Insert(x, s[1..], StartOf)); assert Timed([s[0]]) == [ts[0]]; }
        [ts[0]] + Timed(Insert(x, s[1..], StartOf));
        { TimedInsert(x, s[1..]); }
        [ts[0]] + Insert(x.timed, Timed(s[1..]), StartMinutesOf);
        { assert Timed(s[1..]) == ts[1..]; }
        [ts[0]] + Insert(x.timed, ts[1..], StartMinutesOf);
        Insert(x.timed, ts, StartMinutesOf);
      }
    }
  }

  lemma TimedAppend(a: seq<CalEvent>, b: seq<CalEvent>)
    ensures Timed(a + b) == Timed(a) + Timed(b)
  {
  }

  /** The events of `objs` given column `c` by `cols`, in order. */
  ghost function Members(objs: seq<CalEvent>, cols: seq<nat>, c: nat): seq<CalEvent>
    requires |cols| == |objs|
  {
    if objs == [] then []
    else Members(objs[..|objs| - 1], cols[..|cols| - 1], c) + (if cols[|cols| - 1] == c then [objs[|objs| - 1]] else [])
  }

  /** Some event in `column` overlaps `e`. */
  predicate Overlaps(column: seq<CalEvent>, e: CalEvent)
  {
    exists x :: x in column && EventsOverlap(x.timed, e.timed)
  }

  /** An event overlaps a member of column `c` exactly when it does not fit in `c`. */
  lemma {:induction false} MembersOverlap(objs: seq<CalEvent>, cols: seq<nat>, c: nat, e: CalEvent)
    requires |cols| == |objs|
    ensures Overlaps(Members(objs, cols, c), e) <==> !Fits(Timed(objs), cols, c, e.timed)
  {
    if objs != [] {
      var n := |objs| - 1;
      MembersOverlap(objs[..n], cols[..n], c, e);
      var ts := Timed(objs);
      assert Timed(objs[..n]) == ts[..n];
      var last := if cols[n] == c then [objs[n]] else [];
      var m := Members(objs, cols, c);
      assert m == Members(objs[..n], cols[..n], c) + last;
      if !Fits(ts, cols, c, e.timed) {
        var i :| 0 <= i < |objs| && cols[i] == c && EventsOverlap(ts[i], e.timed);
        if i == n {
          assert objs[n] in m;
        } else {
          assert !Fits(ts[..n], cols[..n], c, e.timed);
          var x :| x in Members(objs[..n], cols[..n], c) && EventsOverlap(x.timed, e.timed);
          assert x in m;
        }
      }
      if Overlaps(m, e) {
        var x :| x in m && EventsOverlap(x.timed, e.timed);
        if x in last {
          assert cols[n] == c && ts[n] == x.timed;
        } else {
          assert x in Members(objs[..n], cols[..n], c);
        }
      }
    }
  }

  lemma MembersSnoc(objs: seq<CalEvent>, cols: seq<nat>, x: CalEvent, k: nat, c: nat)
    requires |cols| == |objs|
    ensures Members(objs + [x], cols + [k], c) == Members(objs, cols, c) + (if k == c then [x] else [])
  {
    assert (objs + [x])[..|objs|] == objs && (cols + [k])[..|cols|] == cols;
  }

  lemma MembersBeyond(objs: seq<CalEvent>, cols: seq<nat>, c: nat)
    requires |cols| == |objs| && forall i :: 0 <= i < |cols| ==> cols[i] < c
    ensures Members(objs, cols, c) == []
  {
  }

  /** Sorts the events of a day by start minute (stably) and writes into each its first-fit
      column and the number of columns: the columns are `Layout` of the sorted times. */
  method CalculateEventColumns(events: seq<CalEvent>) returns (sorted: seq<CalEvent>)
    requires Distinct(events)
    modifies set e | e in events
    ensures sorted == SortBy(events, StartOf)
    ensures var a := Layout(Timed(sorted));
      forall i :: 0 <= i < |sorted| ==> sorted[i].column == a.columns[i] && sorted[i].totalColumns == a.count
  {
    if |events| == 0 {
      return [];
    }
    sorted := SortBy(events, StartOf);
    PermutationDistinct(events, sorted);
    SameElements(events, sorted);
    var columns := PlaceAll(sorted);
    SetTotalColumns(sorted, |columns|);
  }

  /** Every element of a permutation of `events` is an element of `events`. */
  lemma SameElements(events: seq<CalEvent>, sorted: seq<CalEvent>)
    requires multiset(events) == multiset(sorted)
    ensures forall j :: 0 <= j < |sorted| ==> sorted[j] in events
  {
    forall j | 0 <= j < |sorted| ensures sorted[j] in events {
      assert sorted[j] in multiset(sorted);
    }
  }

  /** The placement loop: each event in turn goes to its first free column. On return every
      event holds its `Layout` column and `columns` has one entry per column opened. */
  method PlaceAll(sorted: seq<CalEvent>) returns (columns: seq<seq<CalEvent>>)
    requires Distinct(sorted)
    modifies set e | e in sorted
    ensures var a := Layout(Timed(sorted));
      |columns| == a.count && forall j :: 0 <= j < |sorted| ==> sorted[j].column == a.columns[j]
    ensures forall j :: 0 <= j < |sorted| ==> sorted[j].totalColumns == old(sorted[j].totalColumns)
  {
    columns := [];
    ghost var given: seq<nat> := [];
    assert sorted[..0] == [];
    for i := 0 to |sorted|
      invariant ColumnsInv(sorted, i, given, columns)
      invariant forall j :: 0 <= j < i ==> sorted[j].column == given[j]
      invariant forall j :: 0 <= j < |sorted| ==> sorted[j].totalColumns == old(sorted[j].totalColumns)
    {
      var k;
      columns, k := PlaceEvent(columns, sorted, i, given);
      given := given + [k];
    }
    assert sorted[..|sorted|] == sorted;
  }

  /** One turn of the placement loop: finds the first column `k` without an overlapping event,
      adds `sorted[i]` to it (to a new column when there is none) and records `k` in the event. */
  method PlaceEvent(columns: seq<seq<CalEvent>>, sorted: seq<CalEvent>, i: nat, ghost given: seq<nat>)
    returns (next: seq<seq<CalEvent>>, k: nat)
    requires ColumnsInv(sorted, i, given, columns) && i < |sorted|
    modifies sorted[i]
    ensures sorted[i].column == k && sorted[i].totalColumns == old(sorted[i].totalColumns)
    ensures ColumnsInv(sorted, i + 1, given + [k], next)
  {
    var e := sorted[i];
    k := FirstFreeColumn(columns, e);
    PlaceStep(sorted, i, given, columns, k);
    if k < |columns| {
      next := columns[k := columns[k] + [e]];
      e.column := k;
    } else {
      next := columns + [[e]];
      e.column := |next| - 1;
    }
  }

  /** Writes the number of columns into every event. */
  method SetTotalColumns(sorted: seq<CalEvent>, total: nat)
    modifies set e | e in sorted
    ensures forall j :: 0 <= j < |sorted| ==> sorted[j].totalColumns == total
    ensures forall j :: 0 <= j < |sorted| ==> sorted[j].column == old(sorted[j].column)
  {
    for i := 0 to |sorted|
      invariant forall j :: 0 <= j < i ==> sorted[j].totalColumns == total
      invariant forall j :: 0 <= j < |sorted| ==> sorted[j].column == old(sorted[j].column)
    {
      sorted[i].totalColumns := total;
    }
  }

  /** The index of the first column none of whose events overlaps `e`, or the number of
      columns when every column has one. */
  method FirstFreeColumn(columns: seq<seq<CalEvent>>, e: CalEvent) returns (k: nat)
    ensures k <= |columns|
    ensures k < |columns| ==> !Overlaps(columns[k], e)
    ensures forall c :: 0 <= c < k ==> Overlaps(columns[c], e)
  {
    k := 0;
    while k < |columns| && Overlaps(columns[k], e)
      invariant k <= |columns|
      invariant forall c :: 0 <= c < k ==> Overlaps(columns[c], e)
    {
      k := k + 1;
    }
  }

  /** After the first `i` sorted events: `given` is their layout and `columns` lists, column
      by column, the events placed there. */
  ghost predicate ColumnsInv(sorted: seq<CalEvent>, i: nat, given: seq<nat>, columns: seq<seq<CalEvent>>)
  {
    i <= |sorted| && |given| == i &&
    var a := Layout(Timed(sorted[..i]));
    given == a.columns && |columns| == a.count &&
    forall c :: 0 <= c < |columns| ==> columns[c] == Members(sorted[..i], given, c)
  }

  /** One round of the placement loop: the first column without an overlapping member is the
      first-fit column, and adding the event there (or in a new column) keeps the invariant. */
  lemma PlaceStep(sorted: seq<CalEvent>, i: nat, given: seq<nat>, columns: seq<seq<CalEvent>>, k: nat)
    requires ColumnsInv(sorted, i, given, columns) && i < |sorted| && k <= |columns|
    requires k < |columns| ==> !Overlaps(columns[k], sorted[i])
    requires forall c :: 0 <= c < k ==> Overlaps(columns[c], sorted[i])
    ensures ColumnsInv(sorted, i + 1, given + [k],
      if k < |columns| then columns[k := columns[k] + [sorted[i]]] else columns + [[sorted[i]]])
  {
    PlaceLayout(sorted, i, given, columns, k);
    PlaceMembers(sorted, i, given, columns, k);
    var e := sorted[i];
    var next := if k < |columns| then columns[k := columns[k] + [e]] else columns + [[e]];
    forall c | 0 <= c < |next| ensures next[c] == Members(sorted[..i + 1], given + [k], c) {
      if c < |columns| {
        assert next[c] == columns[c] + (if k == c then [e] else []);
      } else {
        assert c == k == |columns| && next[c] == [e];
      }
    }
  }

  lemma PlaceLayout(sorted: seq<CalEvent>, i: nat, given: seq<nat>, columns: seq<seq<CalEvent>>, k: nat)
    requires ColumnsInv(sorted, i, given, columns) && i < |sorted| && k <= |columns|
    requires k < |columns| ==> !Overlaps(columns[k], sorted[i])
    requires forall c :: 0 <= c < k ==> Overlaps(columns[c], sorted[i])
    ensures var a := Layout(Timed(sorted[..i + 1]));
      a.columns == given + [k] && a.count == if k < |columns| then |columns| else |columns| + 1
  {
    var e := sorted[i];
    var prefix := sorted[..i];
    var ts := Timed(prefix);
    forall c | 0 <= c <= k && c < |columns|
      ensures Overlaps(columns[c], e) <==> !Fits(ts, given, c, e.timed)
    {
      MembersOverlap(prefix, given, c, e);
    }
    FirstFitIsFirst(ts, given, e.timed, |columns|, k);
    var all := Timed(sorted[..i + 1]);
    assert all == ts + [e.timed] by {
      assert sorted[..i + 1] == prefix + [e];
      TimedAppend(prefix, [e]);
    }
    assert all[..i] == ts && all[i] == e.timed;
  }

  lemma PlaceMembers(sorted: seq<CalEvent>, i: nat, given: seq<nat>, columns: seq<seq<CalEvent>>, k: nat)
    requires ColumnsInv(sorted, i, given, columns) && i < |sorted| && k <= |columns|
    ensures forall c :: 0 <= c <= |columns| ==>
      (Members(sorted[..i + 1], given + [k], c) ==
       (if c < |columns| then columns[c] else []) + (if k == c then [sorted[i]] else []))
  {
    var prefix := sorted[..i];
    assert sorted[..i + 1] == prefix + [sorted[i]];
    forall c | 0 <= c <= |columns|
      ensures Members(sorted[..i + 1], given + [k], c) ==
        (if c < |columns| then columns[c] else []) + (if k == c then [sorted[i]] else [])
    {
      MembersSnoc(prefix, given, sorted[i], k, c);
      if c == |columns| {
        MembersBeyond(prefix, given, c);
      }
    }
  }

  /** A column below `count` into which `x` fits, with no earlier such column, is the first fit. */
  lemma {:induction false} FirstFitIsFirst(placed: seq<TimedEvent>, cols: seq<nat>, x: TimedEvent, count: nat, k: nat)
    requires |cols| == |placed| && k <= count
    requires k < count ==> Fits(placed, cols, k, x)
    requires forall c :: 0 <= c < k ==> !Fits(placed, cols, c, x)
    ensures FirstFit(placed, cols, x, 0, count) == k
  {
  }
}
