/** Filtering of the event list and the neighbourhood facet data. */
module FilterUtils {
  import opened Wrappers
  import opened Text
  import opened Seqs
  import opened Events

  // ---------------------------------------------------------------------------
  // Price classification
  // ---------------------------------------------------------------------------

  /** `isEventFree`: an absent or empty price is free; otherwise the lower-cased price must be
      "free", be "donation", or contain "included". */
  predicate IsEventFree(e: RawEvent)
  {
    e.price.None? || e.price.value == "" ||
    var p := ToLower(e.price.value);
    p == "free" || Contains(p, "included") || p == "donation"
  }

  /** The classification looks at the lower-cased price only: upper- and lower-case
      spellings of a price classify alike. */
  lemma FreeIgnoresCase(e: RawEvent, p: string)
    requires e.price == Some(p)
    ensures IsEventFree(e) <==> IsEventFree(e.(price := Some(ToLower(p))))
  {
    ToLowerIdempotent(p);
    assert ToLower(p) == "" <==> p == "";
  }

  /** "Donation suggested" is not one of the free spellings: such an event is paid. */
  lemma DonationSuggestedIsPaid(e: RawEvent, p: string)
    requires p == "Donation suggested" && e.price == Some(p)
    ensures !IsEventFree(e)
  {
    var l := ToLower(p);
    assert l == "donation suggested";
    forall i | 0 <= i <= |l| - 8 ensures !OccursAt(l, "included", i) {
      NotIncludedAt(l, i);
    }
  }

  lemma NotIncludedAt(l: string, i: int)
    requires l == "donation suggested" && 0 <= i <= |l| - 8
    ensures !OccursAt(l, "included", i)
  {
    assert l[i] != 'i' || l[i + 1] != 'n';
  }

  /** A price mentioning "included" anywhere, in any case, is free. */
  lemma IncludedIsFree(e: RawEvent, before: string, after: string)
    requires e.price == Some(before + "Included" + after)
    ensures IsEventFree(e)
  {
    var p := before + "Included" + after;
    var l := ToLower(p);
    var i := |before|;
    assert l[i..i + 8] == "included";
    assert OccursAt(l, "included", i);
  }

  // ---------------------------------------------------------------------------
  // Filtering
  // ---------------------------------------------------------------------------

  /** The three selections of the filter panel; an empty list selects nothing and so
      constrains nothing. */
  datatype Filters = Filters(activityType: seq<string>, neighborhood: seq<string>, priceType: seq<string>)

  /** `getDefaultFilters`. */
  function DefaultFilters(): (f: Filters)
    ensures f.activityType == [] && f.neighborhood == [] && f.priceType == []
  {
    Filters([], [], [])
  }

  /** A non-empty activity selection must include the event's activity type. */
  predicate MatchesActivity(e: RawEvent, f: Filters)
  {
    |f.activityType| == 0 || (e.activityType.Some? && e.activityType.value in f.activityType)
  }

  /** A non-empty neighbourhood selection must include the event's neighbourhood. */
  predicate MatchesNeighborhood(e: RawEvent, f: Filters)
  {
    |f.neighborhood| == 0 || (e.neighborhood.Some? && e.neighborhood.value in f.neighborhood)
  }

  /** A selected "free" demands a free event and a selected "paid" a paid one. */
  predicate MatchesPrice(e: RawEvent, f: Filters)
  {
    |f.priceType| == 0 ||
    (("free" in f.priceType ==> IsEventFree(e)) && ("paid" in f.priceType ==> !IsEventFree(e)))
  }

  /** The three criteria of `applyFilters`, combined with AND. */
  predicate Passes(e: RawEvent, f: Filters)
  {
    MatchesActivity(e, f) && MatchesNeighborhood(e, f) && MatchesPrice(e, f)
  }

  /** `applyFilters`: the events passing every criterion, in their original order. */
  function ApplyFilters(events: seq<RawEvent>, f: Filters): (r: seq<RawEvent>)
    ensures forall e :: e in r <==> e in events && Passes(e, f)
    ensures IsSubsequence(r, events)
    ensures |r| <= |events|
  {
    if events == [] then events
    else
      var last := events[|events| - 1];
      var r0 := ApplyFilters(events[..|events| - 1], f);
      SubsequenceSnoc(r0, events[..|events| - 1], last, Passes(last, f));
      assert events[..|events| - 1] + [last] == events;
      if Passes(last, f) then r0 + [last] else r0
  }

  /** Events that all pass are kept, all of them. */
  lemma {:induction false} ApplyFiltersKeepsPassing(events: seq<RawEvent>, f: Filters)
    requires forall e :: e in events ==> Passes(e, f)
    ensures ApplyFilters(events, f) == events
  {
    if events != [] {
      var init := events[..|events| - 1];
      ApplyFiltersKeepsPassing(init, f);
      assert events == init + [events[|events| - 1]];
    }
  }

  /** Filtering an extended list extends the filtered list by the new event exactly when
      it passes: `filter` keeps the input's order. */
  lemma ApplyFiltersSnoc(events: seq<RawEvent>, e: RawEvent, f: Filters)
    ensures ApplyFilters(events + [e], f) == ApplyFilters(events, f) + (if Passes(e, f) then [e] else [])
  {
    assert (events + [e])[..|events|] == events;
  }

  /** Each event that passes is kept as many times as it occurs; the others not at all. */
  lemma {:induction false} ApplyFiltersMultiplicity(events: seq<RawEvent>, f: Filters, x: RawEvent)
    ensures multiset(ApplyFilters(events, f))[x] == if Passes(x, f) then multiset(events)[x] else 0
  {
    if events != [] {
      var init, last := events[..|events| - 1], events[|events| - 1];
      ApplyFiltersMultiplicity(init, f, x);
      assert events == init + [last];
      ApplyFiltersSnoc(init, last, f);
    }
  }

  /** Filtering twice with the same selections is filtering once. */
  lemma ApplyFiltersIdempotent(events: seq<RawEvent>, f: Filters)
    ensures ApplyFilters(ApplyFilters(events, f), f) == ApplyFilters(events, f)
  {
    ApplyFiltersKeepsPassing(ApplyFilters(events, f), f);
  }

  /** The default selections keep every event. */
  lemma DefaultFiltersKeepAll(events: seq<RawEvent>)
    ensures ApplyFilters(events, DefaultFilters()) == events
  {
    ApplyFiltersKeepsPassing(events, DefaultFilters());
  }

  /** Selecting both "free" and "paid" leaves nothing: no event is both. */
  lemma {:induction false} BothPriceTypesKeepNothing(events: seq<RawEvent>, f: Filters)
    requires "free" in f.priceType && "paid" in f.priceType
    ensures ApplyFilters(events, f) == []
  {
    if events != [] {
      BothPriceTypesKeepNothing(events[..|events| - 1], f);
    }
  }

  // ---------------------------------------------------------------------------
  // Neighbourhood facets
  // ---------------------------------------------------------------------------

  /** Every name of `names` sorts strictly before every later one. */
  predicate StrictlyAscending(names: seq<string>)
  {
    forall i, j :: 0 <= i < j < |names| ==> LexLess(names[i], names[j])
  }

  /** Some event of `events` is in neighbourhood `n`. */
  ghost predicate HasNeighborhood(events: seq<RawEvent>, n: string)
  {
    exists e :: e in events && e.neighborhood == Some(n)
  }

  /** Adds `n` to a strictly ascending list of names, unless it is there already. */
  function InsertName(n: string, names: seq<string>): (r: seq<string>)
    requires StrictlyAscending(names)
    ensures StrictlyAscending(r)
    ensures forall m :: m in r <==> m == n || m in names
  {
    if names == [] then [n]
    else if n == names[0] then names
    else if LexLess(n, names[0]) then
      assert forall j :: 0 <= j < |names| ==> LexLess(n, names[j]) by {
        forall j | 0 <= j < |names| ensures LexLess(n, names[j]) {
          if j > 0 {
            LexLessTransitive(n, names[0], names[j]);
          }
        }
      }
      [n] + names
    else
      LexLessTotal(n, names[0]);
      var rest := InsertName(n, names[1..]);
      assert forall j :: 0 <= j < |rest| ==> LexLess(names[0], rest[j]) by {
        forall j | 0 <= j < |rest| ensures LexLess(names[0], rest[j]) {
          assert rest[j] in rest;
        }
      }
      [names[0]] + rest
  }

  /** `getUniqueNeighborhoods`: the distinct non-empty neighbourhood names, in ascending
      order. */
  function UniqueNeighborhoods(events: seq<RawEvent>): (r: seq<string>)
    ensures StrictlyAscending(r)
    ensures forall n :: n in r <==> n != "" && HasNeighborhood(events, n)
  {
    if events == [] then []
    else
      var init, last := events[..|events| - 1], events[|events| - 1];
      var prev := UniqueNeighborhoods(init);
      assert forall e :: e in events <==> e in init || e == last by {
        assert events == init + [last];
      }
      if last.neighborhood.Some? && last.neighborhood.value != "" then
        InsertName(last.neighborhood.value, prev)
      else prev
  }

  /** A strictly ascending list has no repeated entry. */
  lemma AscendingDistinct(names: seq<string>)
    requires StrictlyAscending(names)
    ensures Distinct(names)
  {
    forall i, j | 0 <= i < j < |names| ensures names[i] != names[j] {
      if names[i] == names[j] {
        LexLessIrreflexive(names[i]);
      }
    }
  }

  /** The filter that `getNeighborhoodCounts` applies: the activity selection alone. */
  function ActivityOnly(f: Filters): (g: Filters)
    ensures g.activityType == f.activityType && g.neighborhood == [] && g.priceType == []
  {
    Filters(f.activityType, [], [])
  }

  /** Number of events of `events` in neighbourhood `n`. */
  function CountIn(events: seq<RawEvent>, n: string): nat
  {
    if events == [] then 0
    else CountIn(events[..|events| - 1], n) + (if events[|events| - 1].neighborhood == Some(n) then 1 else 0)
  }

  lemma {:induction false} CountInPositive(events: seq<RawEvent>, n: string)
    ensures CountIn(events, n) > 0 <==> HasNeighborhood(events, n)
  {
    if events != [] {
      var init, last := events[..|events| - 1], events[|events| - 1];
      CountInPositive(init, n);
      assert events == init + [last];
      if HasNeighborhood(events, n) && last.neighborhood != Some(n) {
        var e :| e in events && e.neighborhood == Some(n);
        assert e in init;
      }
    }
  }

  /** `getNeighborhoodCounts`: for every non-empty neighbourhood of an event matching the
      activity selection, the number of such events there. The neighbourhood and price
      selections play no part. */
  method NeighborhoodCounts(events: seq<RawEvent>, f: Filters) returns (counts: map<string, nat>)
    ensures forall n :: n in counts <==> n != "" && HasNeighborhood(ApplyFilters(events, ActivityOnly(f)), n)
    ensures forall n :: n in counts ==> counts[n] == CountIn(ApplyFilters(events, ActivityOnly(f)), n)
  {
    counts := map[];
    if |events| == 0 {
      return;
    }
    var filtered := ApplyFilters(events, ActivityOnly(f));
    for i := 0 to |filtered|
      invariant forall n :: n in counts <==> n != "" && HasNeighborhood(filtered[..i], n)
      invariant forall n :: n in counts ==> counts[n] == CountIn(filtered[..i], n)
    {
      var e := filtered[i];
      assert filtered[..i + 1] == filtered[..i] + [e];
      assert forall x :: x in filtered[..i + 1] <==> x in filtered[..i] || x == e;
      if e.neighborhood.Some? && e.neighborhood.value != "" {
        var n := e.neighborhood.value;
        CountInPositive(filtered[..i], n);
        counts := counts[n := (if n in counts then counts[n] else 0) + 1];
      }
    }
    assert filtered[..|filtered|] == filtered;
    if ApplyFilters(events, ActivityOnly(f)) == [] {
      assert forall n :: !HasNeighborhood([], n);
    }
  }

  /** The count of a neighbourhood is the number of events the filter keeps when that
      neighbourhood alone is selected along with the same activities and no price. */
  lemma {:induction false} CountIsFilteredSize(events: seq<RawEvent>, f: Filters, n: string)
    ensures CountIn(ApplyFilters(events, ActivityOnly(f)), n) ==
      |ApplyFilters(events, Filters(f.activityType, [n], []))|
  {
    if events != [] {
      var init, last := events[..|events| - 1], events[|events| - 1];
      CountIsFilteredSize(init, f, n);
      var a := ApplyFilters(init, ActivityOnly(f));
      if Passes(last, ActivityOnly(f)) {
        assert (a + [last])[..|a|] == a;
      }
    }
  }
}
