/** The pure helpers of the filter panel: the selection toggles, whether any filter is active,
    the one-line summary shown when the panel is collapsed, the activity emoji, the price
    checkbox values and the neighbourhood dropdown. */
module FiltersPanel {
  import opened Seqs
  import opened Text
  import opened Events
  import opened FilterUtils
  import ColorUtils

  // ---------------------------------------------------------------------------
  // Toggles
  // ---------------------------------------------------------------------------

  /** The new list of a checkbox or chip click: a value not yet selected is appended, a
      selected one is removed, every occurrence of it. */
  function Toggle(selected: seq<string>, v: string): (r: seq<string>)
    ensures v in r <==> v !in selected
    ensures forall x :: x != v ==> (x in r <==> x in selected)
    ensures v !in selected ==> r == selected + [v]
  {
    RemoveAllElements(selected, v);
    if v in selected then RemoveAll(selected, v) else selected + [v]
  }

  /** Clicking a value twice, starting from a list without it, gives the list back. */
  lemma ToggleTwiceRestores(selected: seq<string>, v: string)
    requires v !in selected
    ensures Toggle(Toggle(selected, v), v) == selected
  {
    RemoveAllAppend(selected, [v], v);
    assert RemoveAll([v], v) == [];
  }

  /** Clicking a selected value twice drops its repetitions and moves it to the end. */
  lemma ToggleTwiceMovesLast(selected: seq<string>, v: string)
    requires v in selected
    ensures Toggle(Toggle(selected, v), v) == RemoveAll(selected, v) + [v]
  {
  }

  /** `toggleActivityType`: only the activity selection changes. */
  function ToggleActivityType(f: Filters, activityType: string): (g: Filters)
    ensures g.activityType == Toggle(f.activityType, activityType)
    ensures g.neighborhood == f.neighborhood && g.priceType == f.priceType
  {
    f.(activityType := Toggle(f.activityType, activityType))
  }

  /** `toggleNeighborhood`: only the neighbourhood selection changes. */
  function ToggleNeighborhood(f: Filters, neighborhood: string): (g: Filters)
    ensures g.neighborhood == Toggle(f.neighborhood, neighborhood)
    ensures g.activityType == f.activityType && g.priceType == f.priceType
  {
    f.(neighborhood := Toggle(f.neighborhood, neighborhood))
  }

  /** `togglePriceType`: only the price selection changes. */
  function TogglePriceType(f: Filters, priceType: string): (g: Filters)
    ensures g.priceType == Toggle(f.priceType, priceType)
    ensures g.activityType == f.activityType && g.neighborhood == f.neighborhood
  {
    f.(priceType := Toggle(f.priceType, priceType))
  }

  // ---------------------------------------------------------------------------
  // Active filters
  // ---------------------------------------------------------------------------

  /** `hasActiveFilters`: some selection list is non-empty. */
  predicate HasActiveFilters(f: Filters)
  {
    |f.activityType| > 0 || |f.neighborhood| > 0 || |f.priceType| > 0
  }

  /** The filters are active exactly when they differ from the defaults, and inactive filters
      keep every event. */
  lemma InactiveIsDefault(f: Filters, events: seq<RawEvent>)
    ensures HasActiveFilters(f) <==> f != DefaultFilters()
    ensures !HasActiveFilters(f) ==> ApplyFilters(events, f) == events
  {
    if !HasActiveFilters(f) {
      DefaultFiltersKeepAll(events);
    }
  }

  /** Selecting a value makes the filters active; deselecting the only selected value of
      the only active list makes them inactive again. */
  lemma ToggleActivates(f: Filters, v: string)
    ensures v !in f.neighborhood ==> HasActiveFilters(ToggleNeighborhood(f, v))
    ensures f.activityType == [] && f.priceType == [] && f.neighborhood == [v] ==>
      !HasActiveFilters(ToggleNeighborhood(f, v))
  {
    if f.neighborhood == [v] {
      assert RemoveAll([v], v) == [];
    }
  }

  // ---------------------------------------------------------------------------
  // Emoji and price checkboxes
  // ---------------------------------------------------------------------------

  /** The emoji shown for an activity type that has none of its own. */
  const Sparkles: string := "\U{2728}"

  /** The emoji of each known activity type; the stroller walk's is a four-code-point
      sequence (person walking, zero-width joiner, female sign, variation selector). */
  const EmojiMap: map<string, string> := map[
    "Arts / Crafts" := "\U{1F3A8}",
    "Music / Movement" := "\U{1F3B5}",
    "Open Play" := "\U{1F9F8}",
    "Outdoor / Nature" := "\U{1F333}",
    "Storytime" := "\U{1F4DA}",
    "Movies" := "\U{1F3AC}",
    "Postnatal Fitness" := "\U{1F4AA}",
    "Stroller Walk" := "\U{1F6B6}\U{200D}\U{2640}\U{FE0F}"
  ]

  /** `getActivityEmoji`: the type's emoji, or the sparkles for any other type. No entry is
      empty, so the `||` default applies to unknown types only. */
  function GetActivityEmoji(activityType: string): (r: string)
    ensures r != ""
    ensures r == Sparkles <==> activityType !in EmojiMap
    ensures activityType in EmojiMap ==> r == EmojiMap[activityType]
  {
    EmojiEntries();
    if activityType in EmojiMap then EmojiMap[activityType] else Sparkles
  }

  lemma EmojiEntries()
    ensures forall t :: t in EmojiMap ==> EmojiMap[t] != "" && EmojiMap[t] != Sparkles
  {
    forall t | t in EmojiMap ensures EmojiMap[t] != "" && EmojiMap[t] != Sparkles {
      assert t in ColorUtils.LegendTypes;
    }
  }

  /** Every activity checkbox of the legend shows an emoji of its own, and no two show the
      same one. */
  lemma LegendEmojis()
    ensures forall t :: t in ColorUtils.LegendTypes ==> GetActivityEmoji(t) != Sparkles
    ensures forall s, t :: s in ColorUtils.LegendTypes && t in ColorUtils.LegendTypes && s != t ==>
      GetActivityEmoji(s) != GetActivityEmoji(t)
  {
    assert forall t :: t in ColorUtils.LegendTypes <==> t in EmojiMap;
    EmojisDistinct();
  }

  /** The activity type each emoji of the table belongs to. */
  const EmojiOwner: map<string, string> := map[
    "\U{1F3A8}" := "Arts / Crafts", "\U{1F3B5}" := "Music / Movement",
    "\U{1F9F8}" := "Open Play", "\U{1F333}" := "Outdoor / Nature",
    "\U{1F4DA}" := "Storytime", "\U{1F3AC}" := "Movies",
    "\U{1F4AA}" := "Postnatal Fitness", "\U{1F6B6}\U{200D}\U{2640}\U{FE0F}" := "Stroller Walk"
  ]

  /** Every emoji of the table leads back to its own activity type. */
  lemma EmojiOwnerInverse()
    ensures forall t :: t in EmojiMap ==> EmojiMap[t] in EmojiOwner && EmojiOwner[EmojiMap[t]] == t
  {
    forall t | t in EmojiMap ensures EmojiMap[t] in EmojiOwner && EmojiOwner[EmojiMap[t]] == t {
      assert t in ColorUtils.LegendTypes;
    }
  }

  /** No two activity types share an emoji. */
  lemma EmojisDistinct()
    ensures forall s, t :: s in EmojiMap && t in EmojiMap && s != t ==> EmojiMap[s] != EmojiMap[t]
  {
    EmojiOwnerInverse();
  }

  /** The labels of the two price checkboxes. */
  const PriceLabels: seq<string> := ["Free", "Paid"]

  /** The value a price checkbox stores and looks for in the selection: its lower-cased
      label. */
  function PriceValue(text: string): (v: string)
    ensures |v| == |text|
  {
    ToLower(text)
  }

  /** `p.charAt(0).toUpperCase() + p.slice(1)`. */
  function Capitalize(p: string): (r: string)
    ensures |r| == |p|
    ensures p != [] ==> r[0] == ToUpperChar(p[0]) && r[1..] == p[1..]
  {
    if p == [] then [] else [ToUpperChar(p[0])] + p[1..]
  }

  /** The checkboxes store exactly the two strings the price filter reads, and the summary
      shows each of them capitalised as its checkbox label. */
  lemma PriceValuesRoundTrip(text: string)
    requires text in PriceLabels
    ensures PriceValue(text) in ["free", "paid"]
    ensures Capitalize(PriceValue(text)) == text
  {
    if text == "Free" {
      assert PriceValue(text) == "free";
    } else {
      assert PriceValue(text) == "paid";
    }
  }

  /** Ticking only the "Free" checkbox keeps exactly the free events, in order. */
  lemma FreeCheckboxKeepsFree(events: seq<RawEvent>, text: string)
    requires text == "Free"
    ensures var r := ApplyFilters(events, TogglePriceType(DefaultFilters(), PriceValue(text)));
      forall e :: e in r <==> e in events && IsEventFree(e)
  {
    assert PriceValue(text) == "free";
  }

  // ---------------------------------------------------------------------------
  // Summary
  // ---------------------------------------------------------------------------

  /** The separator between the parts of the summary. */
  const Bullet: string := " \U{2022} "

  /** The activity part: the emoji and name of a single type, or the number of types. */
  function ActivityPart(selected: seq<string>): (r: string)
    requires selected != []
    ensures r != ""
  {
    if |selected| == 1 then GetActivityEmoji(selected[0]) + " " + selected[0]
    else NatToString(|selected|) + " activities"
  }

  /** The labels of the selected price values: each capitalised. */
  function PriceLabelsOf(selected: seq<string>): (r: seq<string>)
    ensures |r| == |selected| && forall i :: 0 <= i < |r| ==> r[i] == Capitalize(selected[i])
  {
    seq(|selected|, i requires 0 <= i < |selected| => Capitalize(selected[i]))
  }

  /** The price part: the capitalised price values, separated by commas. */
  function PricePart(selected: seq<string>): string
  {
    Join(PriceLabelsOf(selected), ", ")
  }

  /** The neighbourhood part: a single name, or the number of names. */
  function NeighborhoodPart(selected: seq<string>): string
    requires selected != []
  {
    if |selected| == 1 then selected[0] else NatToString(|selected|) + " neighborhoods"
  }

  /** The parts of the summary, in the order activity, price, neighbourhood; a part appears
      exactly when its selection is non-empty. */
  function SummaryParts(f: Filters): (parts: seq<string>)
    ensures |parts| <= 3
  {
    (if f.activityType != [] then [ActivityPart(f.activityType)] else []) +
    (if f.priceType != [] then [PricePart(f.priceType)] else []) +
    (if f.neighborhood != [] then [NeighborhoodPart(f.neighborhood)] else [])
  }

  /** `getFilterSummary`: the parts pushed one by one, joined by bullets. */
  method GetFilterSummary(f: Filters) returns (summary: string)
    ensures summary == Join(SummaryParts(f), Bullet)
  {
    var parts: seq<string> := [];
    if |f.activityType| > 0 {
      if |f.activityType| == 1 {
        parts := parts + [GetActivityEmoji(f.activityType[0]) + " " + f.activityType[0]];
      } else {
        parts := parts + [NatToString(|f.activityType|) + " activities"];
      }
    }
    ghost var activity := parts;
    assert activity == if f.activityType != [] then [ActivityPart(f.activityType)] else [];
    if |f.priceType| > 0 {
      parts := parts + [Join(PriceLabelsOf(f.priceType), ", ")];
    }
    ghost var price := if f.priceType != [] then [PricePart(f.priceType)] else [];
    assert parts == activity + price;
    if |f.neighborhood| > 0 {
      if |f.neighborhood| == 1 {
        parts := parts + [f.neighborhood[0]];
      } else {
        parts := parts + [NatToString(|f.neighborhood|) + " neighborhoods"];
      }
    }
    assert parts == activity + price + (if f.neighborhood != [] then [NeighborhoodPart(f.neighborhood)] else []);
    summary := Join(parts, Bullet);
  }

  /** Joining non-empty parts gives the empty text only for no parts at all. */
  lemma {:induction false} JoinNonEmpty(parts: seq<string>, sep: string)
    requires forall i :: 0 <= i < |parts| ==> parts[i] != ""
    ensures Join(parts, sep) == "" <==> parts == []
  {
    if |parts| > 1 {
      JoinNonEmpty(parts[1..], sep);
    }
  }

  /** No value selected is the empty string. */
  predicate NoEmptyValues(f: Filters)
  {
    "" !in f.activityType && "" !in f.neighborhood && "" !in f.priceType
  }

  /** The summary is empty exactly when no filter is active, as long as no selected value is
      the empty string. */
  lemma SummaryEmptyIffInactive(f: Filters)
    requires NoEmptyValues(f)
    ensures Join(SummaryParts(f), Bullet) == "" <==> !HasActiveFilters(f)
  {
    var parts := SummaryParts(f);
    if f.priceType != [] {
      var labels := PriceLabelsOf(f.priceType);
      assert labels[0] != "" by {
        assert f.priceType[0] in f.priceType;
      }
      JoinFirstNonEmpty(labels, ", ");
    }
    if f.neighborhood != [] {
      assert f.neighborhood[0] in f.neighborhood;
    }
    JoinNonEmpty(parts, Bullet);
  }

  /** A join whose first part is non-empty is non-empty. */
  lemma JoinFirstNonEmpty(parts: seq<string>, sep: string)
    requires parts != [] && parts[0] != ""
    ensures Join(parts, sep) != ""
  {
  }

  /** A single neighbourhood named by the empty string is an active filter whose summary is
      nevertheless empty. */
  lemma EmptyNameSummary(f: Filters)
    requires f == Filters([], [""], [])
    ensures HasActiveFilters(f) && Join(SummaryParts(f), Bullet) == ""
  {
  }

  /** Two activities and the "free" price read "2 activities • Free". */
  lemma SummaryExample(f: Filters)
    requires f == Filters(["Storytime", "Movies"], [], ["free"])
    ensures Join(SummaryParts(f), Bullet) == "2 activities \U{2022} Free"
  {
    assert NatToString(2) == "2";
    assert Capitalize("free") == "Free";
    assert PricePart(["free"]) == "Free";
    assert ActivityPart(f.activityType) == "2 activities";
    assert SummaryParts(f) == ["2 activities", "Free"];
  }

  // ---------------------------------------------------------------------------
  // Neighbourhood dropdown
  // ---------------------------------------------------------------------------

  /** The dropdown of neighbourhoods to add: those not selected yet, in the given order. */
  function DropdownOptions(neighborhoods: seq<string>, selected: seq<string>): (r: seq<string>)
    ensures forall n :: n in r <==> n in neighborhoods && n !in selected
    ensures IsSubsequence(r, neighborhoods)
  {
    if neighborhoods == [] then []
    else
      var init, last := neighborhoods[..|neighborhoods| - 1], neighborhoods[|neighborhoods| - 1];
      var r0 := DropdownOptions(init, selected);
      SubsequenceSnoc(r0, init, last, last !in selected);
      assert init + [last] == neighborhoods;
      if last !in selected then r0 + [last] else r0
  }

  /** Picking an option from the dropdown removes it, and only it, from the dropdown. */
  lemma {:induction false} PickOption(neighborhoods: seq<string>, selected: seq<string>, n: string)
    requires n !in selected
    ensures DropdownOptions(neighborhoods, Toggle(selected, n)) == RemoveAll(DropdownOptions(neighborhoods, selected), n)
  {
    if neighborhoods != [] {
      var init, last := neighborhoods[..|neighborhoods| - 1], neighborhoods[|neighborhoods| - 1];
      PickOption(init, selected, n);
      var before := DropdownOptions(init, selected);
      assert Toggle(selected, n) == selected + [n];
      if last !in selected {
        var with := before + [last];
        assert with[..|with| - 1] == before && with[|with| - 1] == last;
        assert RemoveAll(with, n) == RemoveAll(before, n) + (if last == n then [] else [last]);
      }
    }
  }
}
