/** The colour scheme of each activity type and the legend built from it. Colours are
    class-name strings, compared only for equality. */
module ColorUtils {
  import opened Wrappers

  /** The class names an event block of one activity type is drawn with. */
  datatype Colors = Colors(border: string, bg: string, hoverBg: string, text: string, headerBg: string)

  /** The colour table of the eight known activity types. */
  const ColorMap: map<string, Colors> := map[
    "Arts / Crafts" := Colors("border-purple-500", "bg-purple-100", "hover:bg-purple-200", "text-purple-800", "bg-purple-500"),
    "Music / Movement" := Colors("border-blue-500", "bg-blue-100", "hover:bg-blue-200", "text-blue-800", "bg-blue-500"),
    "Open Play" := Colors("border-orange-500", "bg-orange-100", "hover:bg-orange-200", "text-orange-800", "bg-orange-500"),
    "Outdoor / Nature" := Colors("border-green-500", "bg-green-100", "hover:bg-green-200", "text-green-800", "bg-green-500"),
    "Storytime" := Colors("border-pink-500", "bg-pink-100", "hover:bg-pink-200", "text-pink-800", "bg-pink-500"),
    "Movies" := Colors("border-red-500", "bg-red-100", "hover:bg-red-200", "text-red-800", "bg-red-500"),
    "Postnatal Fitness" := Colors("border-amber-500", "bg-amber-100", "hover:bg-amber-200", "text-amber-800", "bg-amber-500"),
    "Stroller Walk" := Colors("border-indigo-500", "bg-indigo-100", "hover:bg-indigo-200", "text-indigo-800", "bg-indigo-500")
  ]

  /** The gray scheme of an event without a known activity type. */
  const DefaultColors := Colors("border-gray-500", "bg-gray-100", "hover:bg-gray-200", "text-gray-800", "bg-gray-500")

  /** The activity types of the legend, in display order. */
  const LegendTypes: seq<string> := [
    "Arts / Crafts", "Music / Movement", "Open Play", "Outdoor / Nature",
    "Storytime", "Movies", "Postnatal Fitness", "Stroller Walk"
  ]

  /** `getActivityColors`: the table entry of a known type, the gray default for any other
      type and for an event without one. */
  function GetActivityColors(activityType: Option<string>): (c: Colors)
    ensures activityType.Some? && activityType.value in ColorMap ==> c == ColorMap[activityType.value]
    ensures c == DefaultColors <==> activityType.None? || activityType.value !in ColorMap
  {
    TableEntriesNotDefault();
    if activityType.Some? && activityType.value in ColorMap then ColorMap[activityType.value]
    else DefaultColors
  }

  /** No entry of the table is the gray default: a known type is always told apart. */
  lemma TableEntriesNotDefault()
    ensures forall t :: t in ColorMap ==> ColorMap[t] != DefaultColors
  {
    forall t | t in ColorMap ensures ColorMap[t] != DefaultColors {
      assert t in LegendTypes;
    }
  }

  /** The table's types are exactly the legend's. */
  lemma LegendCoversTable()
    ensures forall t :: t in ColorMap <==> t in LegendTypes
  {
  }

  /** The activity type each border colour of the table belongs to. */
  const BorderOwner: map<string, string> := map[
    "border-purple-500" := "Arts / Crafts", "border-blue-500" := "Music / Movement",
    "border-orange-500" := "Open Play", "border-green-500" := "Outdoor / Nature",
    "border-pink-500" := "Storytime", "border-red-500" := "Movies",
    "border-amber-500" := "Postnatal Fitness", "border-indigo-500" := "Stroller Walk"
  ]

  /** Every border colour of the table leads back to its own activity type. */
  lemma BorderOwnerInverse()
    ensures forall t :: t in ColorMap ==> ColorMap[t].border in BorderOwner && BorderOwner[ColorMap[t].border] == t
  {
    forall t | t in ColorMap ensures ColorMap[t].border in BorderOwner && BorderOwner[ColorMap[t].border] == t {
      assert t in LegendTypes;
    }
  }

  /** The colour of the border tells the activity type: the eight borders are pairwise
      distinct. */
  lemma BordersDistinct()
    ensures forall s, t :: s in ColorMap && t in ColorMap && s != t ==> ColorMap[s].border != ColorMap[t].border
  {
    BorderOwnerInverse();
  }

  /** One entry of the legend: an activity type and its colours. */
  datatype LegendEntry = LegendEntry(activityType: string, colors: Colors)

  /** `getActivityTypesForLegend`: the eight types in display order, each with the colours
      `getActivityColors` gives it, never the gray default. */
  function GetActivityTypesForLegend(): (r: seq<LegendEntry>)
    ensures |r| == |LegendTypes| == 8
    ensures forall i :: 0 <= i < |r| ==> r[i].activityType == LegendTypes[i]
    ensures forall i :: 0 <= i < |r| ==> r[i].colors == GetActivityColors(Some(r[i].activityType))
    ensures forall i :: 0 <= i < |r| ==> r[i].colors != DefaultColors
  {
    LegendCoversTable();
    seq(|LegendTypes|, i requires 0 <= i < |LegendTypes| =>
      LegendEntry(LegendTypes[i], GetActivityColors(Some(LegendTypes[i]))))
  }
}
