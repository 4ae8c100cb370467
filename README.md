# Weekly calendar: event layout and filtering, modelled in Dafny

This project models the core of a weekly activity calendar. The calendar is a React front
end that shows one column per weekday of events for babies and parents. The model covers
the code that turns the raw event list into what the calendar draws:

- **Time handling** (`TimeUtils`):
  - reading "H:MM AM/PM" texts as minutes since midnight, with the leftmost match of the
    clock pattern after removing `*` and trimming;
  - writing minutes back as such a text;
  - the 30-minute default duration;
  - half-open interval overlap;
  - grouping by the seven canonical weekdays.
- **Column layout** (`ColumnLayout`): the greedy first-fit assignment of overlapping events
  to side-by-side columns.
  - It is written as a method that sorts the day's event objects by start time and writes
    `column` and `totalColumns` into them in place.
  - It is proved against a pure specification, `Layout`, which carries the layout's
    properties.
- **Sorting** (`Sorting`): the stable sort `Array.prototype.sort` performs with a numeric
  comparator. It is used both for the layout and for the neighbourhood facets.
- **Filtering** (`FilterUtils`):
  - the free/paid classification of the free-text price;
  - the three AND-combined filters;
  - the sorted unique neighbourhoods;
  - the per-neighbourhood counts, which apply only the activity filter.
- **Orchestration** (`Calendar`):
  - the weekday of today's `getDay` value;
  - `processEvents`, which groups, parses times, drops events without times and lays out
    each day;
  - the recomputation run when the events or the filters change;
  - the facet list of the selected day, ordered by count.
- **Filter panel helpers** (`FiltersPanel`):
  - the three selection toggles and `hasActiveFilters`;
  - the collapsed-panel summary and the activity emoji;
  - the price checkbox values and the neighbourhood dropdown.
- **Time axis** (`TimeAxis`): the hour marks drawn along the left edge.
- **Activity colours** (`ColorUtils`): the colour table with its gray default, and the legend.

Strings are sequences of Unicode code points (`string`). Absent JavaScript values
(`undefined`, `null`) are `Option.None`. Every integer is unbounded, since all values in the
core are small minute counts and list lengths.

Where a function only computes, its properties sit on the lemmas listed beside it. Where the
source changes state (the column layout, the per-day loop, the hour loop, the counting loop
and the summary's `parts` array), the model is a method proved against a pure function, and
the lemmas are about that function.

## Model

| member | source | states |
|---|---|---|
| Text.TrimStart | frontend/src/utils/timeUtils.js:10 | The result is a suffix of the input, every dropped character is JavaScript white space, and the result does not start with white space. |
| Text.TrimEnd | frontend/src/utils/timeUtils.js:10 | The result is a prefix of the input, every dropped character is white space, and the result does not end with white space. |
| Seqs.RemoveAll | frontend/src/utils/timeUtils.js:10 | `replace(/\*/g, '')` and the toggles' `filter(t => t !== v)`: the result is never longer than the input, and nothing changes when the value is absent. |
| Seqs.RemoveAllElements | frontend/src/components/Filters.jsx:15 | The result holds exactly the elements of the input other than the removed value. |
| Seqs.RemoveAllAppend | frontend/src/utils/timeUtils.js:10 | Removal distributes over concatenation. |
| Text.NatToString | frontend/src/utils/timeUtils.js:40 | `Number#toString` of a natural: at least one digit, all decimal digits, its value is the number, one digit exactly below 10, and no leading zero. |
| Text.PadStart | frontend/src/utils/timeUtils.js:40 | `padStart(n, c)` pads on the left up to length n and keeps the text as its suffix. |
| Text.LexLessTransitive | frontend/src/utils/filterUtils.js:35 | The string order of the default sort is transitive. |
| Text.LexLessTotal | frontend/src/utils/filterUtils.js:35 | Any two different strings are ordered one way or the other. |
| Text.LexLessAsymmetric | frontend/src/utils/filterUtils.js:35 | Never both a < b and b < a. |
| TimeUtils.SkipSpaces | frontend/src/utils/timeUtils.js:13 | The greedy `\s*` consumes exactly the white space run from its start. |
| TimeUtils.HourDigitsAt | frontend/src/utils/timeUtils.js:13 | The `\d{1,2}` hour group at a position has length n exactly when n is 1 or 2 and n digits followed by ':' stand there. It has length 0 when neither length fits, and at most one length ever fits. |
| TimeUtils.PeriodAt | frontend/src/utils/timeUtils.js:13 | The period group, AM or PM under `/i`, is present exactly when 'a', 'A', 'p' or 'P' is followed by 'm' or 'M', and reads PM exactly for 'p' or 'P'. |
| TimeUtils.ClockAt | frontend/src/utils/timeUtils.js:13 | The declarative reading of the clock pattern at a position: one or two hour digits, ':', two minute digits, white space only, then AM or PM in any case. The groups are the decimal values of the digit runs, as `parseInt` reads them. |
| TimeUtils.MatchAt | frontend/src/utils/timeUtils.js:13 | A match of the clock pattern at a position has hours and minutes below 100. Its exact meaning is `MatchAtIff`. |
| TimeUtils.MatchAtIff | frontend/src/utils/timeUtils.js:13 | `MatchAt` reads the groups c at a position exactly when `ClockAt` holds there for c. So the greedy `\s*` and the two-digit-first hour lose no match. |
| TimeUtils.MatchAtSound | frontend/src/utils/timeUtils.js:13 | Every match `MatchAt` reports satisfies `ClockAt` with the reported groups. |
| TimeUtils.MatchAtComplete | frontend/src/utils/timeUtils.js:13 | Every way the pattern fits at a position is what `MatchAt` reports there. |
| TimeUtils.FindClock | frontend/src/utils/timeUtils.js:13 | `String#match` without the global flag: the search from a position. Its meaning is stated by `FindClockNone` and `FindClockLeftmost`. |
| TimeUtils.FindClockNone | frontend/src/utils/timeUtils.js:13-14 | The search finds nothing exactly when the pattern matches at no position. |
| TimeUtils.FindClockLeftmost | frontend/src/utils/timeUtils.js:13 | When the pattern matches somewhere, the search finds the match at the leftmost position where it matches. |
| TimeUtils.To24Hour | frontend/src/utils/timeUtils.js:20-25 | For every hour: 12 becomes 0 for AM and stays 12 for PM; any other hour gains 12 for PM and is kept for AM. For hours 1-12 the value is below 24, at least 12 exactly for PM, and agrees with the 12-hour value modulo 12. |
| TimeUtils.CleanTime | frontend/src/utils/timeUtils.js:10 | The cleaned text has no '*', does not start or end with white space, and holds only characters of the input. |
| TimeUtils.ParseTimeToMinutes | frontend/src/utils/timeUtils.js:7 | An absent or empty text gives null. |
| TimeUtils.ParseTimeNone | frontend/src/utils/timeUtils.js:6-14 | A non-empty text gives null exactly when the clock pattern matches at no position of its cleaned form. |
| TimeUtils.ParseTimeLeftmost | frontend/src/utils/timeUtils.js:6-28 | Otherwise the text reads as `To24Hour(hours, pm) * 60 + minutes` for the groups of the match at the leftmost position of its cleaned form. |
| TimeUtils.ClockReadingInDay | frontend/src/utils/timeUtils.js:20-27 | Hour 1-12 and minute 0-59 give a value in 0..1439, at least 720 exactly for PM. |
| TimeUtils.CleanTimeUnchanged | frontend/src/utils/timeUtils.js:10 | A text without '*' and without surrounding white space is unchanged by cleaning. |
| TimeUtils.DisplayHour | frontend/src/utils/timeUtils.js:39 | For an hour below 24 the clock-face hour is in 1..12 and agrees with it modulo 12. |
| TimeUtils.MinutesToTimeString | frontend/src/utils/timeUtils.js:35-41 | The text is at least "h:mm AM" long and ends with " PM" exactly from minute 720 on, for any number of minutes, and with " AM" before. |
| TimeUtils.TimeStringShape | frontend/src/utils/timeUtils.js:35-41 | For 0 <= m < 1440 the text is a display hour in 1..12, ':', two minute digits, ' ', and "PM" exactly when m >= 720. |
| TimeUtils.ClockTextMatches | frontend/src/utils/timeUtils.js:10-13 | Such a text is already clean, and the pattern finds its own hour, minute and period in it. |
| TimeUtils.ParseClockText | frontend/src/utils/timeUtils.js:6-28 | A clock text reads as its 24-hour minutes. |
| TimeUtils.DisplayHourBack | frontend/src/utils/timeUtils.js:21-25 | The display hour and period of a minute of the day convert back to its hour. |
| TimeUtils.ParseFormatRoundTrip | frontend/src/utils/timeUtils.js:6-41 | `parseTimeToMinutes(minutesToTimeString(m)) == m` for every 0 <= m < 1440. |
| TimeUtils.ParseMidnight | frontend/src/utils/timeUtils.js:23-24 | "12:00 AM" reads as 0. |
| TimeUtils.ParseNoon | frontend/src/utils/timeUtils.js:21 | "12:00 PM" reads as 720. |
| TimeUtils.ParseAfternoon | frontend/src/utils/timeUtils.js:21-27 | "2:30 PM" reads as 870. |
| TimeUtils.ParseIgnoresMarkersAndCase | frontend/src/utils/timeUtils.js:10-13 | "*10:00am*" reads as 600, the same as "10:00 AM". |
| TimeUtils.ParseNoColon | frontend/src/utils/timeUtils.js:13-14 | Any text without a ':' gives null. |
| TimeUtils.ParseGarbage | frontend/src/utils/timeUtils.js:14 | "garbage" gives null, as an instance of `ParseNoColon`. |
| TimeUtils.ParseDoesNotRangeCheck | frontend/src/utils/timeUtils.js:16-27 | "13:75 PM" reads as 1575: hours and minutes are not range-checked. |
| TimeUtils.ParseEventTimes | frontend/src/utils/timeUtils.js:48-58 | The start is the parsed start. The end is known whenever the start is. A parsed end is kept. A parsed start with an unparsed end gets start + 30. Otherwise the end is the parsed end, which may be null. |
| TimeUtils.EventsOverlap | frontend/src/utils/timeUtils.js:66-71 | The overlap test on two intervals. `OverlapIffSharedMinute` and `OverlapSymmetricAndHalfOpen` state its meaning. |
| TimeUtils.OverlapIffSharedMinute | frontend/src/utils/timeUtils.js:66-71 | For non-empty intervals, overlap means some minute lies in both half-open intervals. |
| TimeUtils.OverlapSymmetricAndHalfOpen | frontend/src/utils/timeUtils.js:66-71 | Overlap is symmetric, and intervals that only touch do not overlap. |
| TimeUtils.Bucket | frontend/src/utils/timeUtils.js:88-93 | A day's bucket holds exactly the events with that weekday, as an order-preserving subsequence of the input. |
| TimeUtils.GroupEventsByWeekday | frontend/src/utils/timeUtils.js:78-96 | The keys are exactly the seven canonical weekdays, even for empty input, and each key holds its bucket. |
| TimeUtils.EmptyGroups | frontend/src/utils/timeUtils.js:82-85 | The keys are exactly the given days, each holding an empty list. |
| TimeUtils.FillGroups | frontend/src/utils/timeUtils.js:87-93 | The keys are unchanged, and each key ends up holding its bucket of the events. |
| Sorting.Insert | frontend/src/utils/timeUtils.js:107 | Inserting adds exactly one element and keeps the multiset. |
| Sorting.SortBy | frontend/src/utils/timeUtils.js:107 | The sort is a permutation of its input. |
| Sorting.SortBySorted | frontend/src/utils/timeUtils.js:107 | The result is in ascending key order. |
| Sorting.SortByStable | frontend/src/utils/timeUtils.js:107 | For every key, the elements with that key come out in their input order. |
| Sorting.SortByTies | frontend/src/utils/timeUtils.js:107 | Any order that the ties of the input respect is respected by the ties of the result. |
| Sorting.PermutationDistinct | frontend/src/utils/timeUtils.js:107 | A permutation of a list without repeats has no repeats. |
| ColumnLayout.FirstFit | frontend/src/utils/timeUtils.js:115-125 | The chosen column is the first one the event fits in, or a new column when it fits in none. |
| ColumnLayout.Layout | frontend/src/utils/timeUtils.js:112-137 | Every event gets exactly one column, and every column is below the column count. |
| ColumnLayout.LayoutPrefix | frontend/src/utils/timeUtils.js:112-132 | Placing a later event never moves an earlier one or removes a column. |
| ColumnLayout.LayoutNoOverlap | frontend/src/utils/timeUtils.js:115-124 | Two different events in the same column never overlap. |
| ColumnLayout.LayoutFirstFit | frontend/src/utils/timeUtils.js:115-131 | Every column left of an event's own column holds an earlier event that overlaps it. |
| ColumnLayout.LayoutColumnsUsed | frontend/src/utils/timeUtils.js:128-136 | Every column below the count holds an event, so `totalColumns` is the number of columns created. |
| ColumnLayout.LayoutEmpty | frontend/src/utils/timeUtils.js:104 | There are no columns exactly when there are no events. |
| ColumnLayout.LayoutExample | frontend/src/utils/timeUtils.js:112-137 | [600,660), [630,690) and [700,730) get columns 0, 1, 0 with two columns. |
| ColumnLayout.TimedSortBy | frontend/src/utils/timeUtils.js:107 | Sorting the event objects by start and then reading their times equals sorting the times. |
| ColumnLayout.MembersOverlap | frontend/src/utils/timeUtils.js:116-117 | `columnEvents.some(overlaps)` holds exactly when the event does not fit the column in the specification. |
| ColumnLayout.CalculateEventColumns | frontend/src/utils/timeUtils.js:103-139 | The result is the stable sort of the objects by start. Each object's `column` is its `Layout` column and its `totalColumns` is the `Layout` count. Nothing outside the given objects changes. |
| ColumnLayout.PlaceAll | frontend/src/utils/timeUtils.js:112-132 | After the loop every object holds its `Layout` column, and the column lists hold each column's members. |
| ColumnLayout.PlaceEvent | frontend/src/utils/timeUtils.js:113-131 | One event is placed in its first-fit column, which is appended when new, and the invariant is kept. |
| ColumnLayout.FirstFreeColumn | frontend/src/utils/timeUtils.js:115-125 | The loop stops at the first column without an overlapping member, or past the last column. |
| ColumnLayout.SetTotalColumns | frontend/src/utils/timeUtils.js:135-137 | Every object gets the same `totalColumns` and keeps its column. |
| FilterUtils.IsEventFree | frontend/src/utils/filterUtils.js:1-5 | No price or an empty price is free. Otherwise the lower-cased price is free when it is "free", contains "included" or is "donation". `FreeIgnoresCase` and the two examples below state its behaviour. |
| FilterUtils.FreeIgnoresCase | frontend/src/utils/filterUtils.js:1-5 | The free/paid verdict is the same for a price and its lower-cased form. |
| FilterUtils.DonationSuggestedIsPaid | frontend/src/utils/filterUtils.js:3-4 | "Donation suggested" is paid. |
| FilterUtils.IncludedIsFree | frontend/src/utils/filterUtils.js:3-4 | A price containing "Included" anywhere is free. |
| FilterUtils.DefaultFilters | frontend/src/utils/filterUtils.js:26-28 | All three default selections are empty. |
| FilterUtils.MatchesActivity | frontend/src/utils/filterUtils.js:11-13 | An empty activity selection passes every event; otherwise the event's type must be selected. |
| FilterUtils.MatchesNeighborhood | frontend/src/utils/filterUtils.js:14-16 | An empty neighbourhood selection passes every event; otherwise the event's neighbourhood must be selected. |
| FilterUtils.MatchesPrice | frontend/src/utils/filterUtils.js:17-21 | An empty price selection passes every event; a selected "free" needs a free event and a selected "paid" a paid one. |
| FilterUtils.Passes | frontend/src/utils/filterUtils.js:10-23 | The three criteria combined with AND. |
| FilterUtils.ApplyFilters | frontend/src/utils/filterUtils.js:7-24 | The result holds exactly the events that pass all three criteria, as an order-preserving subsequence of the input. |
| FilterUtils.ApplyFiltersSnoc | frontend/src/utils/filterUtils.js:10-23 | Filtering a list extended by one event extends the result by that event exactly when it passes. |
| FilterUtils.ApplyFiltersMultiplicity | frontend/src/utils/filterUtils.js:10-23 | A passing event is kept as many times as it occurs in the input; a failing one not at all. |
| FilterUtils.ApplyFiltersKeepsPassing | frontend/src/utils/filterUtils.js:10-23 | When every event passes, the list is returned unchanged. |
| FilterUtils.ApplyFiltersIdempotent | frontend/src/utils/filterUtils.js:10-23 | Filtering twice is filtering once. |
| FilterUtils.DefaultFiltersKeepAll | frontend/src/utils/filterUtils.js:11-16 | The default filters keep every event. |
| FilterUtils.BothPriceTypesKeepNothing | frontend/src/utils/filterUtils.js:17-21 | Selecting both "free" and "paid" keeps no event. |
| FilterUtils.InsertName | frontend/src/utils/filterUtils.js:35 | Adding a name keeps the list strictly ascending, and adds exactly that name. |
| FilterUtils.UniqueNeighborhoods | frontend/src/utils/filterUtils.js:30-36 | The list is strictly ascending and holds exactly the non-empty neighbourhoods of the input. |
| FilterUtils.AscendingDistinct | frontend/src/utils/filterUtils.js:35 | A strictly ascending list has no repeats. |
| FilterUtils.ActivityOnly | frontend/src/utils/filterUtils.js:42-47 | The counts' filter keeps the activity selection and drops the other two. |
| FilterUtils.CountIn | frontend/src/utils/filterUtils.js:50-54 | The number of events in a neighbourhood. `CountInPositive` and `CountIsFilteredSize` state its meaning. |
| FilterUtils.CountInPositive | frontend/src/utils/filterUtils.js:50-54 | A neighbourhood's count is positive exactly when some event is there. |
| FilterUtils.NeighborhoodCounts | frontend/src/utils/filterUtils.js:38-56 | The keys are exactly the non-empty neighbourhoods of the activity-matching events, and each value is the number of such events there. |
| FilterUtils.CountIsFilteredSize | frontend/src/utils/filterUtils.js:38-56 | A neighbourhood's count equals the number of events kept when only that neighbourhood and the same activities are selected. |
| Calendar.WeekdayIndex | frontend/src/components/Calendar.jsx:26 | The index is in 0..6. |
| Calendar.WeekdayIndexBijective | frontend/src/components/Calendar.jsx:26 | Sunday (0) goes to 6 and d to d - 1 otherwise. The mapping is a bijection on 0..6, undone by `JsDayOf`. |
| Calendar.TodayWeekday | frontend/src/components/Calendar.jsx:22-28 | The result is a canonical weekday, and it is the day `getDay` names: entry `jsDay` of Sunday, Monday, …, Saturday. |
| Calendar.TimedOf | frontend/src/components/Calendar.jsx:36-40 | A timed form keeps its event. `TimedOfIffStartParses` says when it exists. |
| Calendar.TimedOfIffStartParses | frontend/src/components/Calendar.jsx:36-40 | An event keeps a place exactly when its start parses. Its end is then never null: it is the parsed end, or the start + 30. |
| Calendar.DayTimed | frontend/src/components/Calendar.jsx:35-40 | A day's timed list is no longer than its bucket and holds only bucket events. |
| Calendar.DayTimedSnoc | frontend/src/components/Calendar.jsx:35-40 | Extending a bucket by one event extends its timed list by that event's timed form exactly when its times are known. |
| Calendar.DayTimedExact | frontend/src/components/Calendar.jsx:35-40 | Every listed event carries its parsed times, and every bucket event whose times parse is listed. |
| Calendar.DayListsOwnDay | frontend/src/components/Calendar.jsx:34-42 | An event never shows under a day other than its own weekday, and comes from the input. |
| Calendar.DayListsTotal | frontend/src/components/Calendar.jsx:34-42 | All day lists together hold at most as many events as the input. |
| Calendar.BucketsTotal | frontend/src/components/Calendar.jsx:34-42 | Over distinct days, the timed lists together hold no more events than lie on those days. |
| Calendar.OnDaysSplit | frontend/src/utils/timeUtils.js:88-93 | The events on the first of distinct days are separate from those on the others. |
| Calendar.LayoutDay | frontend/src/components/Calendar.jsx:35-42 | A day's list is new objects for the bucket's timed events, sorted by start, each holding its `Layout` column and count. |
| Calendar.NewRecords | frontend/src/components/Calendar.jsx:36-39 | One new, distinct object per timed event, in order. |
| Calendar.ProcessEvents | frontend/src/components/Calendar.jsx:30-46 | All seven weekday keys. Each day holds the laid-out timed events of that day's bucket, as new objects. |
| Calendar.LayoutDays | frontend/src/components/Calendar.jsx:34-43 | The loop gives every listed day the layout of its bucket. |
| Calendar.AddDay | frontend/src/components/Calendar.jsx:35-42 | One step sets the day's entry and keeps the other days' entries. |
| Calendar.RecomputeLayout | frontend/src/components/Calendar.jsx:67-77 | An empty event list gives a map with no keys. Otherwise the result is the seven-day layout of the filtered events. |
| Calendar.CountOr0 | frontend/src/components/Calendar.jsx:62-63 | The count of a name in the counts, 0 when it has none, as the comparator reads it. |
| Calendar.FacetKey | frontend/src/components/Calendar.jsx:61-65 | The comparator `countB - countA` as a sort key: the negated count. `FacetOrder` states the order it gives. |
| Calendar.OrderFacets | frontend/src/components/Calendar.jsx:61-65 | The facet order is a permutation of the neighbourhoods. |
| Calendar.FacetOrder | frontend/src/components/Calendar.jsx:61-65 | Descending counts, with ties in ascending name order. Names with count 0 come last. |
| Calendar.NeighborhoodFacets | frontend/src/components/Calendar.jsx:57-65 | Counts come from the selected day's unfiltered events with only the activity filter. The names are that day's neighbourhoods, ordered by those counts. |
| FiltersPanel.Toggle | frontend/src/components/Filters.jsx:13-16 | Toggling flips the value's membership and keeps every other value's membership. An absent value is appended at the end. |
| FiltersPanel.ToggleTwiceRestores | frontend/src/components/Filters.jsx:13-32 | Toggling an absent value twice gives back the original list. |
| FiltersPanel.ToggleTwiceMovesLast | frontend/src/components/Filters.jsx:13-32 | Toggling a present value twice removes its repeats and moves it to the end. |
| FiltersPanel.ToggleActivityType | frontend/src/components/Filters.jsx:13-18 | Only the activity list changes. |
| FiltersPanel.ToggleNeighborhood | frontend/src/components/Filters.jsx:20-25 | Only the neighbourhood list changes. |
| FiltersPanel.TogglePriceType | frontend/src/components/Filters.jsx:27-32 | Only the price list changes. |
| FiltersPanel.HasActiveFilters | frontend/src/components/Filters.jsx:56-58 | Some selection is non-empty. `InactiveIsDefault` and `ToggleActivates` state its meaning. |
| FiltersPanel.InactiveIsDefault | frontend/src/components/Filters.jsx:56-58 | Filters are active exactly when some list is non-empty, that is when they differ from the defaults. Inactive filters keep every event. |
| FiltersPanel.ToggleActivates | frontend/src/components/Filters.jsx:56-58 | Adding a neighbourhood activates the filters. Removing the only selected value deactivates them. |
| FiltersPanel.GetActivityEmoji | frontend/src/components/Filters.jsx:34-46 | A type in the table gets its table emoji. The emoji is never empty, and it is the sparkles exactly for types outside the table. |
| FiltersPanel.EmojiEntries | frontend/src/components/Filters.jsx:35-44 | No table entry is empty or the sparkles. |
| FiltersPanel.EmojisDistinct | frontend/src/components/Filters.jsx:35-44 | The eight emoji are pairwise distinct. |
| FiltersPanel.LegendEmojis | frontend/src/components/Filters.jsx:130-148 | Every activity checkbox of the legend shows its own emoji, and no two show the same one. |
| FiltersPanel.Capitalize | frontend/src/components/Filters.jsx:72 | The first character is upper-cased and the rest is kept. |
| FiltersPanel.PriceValue | frontend/src/components/Filters.jsx:159 | The value a price checkbox stores is its label lower-cased, of the same length. |
| FiltersPanel.PriceValuesRoundTrip | frontend/src/components/Filters.jsx:158-172 | The checkboxes store "free" and "paid". The summary shows them capitalised as "Free" and "Paid". |
| FiltersPanel.FreeCheckboxKeepsFree | frontend/src/components/Filters.jsx:158-172 | Ticking only "Free" keeps exactly the free events. |
| FiltersPanel.ActivityPart | frontend/src/components/Filters.jsx:63-69 | The activity part is never empty. |
| FiltersPanel.PriceLabelsOf | frontend/src/components/Filters.jsx:72 | Each selected price value, capitalised, in order. |
| FiltersPanel.PricePart | frontend/src/components/Filters.jsx:71-74 | The price labels joined by ", ". |
| FiltersPanel.NeighborhoodPart | frontend/src/components/Filters.jsx:76-82 | One selected name as itself, more as "N neighborhoods". |
| FiltersPanel.SummaryParts | frontend/src/components/Filters.jsx:61-82 | At most three parts, in the order activity, price, neighbourhood. `GetFilterSummary` states when each appears. |
| FiltersPanel.GetFilterSummary | frontend/src/components/Filters.jsx:60-85 | The summary is the activity, price and neighbourhood parts, each present exactly when its list is non-empty, joined by " • ". |
| FiltersPanel.JoinNonEmpty | frontend/src/components/Filters.jsx:84 | Non-empty parts join to the empty text only when there are no parts. |
| FiltersPanel.SummaryEmptyIffInactive | frontend/src/components/Filters.jsx:56-85 | With no empty selected value, the summary is empty exactly when no filter is active. |
| FiltersPanel.EmptyNameSummary | frontend/src/components/Filters.jsx:76-79 | A lone empty neighbourhood name is an active filter with an empty summary. |
| FiltersPanel.SummaryExample | frontend/src/components/Filters.jsx:60-85 | Two activities and "free" read "2 activities • Free". |
| FiltersPanel.DropdownOptions | frontend/src/components/Filters.jsx:220-221 | The dropdown holds exactly the given neighbourhoods that are not selected, in the given order. |
| FiltersPanel.PickOption | frontend/src/components/Filters.jsx:220-227 | Picking an option from the dropdown removes exactly that option from it. |
| TimeAxis.FloorHour | frontend/src/components/TimeAxis.jsx:5 | `Math.floor(m / 60)`: the hour whose minute range holds m. |
| TimeAxis.CeilHour | frontend/src/components/TimeAxis.jsx:6 | `Math.ceil(m / 60)`: the first hour at or after m. |
| TimeAxis.AxisMarks | frontend/src/components/TimeAxis.jsx:5-14 | The hour marks as a value. `AxisMarksExact` states which they are. |
| TimeAxis.HourMarks | frontend/src/components/TimeAxis.jsx:5-14 | The loop produces exactly the whole hours from the first at or after the start to the last at or before the end. |
| TimeAxis.AxisMarksExact | frontend/src/components/TimeAxis.jsx:9-13 | Every mark is a multiple of 60 within [start, end]. The marks are strictly ascending, and every multiple of 60 in the range is a mark. |
| TimeAxis.CalendarRangeMarks | frontend/src/components/TimeAxis.jsx:5-14 | For 525..1080 the marks are 540, 600, …, 1080: ten marks. |
| ColorUtils.GetActivityColors | frontend/src/utils/colorUtils.js:6-76 | A listed type gets its table entry. The result is the gray default exactly for an absent or unlisted type. |
| ColorUtils.TableEntriesNotDefault | frontend/src/utils/colorUtils.js:7-73 | No table entry is the default. |
| ColorUtils.BordersDistinct | frontend/src/utils/colorUtils.js:7-64 | The eight border colours are pairwise distinct. |
| ColorUtils.GetActivityTypesForLegend | frontend/src/utils/colorUtils.js:78-90 | Eight entries in the fixed order, each with `getActivityColors(type)`, never the default. |

## Left out

- **I/O and React.**
  - Not modelled: the `fetch` of the event list, loading and error state, React state and
    effects (beyond the recomputation they run), the document click listener, and every
    rendering detail.
  - The clock is a parameter: `TodayWeekday` takes the `getDay` value that `new Date()`
    would give.
- **Event-block geometry.** The percentage widths and offsets are floating point and are
  not modelled. Neither is the block's truthiness test that hides events starting at
  minute 0.
- **Absent lists.** Lists are never absent in the model. The source does not treat an
  absent list like an empty one: `groupEventsByWeekday(undefined)` throws at
  `events.forEach` (frontend/src/utils/timeUtils.js:88), and `applyFilters(undefined, f)`
  returns `undefined` (frontend/src/utils/filterUtils.js:8). The only caller passes neither:
  the effect returns early when the event list is absent or empty
  (frontend/src/components/Calendar.jsx:68-70).
- **Object-prototype keys.** Not modelled: a weekday, activity type or neighbourhood named
  like an `Object.prototype` member (`"toString"`, `"__proto__"`), which the JavaScript
  object lookups would misread. A weekday is canonical or not, and a type is in the table
  or not.
- **String order.** The default string sort compares UTF-16 code units, but `LexLess`
  compares code points. The two differ only between characters above U+FFFF and characters
  in U+E000..U+FFFF.
- **Case mapping.** `toLowerCase`, `toUpperCase` and the regular expression's `/i` are
  modelled on ASCII letters only.
  - For the `/i` match of "AM"/"PM" this is exact.
  - For the price text and for `Capitalize`, a non-ASCII letter keeps its case in the model.
- **Column-search loop.** The `for` loop with its `placed` flag and `break` is modelled as
  `FirstFreeColumn`, which finds the index, followed by `PlaceEvent`, which pushes. The
  visible effect is the same.
- **Integer widths.** The numbers of JavaScript are doubles. All values here are small
  integers, so they are modelled as unbounded integers.
- ColumnLayout.CalculateEventColumns: requires the given objects to be pairwise distinct.
  - `processEvents` always passes distinct, newly made objects, and `NewRecords` proves it.
  - If the same object were passed twice, the JavaScript would write its later column over
    its earlier one. That aliasing is not modelled.
- ColumnLayout.CalEvent.constructor: a new record starts with `column` and `totalColumns`
  at 0. In JavaScript the spread copy has no such properties until the layout writes them.
- TimeUtils.MatchAt: its own contract states only the bounds of the groups. What it reads
  is stated by `MatchAtIff`, kept as a lemma because as a postcondition it would be unfolded
  at every step of the search.
- TimeUtils.ParseTimeToMinutes: its own contract covers only the absent or empty text. The
  reading of any other text is stated by `ParseTimeNone` and `ParseTimeLeftmost`.
- FiltersPanel.SummaryEmptyIffInactive: requires that no selected value is the empty string.
  `EmptyNameSummary` shows that without this, an active filter can have an empty summary.
  The panel only ever selects the non-empty values it offers.
- FiltersPanel.GetActivityEmoji: the emoji are compared only for equality. The stroller walk's
  emoji is the four code points of the source text.
