/** The hour marks drawn along the time axis of the calendar. */
module TimeAxis {

  /** `Math.floor(m / 60)`; Dafny's division by a positive divisor already rounds down. */
  function FloorHour(m: int): (h: int)
    ensures h * 60 <= m < h * 60 + 60
  {
    m / 60
  }

  /** `Math.ceil(m / 60)`. */
  function CeilHour(m: int): (h: int)
    ensures h * 60 - 60 < m <= h * 60
  {
    -((-m) / 60)
  }

  /** The minutes of the whole hours `lo`, `lo + 1`, …, `hi - 1`. */
  function HoursBetween(lo: int, hi: int): (r: seq<int>)
    ensures |r| == if hi <= lo then 0 else hi - lo
  {
    if hi <= lo then [] else seq(hi - lo, i requires 0 <= i < hi - lo => (lo + i) * 60)
  }

  /** The marks between `startMinutes` and `endMinutes`: every whole hour from the first at
      or after the start up to the last at or before the end. */
  function AxisMarks(startMinutes: int, endMinutes: int): seq<int>
  {
    HoursBetween(CeilHour(startMinutes), FloorHour(endMinutes) + 1)
  }

  /** The hour loop of `TimeAxis`: each hour from the floor of the start to the ceiling of
      the end, kept when its minute lies within the range. */
  method HourMarks(startMinutes: int, endMinutes: int) returns (hours: seq<int>)
    ensures hours == AxisMarks(startMinutes, endMinutes)
  {
    var startHour := FloorHour(startMinutes);
    var endHour := CeilHour(endMinutes);
    ghost var first, last := CeilHour(startMinutes), FloorHour(endMinutes);
    hours := [];
    var hour := startHour;
    while hour <= endHour
      invariant startHour <= hour <= endHour + 1 || (endHour < startHour && hour == startHour)
      invariant hours == HoursBetween(first, if hour <= last + 1 then hour else last + 1)
      decreases endHour - hour
    {
      var hourMinutes := hour * 60;
      if hourMinutes >= startMinutes && hourMinutes <= endMinutes {
        assert first <= hour <= last;
        assert HoursBetween(first, hour + 1) == HoursBetween(first, hour) + [hourMinutes];
        hours := hours + [hourMinutes];
      }
      hour := hour + 1;
    }
  }

  /** Every mark is a whole hour within the range; the marks are strictly ascending; and
      every whole hour within the range is a mark. */
  lemma AxisMarksExact(startMinutes: int, endMinutes: int)
    ensures var r := AxisMarks(startMinutes, endMinutes);
      (forall i :: 0 <= i < |r| ==> r[i] % 60 == 0 && startMinutes <= r[i] <= endMinutes) &&
      (forall i, j :: 0 <= i < j < |r| ==> r[i] < r[j]) &&
      (forall m :: startMinutes <= m <= endMinutes && m % 60 == 0 ==> m in r)
  {
    var r := AxisMarks(startMinutes, endMinutes);
    var first := CeilHour(startMinutes);
    forall m | startMinutes <= m <= endMinutes && m % 60 == 0 ensures m in r {
      var h := m / 60;
      assert h * 60 == m;
      assert first <= h <= FloorHour(endMinutes);
      assert r[h - first] == m;
    }
  }

  /** The calendar's range, 8:45 AM to 6:00 PM, is marked at 9 AM, 10 AM, …, 6 PM. */
  lemma CalendarRangeMarks()
    ensures AxisMarks(525, 1080) == seq(10, i requires 0 <= i < 10 => 540 + 60 * i)
  {
    assert CeilHour(525) == 9 && FloorHour(1080) == 18;
  }
}
