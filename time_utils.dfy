/** Time parsing and formatting, the 30-minute default duration, interval overlap and
    grouping by weekday (frontend/src/utils/timeUtils.js). */
module TimeUtils {
  import opened Wrappers
  import opened Text
  import opened Seqs
  import opened Events

  // ---------------------------------------------------------------------------
  // Parsing "H:MM AM/PM"
  // ---------------------------------------------------------------------------

  /** The three groups of one match of `(\d{1,2}):(\d{2})\s*(AM|PM)` (case-insensitive). */
  datatype ClockMatch = ClockMatch(hours: nat, minutes: nat, pm: bool)

  /** First index at or after `q` that is not white space. */
  function SkipSpaces(s: string, q: nat): (r: nat)
    requires q <= |s|
    ensures q <= r <= |s|
    ensures forall i :: q <= i < r ==> IsJsSpace(s[i])
    ensures r == |s| || !IsJsSpace(s[r])
    decreases |s| - q
  {
    if q < |s| && IsJsSpace(s[q]) then SkipSpaces(s, q + 1) else q
  }

  /** The `\d{1,2}` hour group can be `n` characters long at `p`: `n` digits, then ':'. */
  predicate HourGroupAt(s: string, p: nat, n: nat)
  {
    1 <= n <= 2 && p + n < |s| && s[p + n] == ':' && forall i :: p <= i < p + n ==> IsDigit(s[i])
  }

  /** Length of the `\d{1,2}` hour group of a match starting at `p` (0 when none fits).
      A two-digit hour is tried first; backtracking to one digit needs a ':' where the
      second digit stood, so at most one length succeeds. */
  function HourDigitsAt(s: string, p: nat): (n: nat)
    ensures n <= 2
    ensures n > 0 ==> p + n < |s| && s[p + n] == ':' && forall i :: p <= i < p + n ==> IsDigit(s[i])
    ensures forall k :: HourGroupAt(s, p, k) <==> 0 < n == k
  {
    if p + 2 < |s| && IsDigit(s[p]) && IsDigit(s[p + 1]) && s[p + 2] == ':' then 2
    else if p + 1 < |s| && IsDigit(s[p]) && s[p + 1] == ':' then 1
    else 0
  }

  /** The `\d{2}` minute group fits at `i`. */
  predicate TwoDigitsAt(s: string, i: nat)
  {
    i + 1 < |s| && IsDigit(s[i]) && IsDigit(s[i + 1])
  }

  function TwoDigitValue(s: string, i: nat): (v: nat)
    requires TwoDigitsAt(s, i)
    ensures v < 100
  {
    10 * DigitValue(s[i]) + DigitValue(s[i + 1])
  }

  /** The `(AM|PM)` group, case-insensitive, at `q`: `Some(true)` for PM. */
  function PeriodAt(s: string, q: nat): (r: Option<bool>)
    ensures r.Some? <==> q + 1 < |s| && s[q] in "aApP" && s[q + 1] in "mM"
    ensures r.Some? ==> (r.value <==> s[q] in "pP")
  {
    if q + 1 < |s| && ToUpperChar(s[q]) in {'A', 'P'} && ToUpperChar(s[q + 1]) == 'M'
    then Some(ToUpperChar(s[q]) == 'P')
    else None
  }

  /** The clock pattern matches at `p` with an hour group of `n` characters and the period
      at `q`, and its groups read `c`: the hour digits, ':', two minute digits, nothing but
      white space up to `q`, then "AM" or "PM" in any case. */
  predicate ClockSpan(s: string, p: nat, n: nat, q: nat, c: ClockMatch)
  {
    HourGroupAt(s, p, n) && p + n + 3 <= q && q + 1 < |s| &&
    IsDigit(s[p + n + 1]) && IsDigit(s[p + n + 2]) &&
    (forall i :: p + n + 3 <= i < q ==> IsJsSpace(s[i])) &&
    s[q] in "aApP" && s[q + 1] in "mM" &&
    c == ClockMatch(DecimalValue(s[p..p + n]), DecimalValue(s[p + n + 1..p + n + 3]), s[q] in "pP")
  }

  /** The clock pattern matches at `p` and its groups read `c`. */
  predicate ClockAt(s: string, p: nat, c: ClockMatch)
  {
    exists n: nat, q: nat :: n <= 2 && q < |s| && ClockSpan(s, p, n, q, c)
  }

  /** The match of the clock pattern that starts exactly at index `p`, if any. The `\s*`
      between minutes and period is greedy, and giving back a space would leave a space
      where 'A' or 'P' is needed, so skipping all white space is the only candidate. */
  function MatchAt(s: string, p: nat): (m: Option<ClockMatch>)
    requires p <= |s|
    ensures m.Some? ==> m.value.hours < 100 && m.value.minutes < 100
  {
    var n := HourDigitsAt(s, p);
    if n == 0 || !TwoDigitsAt(s, p + n + 1) then None
    else
      match PeriodAt(s, SkipSpaces(s, p + n + 3))
      case None => None
      case Some(pm) =>
        Some(ClockMatch(if n == 2 then TwoDigitValue(s, p) else DigitValue(s[p]), TwoDigitValue(s, p + n + 1), pm))
  }

  lemma DigitSliceValue(s: string, i: nat)
    requires i < |s| && IsDigit(s[i])
    ensures DecimalValue(s[i..i + 1]) == DigitValue(s[i])
  {
    assert s[i..i + 1][..0] == [];
  }

  lemma DigitPairSliceValue(s: string, i: nat)
    requires TwoDigitsAt(s, i)
    ensures DecimalValue(s[i..i + 2]) == TwoDigitValue(s, i)
  {
    assert s[i..i + 2][..1] == s[i..i + 1];
    DigitSliceValue(s, i);
  }

  /** White space from `q0` up to a non-space at `q` is exactly what `SkipSpaces` skips. */
  lemma SkipSpacesTo(s: string, q0: nat, q: nat)
    requires q0 <= q < |s| && !IsJsSpace(s[q])
    requires forall i :: q0 <= i < q ==> IsJsSpace(s[i])
    ensures SkipSpaces(s, q0) == q
  {
  }

  /** A match `MatchAt` reports is a match of the pattern with those groups. */
  lemma MatchAtSound(s: string, p: nat)
    requires p <= |s| && MatchAt(s, p).Some?
    ensures ClockAt(s, p, MatchAt(s, p).value)
  {
    var n := HourDigitsAt(s, p);
    var q := SkipSpaces(s, p + n + 3);
    if n == 2 { DigitPairSliceValue(s, p); } else { DigitSliceValue(s, p); }
    DigitPairSliceValue(s, p + n + 1);
    assert ClockSpan(s, p, n, q, MatchAt(s, p).value);
  }

  /** A match of the pattern with groups `c` at `p` is what `MatchAt` reports there. */
  lemma MatchAtComplete(s: string, p: nat, n: nat, q: nat, c: ClockMatch)
    requires p <= |s| && ClockSpan(s, p, n, q, c)
    ensures MatchAt(s, p) == Some(c)
  {
    assert HourDigitsAt(s, p) == n;
    assert TwoDigitsAt(s, p + n + 1);
    assert !IsJsSpace(s[q]) by {
      assert s[q] == 'a' || s[q] == 'A' || s[q] == 'p' || s[q] == 'P';
    }
    SkipSpacesTo(s, p + n + 3, q);
    assert PeriodAt(s, q) == Some(c.pm);
    assert (if n == 2 then TwoDigitValue(s, p) else DigitValue(s[p])) == c.hours by {
      if n == 2 { DigitPairSliceValue(s, p); } else { DigitSliceValue(s, p); }
    }
    assert TwoDigitValue(s, p + n + 1) == c.minutes by {
      DigitPairSliceValue(s, p + n + 1);
    }
  }

  /** `MatchAt` is exact: it reads `c` at `p` precisely when the pattern matches there with
      groups `c`. */
  lemma MatchAtIff(s: string, p: nat, c: ClockMatch)
    requires p <= |s|
    ensures MatchAt(s, p) == Some(c) <==> ClockAt(s, p, c)
  {
    if MatchAt(s, p) == Some(c) {
      MatchAtSound(s, p);
    }
    if ClockAt(s, p, c) {
      var n: nat, q: nat :| n <= 2 && q < |s| && ClockSpan(s, p, n, q, c);
      MatchAtComplete(s, p, n, q, c);
    }
  }

  /** `String#match` without the global flag: the leftmost match at or after `p`. */
  function FindClock(s: string, p: nat): (m: Option<ClockMatch>)
    requires p <= |s|
    decreases |s| - p
  {
    if p == |s| then None
    else if MatchAt(s, p).Some? then MatchAt(s, p)
    else FindClock(s, p + 1)
  }

  /** The search finds nothing exactly when the pattern matches at no position from `p`
      on. */
  lemma {:induction false} FindClockNone(s: string, p: nat)
    requires p <= |s|
    ensures FindClock(s, p).None? <==> forall i :: p <= i < |s| ==> MatchAt(s, i).None?
    decreases |s| - p
  {
    if p < |s| && MatchAt(s, p).None? {
      FindClockNone(s, p + 1);
    }
  }

  /** Otherwise the search finds the match at the leftmost position where the pattern
      matches. */
  lemma {:induction false} FindClockLeftmost(s: string, p: nat)
    requires p <= |s|
    ensures forall i :: p <= i < |s| && MatchAt(s, i).Some? && (forall j :: p <= j < i ==> MatchAt(s, j).None?) ==>
      FindClock(s, p) == MatchAt(s, i)
    decreases |s| - p
  {
    if p < |s| && MatchAt(s, p).None? {
      FindClockLeftmost(s, p + 1);
      forall i | p <= i < |s| && MatchAt(s, i).Some? && (forall j :: p <= j < i ==> MatchAt(s, j).None?)
        ensures FindClock(s, p) == MatchAt(s, i)
      {
        assert p + 1 <= i;
      }
    }
  }

  /** 12-hour clock to 24-hour clock: 12 AM is hour 0, 12 PM stays 12, other PM hours
      gain 12. The hour is not range-checked. */
  function To24Hour(hours: nat, pm: bool): (h: nat)
    ensures hours != 12 ==> h == hours + (if pm then 12 else 0)
    ensures hours == 12 ==> h == (if pm then 12 else 0)
    ensures 1 <= hours <= 12 ==> h < 24 && (h >= 12 <==> pm)
    ensures 1 <= hours <= 12 ==> h % 12 == hours % 12
  {
    if pm && hours != 12 then hours + 12
    else if !pm && hours == 12 then 0
    else hours
  }

  /** Removal of every asterisk followed by `trim`: no '*' is left, no white space
      surrounds the text, and nothing new appears in it. */
  function CleanTime(timeStr: string): (r: string)
    ensures '*' !in r
    ensures r == [] || (!IsJsSpace(r[0]) && !IsJsSpace(r[|r| - 1]))
    ensures forall x :: x in r ==> x in timeStr
  {
    RemoveAllElements(timeStr, '*');
    Trim(RemoveAll(timeStr, '*'))
  }

  /** `parseTimeToMinutes`: `None` for an absent or empty string, or when no clock
      pattern occurs after removing '*' and trimming. */
  function ParseTimeToMinutes(timeStr: Option<string>): (r: Option<nat>)
    ensures timeStr == None || timeStr == Some("") ==> r == None
  {
    if timeStr.None? || timeStr.value == "" then None
    else
      match FindClock(CleanTime(timeStr.value), 0)
      case None => None
      case Some(m) => Some(To24Hour(m.hours, m.pm) * 60 + m.minutes)
  }

  /** A non-empty text reads as null exactly when the clock pattern matches nowhere in its
      cleaned form. */
  lemma ParseTimeNone(t: string)
    requires t != ""
    ensures var s := CleanTime(t);
      ParseTimeToMinutes(Some(t)).None? <==> forall i :: 0 <= i < |s| ==> MatchAt(s, i).None?
  {
    FindClockNone(CleanTime(t), 0);
  }

  /** Otherwise it reads as the 24-hour minutes of the leftmost match (`MatchAtIff` says
      what a match at a position is). */
  lemma ParseTimeLeftmost(t: string, i: nat)
    requires t != ""
    requires var s := CleanTime(t);
      i < |s| && MatchAt(s, i).Some? && forall j :: 0 <= j < i ==> MatchAt(s, j).None?
    ensures var c := MatchAt(CleanTime(t), i).value;
      ReadsAs(t, To24Hour(c.hours, c.pm) * 60 + c.minutes)
  {
    var s := CleanTime(t);
    FindClockLeftmost(s, 0);
    ReadsFound(t, MatchAt(s, i).value);
  }

  lemma ReadsFound(t: string, c: ClockMatch)
    requires t != "" && FindClock(CleanTime(t), 0) == Some(c)
    ensures ReadsAs(t, To24Hour(c.hours, c.pm) * 60 + c.minutes)
  {
  }

  /** A well-formed clock reading (hour 1-12, minute 0-59) always lands in one day, in the
      afternoon half exactly when it is PM. */
  lemma ClockReadingInDay(hours: nat, minutes: nat, pm: bool)
    requires 1 <= hours <= 12 && minutes < 60
    ensures 0 <= To24Hour(hours, pm) * 60 + minutes < 1440
    ensures To24Hour(hours, pm) * 60 + minutes >= 720 <==> pm
  {
  }

  /** Text without '*' and without surrounding white space is already clean. */
  lemma CleanTimeUnchanged(s: string)
    requires '*' !in s
    requires s != [] && !IsJsSpace(s[0]) && !IsJsSpace(s[|s| - 1])
    ensures CleanTime(s) == s
  {
    assert RemoveAll(s, '*') == s;
    assert TrimStart(s) == s;
  }

  // ---------------------------------------------------------------------------
  // Formatting
  // ---------------------------------------------------------------------------

  /** Hour of the 12-hour clock face for a 24-hour hour. */
  function DisplayHour(hours: nat): (h: nat)
    ensures hours < 24 ==> 1 <= h <= 12 && h % 12 == hours % 12
  {
    if hours > 12 then hours - 12 else if hours == 0 then 12 else hours
  }

  /** `minutesToTimeString` on non-negative minutes: at least "h:mm AM", and the period
      is PM exactly from noon (minute 720) on, past the end of the day too. */
  function MinutesToTimeString(minutes: nat): (r: string)
    ensures |r| >= 7
    ensures r[|r| - 3..] == " " + if minutes >= 720 then "PM" else "AM"
  {
    var hours := minutes / 60;
    var mins := minutes % 60;
    var period := if hours >= 12 then "PM" else "AM";
    var hh, mm := NatToString(DisplayHour(hours)), PadStart(NatToString(mins), 2, '0');
    AfternoonFromNoon(minutes);
    PeriodLast(hh, mm, period);
    hh + ":" + mm + (" " + period)
  }

  /** A text "h:mm" followed by a space and a two-letter period ends with them. */
  lemma PeriodLast(hh: string, mm: string, period: string)
    requires |hh| >= 1 && |mm| >= 2 && |period| == 2
    ensures var r := hh + ":" + mm + (" " + period); |r| >= 7 && r[|r| - 3..] == " " + period
  {
    AppendSuffix(hh + ":" + mm, " " + period);
  }

  /** The text "h:mm AM" / "h:mm PM" for a clock-face hour and a minute. */
  function ClockText(h: nat, mins: nat, pm: bool): string
    requires mins < 100
  {
    NatToString(h) + ":" + [DigitChar(mins / 10), DigitChar(mins % 10)] + (" " + if pm then "PM" else "AM")
  }

  /** The hour is at least 12 exactly from minute 720 on. */
  lemma AfternoonFromNoon(m: nat)
    ensures m / 60 >= 12 <==> m >= 720
  {
  }

  /** The hour of a minute of the day is below 24, and at least 12 exactly from noon on. */
  lemma HourOfMinute(m: nat)
    requires m < 1440
    ensures m / 60 < 24 && (m / 60 >= 12 <==> m >= 720)
  {
  }

  /** Within one day the text is the display hour 1-12, a colon, two minute digits, a
      space and "PM" exactly from noon on. */
  lemma TimeStringShape(m: nat)
    requires m < 1440
    ensures 1 <= DisplayHour(m / 60) <= 12
    ensures MinutesToTimeString(m) == ClockText(DisplayHour(m / 60), m % 60, m >= 720)
  {
    var hours, mins := m / 60, m % 60;
    assert hours < 24 && (hours >= 12 <==> m >= 720) by {
      HourOfMinute(m);
    }
    assert PadStart(NatToString(mins), 2, '0') == [DigitChar(mins / 10), DigitChar(mins % 10)] by {
      TwoDigits(mins);
    }
  }

  /** A clock text parses back to its own hour, minute and period. */
  lemma {:induction false} ClockTextMatches(h: nat, mins: nat, pm: bool)
    requires h < 100 && mins < 100
    ensures CleanTime(ClockText(h, mins, pm)) == ClockText(h, mins, pm)
    ensures FindClock(ClockText(h, mins, pm), 0) == Some(ClockMatch(h, mins, pm))
  {
    var s := ClockText(h, mins, pm);
    if h < 10 {
      OneDigitClockMatch(h, mins, pm);
    } else {
      TwoDigitClockMatch(h, mins, pm);
    }
    CleanTimeUnchanged(s);
  }

  lemma OneDigitClockMatch(h: nat, mins: nat, pm: bool)
    requires h < 10 && mins < 100
    ensures MatchAt(ClockText(h, mins, pm), 0) == Some(ClockMatch(h, mins, pm))
    ensures '*' !in ClockText(h, mins, pm)
  {
    var s := ClockText(h, mins, pm);
    var a := if pm then 'P' else 'A';
    var d, lo, hi := DigitChar(h), DigitChar(mins / 10), DigitChar(mins % 10);
    assert NatToString(h) == [d];
    assert s == [d, ':', lo, hi, ' ', a, 'M'];
    assert HourDigitsAt(s, 0) == 1;
    assert TwoDigitsAt(s, 2) && TwoDigitValue(s, 2) == mins;
    assert SkipSpaces(s, 4) == 5;
    assert PeriodAt(s, 5) == Some(pm);
  }

  lemma TwoDigitClockMatch(h: nat, mins: nat, pm: bool)
    requires 10 <= h < 100 && mins < 100
    ensures MatchAt(ClockText(h, mins, pm), 0) == Some(ClockMatch(h, mins, pm))
    ensures '*' !in ClockText(h, mins, pm)
  {
    var s := ClockText(h, mins, pm);
    var a := if pm then 'P' else 'A';
    var d1, d0 := DigitChar(h / 10), DigitChar(h % 10);
    var lo, hi := DigitChar(mins / 10), DigitChar(mins % 10);
    assert NatToString(h / 10) == [d1];
    assert NatToString(h) == [d1, d0];
    assert s == [d1, d0, ':', lo, hi, ' ', a, 'M'];
    assert HourDigitsAt(s, 0) == 2;
    assert TwoDigitValue(s, 0) == h;
    assert TwoDigitsAt(s, 3) && TwoDigitValue(s, 3) == mins;
    assert SkipSpaces(s, 5) == 6;
    assert PeriodAt(s, 6) == Some(pm);
  }

  /** A clock text reads as its 24-hour minutes. */
  lemma ParseClockText(h: nat, mins: nat, pm: bool)
    requires h < 100 && mins < 100
    ensures ReadsAs(ClockText(h, mins, pm), To24Hour(h, pm) * 60 + mins)
  {
    var s := ClockText(h, mins, pm);
    ClockTextMatches(h, mins, pm);
    assert s[|NatToString(h)|] == ':';
  }

  /** Display hour and period of a minute of the day convert back to its hour. */
  lemma DisplayHourBack(m: nat)
    requires m < 1440
    ensures To24Hour(DisplayHour(m / 60), m >= 720) * 60 + m % 60 == m
  {
    assert To24Hour(DisplayHour(m / 60), m >= 720) == m / 60;
  }

  /** Parsing a formatted time gives the minutes back, for every minute of the day. */
  lemma ParseFormatRoundTrip(m: nat)
    requires m < 1440
    ensures ReadsAs(MinutesToTimeString(m), m)
  {
    TimeStringShape(m);
    ParseClockText(DisplayHour(m / 60), m % 60, m >= 720);
    DisplayHourBack(m);
  }

  /** `t` reads as exactly `m` minutes. */
  predicate ReadsAs(t: string, m: nat)
  {
    var r := ParseTimeToMinutes(Some(t));
    r.Some? && r.value == m
  }

  /** Midnight reads as minute 0. */
  lemma ParseMidnight(t: string)
    requires t == "12:00 AM"
    ensures ReadsAs(t, 0)
  {
    MidnightText(t);
    ParseClockText(12, 0, false);
  }

  lemma MidnightText(t: string)
    requires t == "12:00 AM"
    ensures ClockText(12, 0, false) == t
  {
    TwoDigitText(12);
  }

  lemma NoonText(t: string)
    requires t == "12:00 PM"
    ensures ClockText(12, 0, true) == t
  {
    TwoDigitText(12);
  }

  lemma AfternoonText(t: string)
    requires t == "2:30 PM"
    ensures ClockText(2, 30, true) == t
  {
  }

  lemma OutOfRangeText(t: string)
    requires t == "13:75 PM"
    ensures ClockText(13, 75, true) == t
  {
    TwoDigitText(13);
  }

  /** Noon reads as minute 720. */
  lemma ParseNoon(t: string)
    requires t == "12:00 PM"
    ensures ReadsAs(t, 720)
  {
    NoonText(t);
    ParseClockText(12, 0, true);
  }

  /** "2:30 PM" reads as minute 870. */
  lemma ParseAfternoon(t: string)
    requires t == "2:30 PM"
    ensures ReadsAs(t, 870)
  {
    AfternoonText(t);
    ParseClockText(2, 30, true);
  }

  lemma MarkersRemoved(t: string, s: string)
    requires t == "*10:00am*" && s == t[1..|t| - 1]
    ensures CleanTime(t) == s
  {
    assert RemoveAll(t, '*') == s by { StarsDropped(t, s); }
    CleanTimeUnchanged(s);
  }

  lemma StarsDropped(t: string, s: string)
    requires |t| >= 2 && t[0] == '*' && t[|t| - 1] == '*' && s == t[1..|t| - 1] && '*' !in s
    ensures RemoveAll(t, '*') == s
  {
    var star: string := ['*'];
    assert t == star + s + star;
    calc {
      RemoveAll(t, '*');
      { RemoveAllAppend(star + s, star, '*'); }
      RemoveAll(star + s, '*') + RemoveAll(star, '*');
      { RemoveAllAppend(star, s, '*'); }
      RemoveAll(star, '*') + RemoveAll(s, '*') + RemoveAll(star, '*');
    }
  }

  lemma LowerCaseClock(s: string)
    requires s == "10:00am"
    ensures FindClock(s, 0) == Some(ClockMatch(10, 0, false))
  {
    assert HourDigitsAt(s, 0) == 2;
    assert SkipSpaces(s, 5) == 5;
    assert PeriodAt(s, 5) == Some(false);
  }

  /** Asterisks are ignored and the period is case-insensitive: "*10:00am*" reads as 600. */
  lemma ParseIgnoresMarkersAndCase(t: string)
    requires t == "*10:00am*"
    ensures ReadsAs(t, 600)
  {
    var s := t[1..|t| - 1];
    MarkersRemoved(t, s);
    LowerCaseClock(s);
  }

  /** Without a ':' the pattern matches at no position: the hour group needs one. */
  lemma NoColonNoMatch(s: string, i: nat)
    requires ':' !in s && i <= |s|
    ensures MatchAt(s, i).None?
  {
    if i + 1 < |s| { assert s[i + 1] in s; }
    if i + 2 < |s| { assert s[i + 2] in s; }
    assert HourDigitsAt(s, i) == 0;
  }

  /** A text with no ':' in it never reads as a time. */
  lemma ParseNoColon(t: string)
    requires ':' !in t
    ensures ParseTimeToMinutes(Some(t)).None?
  {
    if t != "" {
      var s := CleanTime(t);
      assert ':' !in s;
      forall i | 0 <= i < |s| ensures MatchAt(s, i).None? {
        NoColonNoMatch(s, i);
      }
      ParseTimeNone(t);
    }
  }

  /** "garbage" does not read as a time. */
  lemma ParseGarbage(t: string)
    requires t == "garbage"
    ensures ParseTimeToMinutes(Some(t)).None?
  {
    ParseNoColon(t);
  }

  /** Hours and minutes are not range-checked: "13:75 PM" reads as 25 hours and 75 minutes. */
  lemma ParseDoesNotRangeCheck(t: string)
    requires t == "13:75 PM"
    ensures ReadsAs(t, 1575)
  {
    OutOfRangeText(t);
    ParseClockText(13, 75, true);
  }

  /** The decimal text of a two-digit number is its two digits. */
  lemma TwoDigitText(n: nat)
    requires 10 <= n < 100
    ensures NatToString(n) == [DigitChar(n / 10), DigitChar(n % 10)]
  {
    assert NatToString(n / 10) == [DigitChar(n / 10)];
  }

  // ---------------------------------------------------------------------------
  // Event times and overlap
  // ---------------------------------------------------------------------------

  /** The pair `{ startMinutes, endMinutes }`; either may be null. */
  datatype EventTimes = EventTimes(startMinutes: Option<nat>, endMinutes: Option<nat>)

  /** `parseEventTimes`: both fields parsed independently, then a parsed start with an
      unparsed end gets a 30-minute duration. */
  function ParseEventTimes(e: RawEvent): (t: EventTimes)
    ensures t.startMinutes == ParseTimeToMinutes(e.startTime)
    ensures t.startMinutes.Some? ==> t.endMinutes.Some?
    ensures t.endMinutes.Some? <==> t.startMinutes.Some? || ParseTimeToMinutes(e.endTime).Some?
    ensures ParseTimeToMinutes(e.endTime).Some? ==> t.endMinutes == ParseTimeToMinutes(e.endTime)
    ensures t.startMinutes.Some? && ParseTimeToMinutes(e.endTime).None? ==>
              t.endMinutes.Some? && t.endMinutes.value == t.startMinutes.value + 30
  {
    var startMinutes := ParseTimeToMinutes(e.startTime);
    var endMinutes := ParseTimeToMinutes(e.endTime);
    if startMinutes.Some? && endMinutes.None? then EventTimes(startMinutes, Some(startMinutes.value + 30))
    else EventTimes(startMinutes, endMinutes)
  }

  /** `eventsOverlap`: the half-open intervals [start, end) intersect. */
  predicate EventsOverlap(a: TimedEvent, b: TimedEvent)
  {
    !(a.endMinutes <= b.startMinutes || b.endMinutes <= a.startMinutes)
  }

  /** Minute `t` lies in the half-open interval [start, end) of `e`. */
  predicate InInterval(t: int, e: TimedEvent)
  {
    e.startMinutes <= t < e.endMinutes
  }

  /** For intervals that are not empty, overlap means some minute lies in both. */
  lemma OverlapIffSharedMinute(a: TimedEvent, b: TimedEvent)
    requires a.startMinutes < a.endMinutes && b.startMinutes < b.endMinutes
    ensures EventsOverlap(a, b) <==> exists t :: InInterval(t, a) && InInterval(t, b)
  {
    if EventsOverlap(a, b) {
      var t := if a.startMinutes < b.startMinutes then b.startMinutes else a.startMinutes;
      assert InInterval(t, a) && InInterval(t, b);
    }
  }

  /** Overlap is symmetric, and intervals that only touch do not overlap. */
  lemma OverlapSymmetricAndHalfOpen(a: TimedEvent, b: TimedEvent)
    ensures EventsOverlap(a, b) == EventsOverlap(b, a)
    ensures a.endMinutes == b.startMinutes ==> !EventsOverlap(a, b)
  {
  }

  // ---------------------------------------------------------------------------
  // Grouping by weekday
  // ---------------------------------------------------------------------------

  /** The events whose weekday is `day`, in input order. */
  function Bucket(events: seq<RawEvent>, day: string): (b: seq<RawEvent>)
    ensures forall e :: e in b ==> e.weekday == Some(day)
    ensures forall e :: e in events && e.weekday == Some(day) ==> e in b
    ensures IsSubsequence(b, events)
  {
    if events == [] then []
    else
      var last := events[|events| - 1];
      var b0 := Bucket(events[..|events| - 1], day);
      SubsequenceSnoc(b0, events[..|events| - 1], last, last.weekday == Some(day));
      assert events[..|events| - 1] + [last] == events;
      if last.weekday == Some(day) then b0 + [last] else b0
  }

  /** `groupEventsByWeekday`: all seven canonical keys, each holding its bucket; events
      with an absent or non-canonical weekday land nowhere. */
  method GroupEventsByWeekday(events: seq<RawEvent>) returns (grouped: map<string, seq<RawEvent>>)
    ensures grouped.Keys == set d | d in Weekdays
    ensures forall d :: d in grouped ==> grouped[d] == Bucket(events, d)
  {
    var empty := EmptyGroups(Weekdays);
    grouped := FillGroups(empty, events);
  }

  /** The initialising `forEach` of `groupEventsByWeekday`: an empty list under each day. */
  method EmptyGroups(days: seq<string>) returns (grouped: map<string, seq<RawEvent>>)
    ensures grouped.Keys == set d | d in days
    ensures forall d :: d in grouped ==> grouped[d] == []
  {
    grouped := map[];
    for k := 0 to |days|
      invariant forall d :: d in grouped <==> d in days[..k]
      invariant forall d :: d in grouped ==> grouped[d] == []
    {
      assert days[..k + 1] == days[..k] + [days[k]];
      grouped := grouped[days[k] := []];
    }
    assert days[..|days|] == days;
  }

  /** The grouping `forEach` of `groupEventsByWeekday`: each event with a non-empty weekday
      that is a key goes to the end of that key's list. */
  method FillGroups(empty: map<string, seq<RawEvent>>, events: seq<RawEvent>) returns (grouped: map<string, seq<RawEvent>>)
    requires "" !in empty && forall d :: d in empty ==> empty[d] == []
    ensures grouped.Keys == empty.Keys
    ensures forall d :: d in grouped ==> grouped[d] == Bucket(events, d)
  {
    grouped := empty;
    for i := 0 to |events|
      invariant grouped.Keys == empty.Keys
      invariant forall d :: d in grouped ==> grouped[d] == Bucket(events[..i], d)
    {
      var e := events[i];
      ghost var prev := grouped;
      if e.weekday.Some? && e.weekday.value != "" && e.weekday.value in grouped {
        grouped := grouped[e.weekday.value := grouped[e.weekday.value] + [e]];
      }
      forall d | d in grouped ensures grouped[d] == Bucket(events[..i + 1], d) {
        BucketSnoc(events, i, d);
        if e.weekday == Some(d) {
          assert d != "" && d in prev;
        }
      }
    }
    assert events[..|events|] == events;
  }

  /** One more event extends the bucket of its own day only. */
  lemma BucketSnoc(events: seq<RawEvent>, i: nat, d: string)
    requires i < |events|
    ensures Bucket(events[..i + 1], d) == Bucket(events[..i], d) + (if events[i].weekday == Some(d) then [events[i]] else [])
  {
    assert events[..i + 1][..i] == events[..i];
  }
}
