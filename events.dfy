/** The records flowing through the calendar pipeline. */
module Events {
  import opened Wrappers

  /** One listing of the feed. Every field but the title may be absent; an absent
      field reads as `undefined` in the source. */
  datatype RawEvent = RawEvent(
    title: string,
    weekday: Option<string>,
    startTime: Option<string>,
    endTime: Option<string>,
    location: Option<string>,
    neighborhood: Option<string>,
    activityType: Option<string>,
    ageRange: Option<string>,
    price: Option<string>,
    description: Option<string>)

  /** A listing whose start and end parsed to minutes since midnight (the record built by
      `{ ...event, startMinutes, endMinutes }` once both are known to be non-null). */
  datatype TimedEvent = TimedEvent(event: RawEvent, startMinutes: int, endMinutes: int)

  /** The seven canonical weekday names, Monday first: the `weekdays` list of
      `groupEventsByWeekday` and the `WEEKDAYS` constant of the calendar are the same list. */
  const Weekdays: seq<string> :=
    ["Monday", "Tuesday", "Wednesday", "Thursday", "Friday", "Saturday", "Sunday"]

  lemma WeekdaysDistinct()
    ensures |Weekdays| == 7
    ensures forall i, j :: 0 <= i < j < |Weekdays| ==> Weekdays[i] != Weekdays[j]
  {
  }
}
