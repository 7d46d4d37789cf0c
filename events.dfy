/**
  The CalendarEvent record of src/calendar.js.
 */
module Events {
  import opened Dates

  /**
    A calendar event. `start` and `end` are instants (see module Dates).
    `id` stands for the identity of the JavaScript object: the calendar keys
    its lane map by object, so two events with the same fields but different
    objects are different keys, and the same object listed twice is one key.
   */
  datatype CalendarEvent = CalendarEvent(
    id: nat,
    name: string,
    start: int,
    end: int,
    fullDay: bool)

  /** The event occupies day `d`: `d` lies between its start day and its end day. */
  predicate Covers(e: CalendarEvent, d: int)
  {
    DayOf(e.start) <= d <= DayOf(e.end)
  }
}
