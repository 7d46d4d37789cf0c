/**
  Integer-day stand-ins for the helpers that src/calendar.js imports from
  ./functions/date.js (that file is not part of this model).

  A calendar day is an integer day number in local civil time; day 0 is
  Thursday 1 January 1970. An instant is a number of local milliseconds since
  the start of day 0, so the day an instant falls on is a floor division and
  two instants of the same civil day always give the same day number.
  Weeks run Monday to Sunday, as the row driver of the calendar expects.
 */
module Dates {

  /** Milliseconds in one civil day (daylight-saving shifts are not modelled). */
  const MsPerDay: int := 86_400_000

  /** Date.prototype.getDay numbering. */
  const Sunday: int := 0
  const Monday: int := 1

  /** getDayId: the civil day an instant falls on. */
  function DayOf(t: int): (d: int)
    ensures d * MsPerDay <= t < d * MsPerDay + MsPerDay
  {
    t / MsPerDay
  }

  /** Later instants never fall on earlier days. */
  lemma DayOfMonotone(a: int, b: int)
    requires a <= b
    ensures DayOf(a) <= DayOf(b)
  {
  }

  /** Date.prototype.getDay: 0 for Sunday, 1 for Monday, ..., 6 for Saturday. */
  function Weekday(d: int): (w: int)
    ensures 0 <= w < 7
  {
    (d + 4) % 7
  }

  /** Consecutive days have consecutive weekdays, wrapping after Saturday. */
  lemma WeekdayNext(d: int)
    ensures Weekday(d + 1) == if Weekday(d) == 6 then Sunday else Weekday(d) + 1
  {
  }

  /** endOfWeek: the Sunday that closes the Monday-to-Sunday week of `d`. */
  function EndOfWeek(d: int): (e: int)
    ensures Weekday(e) == Sunday
    ensures d <= e <= d + 6
  {
    d + (7 - Weekday(d)) % 7
  }

  /** startOfWeek: the Monday that opens the Monday-to-Sunday week of `d`. */
  function StartOfWeek(d: int): (s: int)
    ensures Weekday(s) == Monday
    ensures d - 6 <= s <= d
  {
    d - (Weekday(d) + 6) % 7
  }

  /** Every day of a week row has the same closing Sunday. */
  lemma EndOfWeekOfRow(d: int, k: int)
    requires 0 <= k <= EndOfWeek(d) - d
    ensures EndOfWeek(d + k) == EndOfWeek(d)
  {
  }

  /** minDates on two days: the earlier one. */
  function MinDates(a: int, b: int): (m: int)
    ensures m <= a && m <= b
    ensures m == a || m == b
  {
    if a <= b then a else b
  }

  /**
    diffInDay: the number of whole days from `from` to `to`. The source leaves
    open whether this count is inclusive; the model takes the plain difference.
   */
  function DiffInDay(from: int, to: int): (n: int)
    ensures from + n == to
  {
    to - from
  }

  /** getDaysBetween: every day from `from` to `to`, both included, in order. */
  function DaysBetween(from: int, to: int): (r: seq<int>)
    ensures |r| == if to < from then 0 else to - from + 1
    ensures forall k :: 0 <= k < |r| ==> r[k] == from + k
  {
    if to < from then [] else seq(to - from + 1, k => from + k)
  }

  /**
    The grid of a month: from the Monday on or before its first day to the
    Sunday on or after its last day. It starts on a Monday, ends on a Sunday,
    covers the month and is made of whole weeks.
   */
  lemma MonthGrid(firstOfMonth: int, lastOfMonth: int)
    requires firstOfMonth <= lastOfMonth
    ensures Weekday(StartOfWeek(firstOfMonth)) == Monday
    ensures Weekday(EndOfWeek(lastOfMonth)) == Sunday
    ensures StartOfWeek(firstOfMonth) <= firstOfMonth && lastOfMonth <= EndOfWeek(lastOfMonth)
    ensures (EndOfWeek(lastOfMonth) - StartOfWeek(firstOfMonth) + 1) % 7 == 0
  {
    var s, e := StartOfWeek(firstOfMonth), EndOfWeek(lastOfMonth);
    assert (s + 4) % 7 == 1 && (e + 4) % 7 == 0;
  }
}
