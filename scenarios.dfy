/**
  Worked cells for the calendar's layout rules, on the week of Monday
  5 January 1970 (day 4) to Sunday 11 January 1970 (day 10), and the Monday
  after it (day 11).
 */
module Scenarios {
  import opened Dates
  import opened Events
  import opened Lanes
  import opened DayIndex
  import opened Cells

  /** A full-day event from day `first` to day `last`. */
  function AllDay(id: nat, first: int, last: int): CalendarEvent
  {
    CalendarEvent(id, "", first * MsPerDay, last * MsPerDay + 1, true)
  }

  /**
    Two overlapping events, A from Monday to Wednesday and B from Tuesday to
    Thursday: on Tuesday A keeps lane 0 and draws nothing, and B takes the
    first free lane, 1, with a bar to Thursday.
   */
  lemma OverlapTakesNextLane()
    ensures var a, b := AllDay(1, 4, 6), AllDay(2, 5, 7);
      var laid := LayoutCell(5, [a, b], map[a := 0]);
      && laid.cell.entries == [FullDay(b, 1, 7, 2)]
      && laid.positions == map[a := 0, b := 1]
  {
    var a, b := AllDay(1, 4, 6), AllDay(2, 5, 7);
    var p0 := DayPass(map[a := 0], [], []);
    assert DayOf(a.start) == 4 && DayOf(a.end) == 6 && DayOf(b.start) == 5 && DayOf(b.end) == 7;
    assert [a, b][..1] == [a] && [a][..0] == [];
    assert VisitAll(5, p0, [a]) == p0;
    SingletonValues(a, 0);
    assert LeastFree({0}) == 1 by {
      LeastFreeUnique({0}, 1);
    }
    assert EndOfWeek(5) == 10;
  }

  /**
    A ends on Wednesday and C starts on Wednesday: A's lane is released only
    after the whole day, so C does not reuse lane 0 that day but takes lane 1;
    the lane map handed to Thursday holds C alone.
   */
  lemma ReleaseWaitsForEndOfDay()
    ensures var a, c := AllDay(1, 4, 6), AllDay(3, 6, 8);
      var laid := LayoutCell(6, [a, c], map[a := 0]);
      && laid.cell.entries == [FullDay(c, 1, 8, 2)]
      && laid.positions == map[c := 1]
  {
    var a, c := AllDay(1, 4, 6), AllDay(3, 6, 8);
    var p0 := DayPass(map[a := 0], [], []);
    assert DayOf(a.start) == 4 && DayOf(a.end) == 6 && DayOf(c.start) == 6 && DayOf(c.end) == 8;
    assert [a, c][..1] == [a] && [a][..0] == [];
    assert !StartsRun(a, 6) && EndsOn(a, 6);
    assert Visit(6, p0, a) == DayPass(map[a := 0], [], [a]);
    assert VisitAll(6, p0, [a]) == DayPass(map[a := 0], [], [a]);
    SingletonValues(a, 0);
    assert LeastFree({0}) == 1 by {
      LeastFreeUnique({0}, 1);
    }
    assert EndOfWeek(6) == 10;
    assert StartsRun(c, 6) && !EndsOn(c, 6);
    var held := map[a := 0, c := 1];
    assert Visit(6, DayPass(map[a := 0], [], [a]), c) == DayPass(held, [FullDay(c, 1, 8, 2)], [a]);
    assert VisitAll(6, p0, [a, c]) == Visit(6, VisitAll(6, p0, [a]), c);
    assert VisitAll(6, p0, [a, c]) == DayPass(held, [FullDay(c, 1, 8, 2)], [a]);
    assert Release(held, [a]) == Release(held, []) - {a};
    assert held - {a} == map[c := 1];
  }

  /**
    An event from Saturday to the next Tuesday: its bar from Saturday stops
    at the Sunday ending the row, and the next row's Monday, entered with an
    empty lane map, draws it again from lane 0 up to Tuesday.
   */
  lemma RunSplitsAtWeekEnd()
    ensures var e := AllDay(4, 9, 12);
      && LayoutCell(9, [e], map[]).cell.entries == [FullDay(e, 0, 10, 1)]
      && LayoutCell(11, [e], map[]).cell.entries == [FullDay(e, 0, 12, 1)]
  {
    var e := AllDay(4, 9, 12);
    assert LeastFree({}) == 0;
    assert EndOfWeek(9) == 10;
    assert EndOfWeek(11) == 17;
  }

  /** Two timed events on day 4, the first starting 4 seconds before the second. */
  function Early(): CalendarEvent
  {
    CalendarEvent(5, "", 4 * MsPerDay + 1000, 4 * MsPerDay + 2000, false)
  }

  function Late(): CalendarEvent
  {
    CalendarEvent(6, "", 4 * MsPerDay + 5000, 4 * MsPerDay + 6000, false)
  }

  /** Two timed events given latest first are sorted earliest first. */
  lemma TimedEventsByStart()
    ensures SortByStart([Late(), Early()]) == [Early(), Late()]
  {
    var early, late := Early(), Late();
    assert [late, early][..1] == [late] && [late][..0] == [];
  }

  /** Timed events are listed as lines in the order of the day's list. */
  lemma TimedEventsListed()
    ensures LayoutCell(4, [Early(), Late()], map[]).cell.entries == [Hour(Early()), Hour(Late())]
  {
    var early, late := Early(), Late();
    assert [early, late][..1] == [early] && [early][..0] == [];
    var p0 := DayPass(map[], [], []);
    assert VisitAll(4, p0, [early]) == Visit(4, p0, early) == DayPass(map[], [Hour(early)], []);
    assert VisitAll(4, p0, [early, late]) == Visit(4, DayPass(map[], [Hour(early)], []), late);
  }

  /** Two full-day events with the same start, given in the order x, y: the sorted copy keeps that order. */
  lemma EqualStartsKeepInputOrder()
    ensures var x, y := AllDay(7, 4, 5), AllDay(8, 4, 6);
      SortByStart([x, y]) == [x, y]
  {
    var x, y := AllDay(7, 4, 5), AllDay(8, 4, 6);
    assert [x, y][..1] == [x] && [x][..0] == [];
  }

  /** On their first day, the earlier of two equal-start events in the day's list takes lane 0, the later lane 1. */
  lemma EqualStartsLanesInListOrder()
    ensures var x, y := AllDay(7, 4, 5), AllDay(8, 4, 6);
      LayoutCell(4, [x, y], map[]).cell.entries == [FullDay(x, 0, 5, 1), FullDay(y, 1, 6, 2)]
  {
    var x, y := AllDay(7, 4, 5), AllDay(8, 4, 6);
    assert [x, y][..1] == [x] && [x][..0] == [];
    var p0 := DayPass(map[], [], []);
    assert DayOf(x.start) == 4 && DayOf(x.end) == 5 && DayOf(y.start) == 4 && DayOf(y.end) == 6;
    assert EndOfWeek(4) == 10;
    assert StartsRun(x, 4) && !EndsOn(x, 4) && StartsRun(y, 4) && !EndsOn(y, 4);
    assert LeastFree({}) == 0;
    var p1 := DayPass(map[x := 0], [FullDay(x, 0, 5, 1)], []);
    assert Visit(4, p0, x) == p1;
    assert VisitAll(4, p0, [x]) == p1;
    SingletonValues(x, 0);
    assert LeastFree({0}) == 1 by {
      LeastFreeUnique({0}, 1);
    }
    assert Visit(4, p1, y).entries == [FullDay(x, 0, 5, 1), FullDay(y, 1, 6, 2)];
    assert VisitAll(4, p0, [x, y]) == Visit(4, VisitAll(4, p0, [x]), y);
  }

  /** The lanes held by a map with one event. */
  lemma SingletonValues(e: CalendarEvent, lane: nat)
    ensures map[e := lane].Values == {lane}
  {
    assert map[e := lane][e] == lane;
  }
}
