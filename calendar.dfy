/**
  The Calendar class of src/calendar.js, with its layout work and without its
  markup: the day index it fills, the lane allocator, the cell pass and the
  row driver. Each method is proved against the specification functions of
  modules DayIndex, Cells and Rows, whose properties are proved there.
 */
module CalendarView {
  import opened Dates
  import opened Events
  import opened Lanes
  import opened DayIndex
  import opened Cells
  import opened Rows

  /** `Math.max(...positions)` over the lanes currently held. */
  method MaxLane(positions: set<nat>) returns (max: nat)
    requires positions != {}
    ensures max in positions
    ensures forall x :: x in positions ==> x <= max
  {
    max :| max in positions;
    var rest := positions - {max};
    while rest != {}
      invariant rest <= positions && max in positions
      invariant forall x :: x in positions && x !in rest ==> x <= max
      decreases rest
    {
      var x :| x in rest;
      if x > max {
        max := x;
      }
      rest := rest - {x};
    }
  }

  /**
    `getAvailablePosition`: lane 0 when no lane is held; otherwise the first
    lane below the highest held one that is free, or the lane after the
    highest. That is always the least lane nobody holds.
   */
  method AvailablePosition(positionMap: LaneMap) returns (p: nat)
    ensures positionMap == map[] ==> p == 0
    ensures p !in positionMap.Values
    ensures forall j :: 0 <= j < p ==> j in positionMap.Values
    ensures p == LeastFree(positionMap.Values)
  {
    if |positionMap| == 0 {
      return 0;
    }
    var positions := positionMap.Values;
    var some :| some in positionMap;
    assert positionMap[some] in positions;
    var max := MaxLane(positions);
    var i := 0;
    while i < max
      invariant 0 <= i <= max
      invariant forall j :: 0 <= j < i ==> j in positions
    {
      if i !in positions {
        LeastFreeUnique(positions, i);
        return i;
      }
      i := i + 1;
    }
    p := max + 1;
    LeastFreeUnique(positions, p);
  }

  class Calendar {
    /** `#eventsMap`: day number to the events occupying that day. */
    var eventsMap: Index
    /** The rows of the table body, each a week of cells. */
    var rows: seq<seq<Cell>>

    /**
      The constructor: index the events, then lay out the grid of the month,
      from the Monday on or before its first day to the Sunday on or after
      its last day.
     */
    constructor (events: array<CalendarEvent>, firstOfMonth: int, lastOfMonth: int)
      requires firstOfMonth <= lastOfMonth
      ensures eventsMap == BuildIndex(map[], SortByStart(events[..]))
      ensures var start := StartOfWeek(firstOfMonth);
        && 7 * |rows| == EndOfWeek(lastOfMonth) - start + 1
        && (forall r :: 0 <= r < |rows| ==> |rows[r]| == 7)
        && Concat(rows) == Grid(eventsMap, start, EndOfWeek(lastOfMonth) - start + 1)
      ensures events[..] == old(events[..])
    {
      var start := StartOfWeek(firstOfMonth);
      var end := EndOfWeek(lastOfMonth);
      assert Weekday(start) == Monday && Weekday(end) == Sunday && start <= end;
      eventsMap := map[];
      rows := [];
      new;
      FillEventMap(events);
      var tbody := LayOutRows(start, end);
      rows := tbody;
    }

    /**
      The loop of the constructor: one cell per day from `start` (a Monday)
      to `end` (a Sunday), handing the lane map from cell to cell, closing a
      row and emptying the lane map after each Sunday.
     */
    method LayOutRows(start: int, end: int) returns (tbody: seq<seq<Cell>>)
      requires Weekday(start) == Monday && Weekday(end) == Sunday && start <= end
      ensures 7 * |tbody| == end - start + 1
      ensures forall r :: 0 <= r < |tbody| ==> |tbody[r]| == 7
      ensures Concat(tbody) == Grid(eventsMap, start, end - start + 1)
    {
      var daysOfMonth := DaysBetween(start, end);
      var positionMap: LaneMap := map[];
      tbody := [];
      var tr: seq<Cell> := [];
      for i := 0 to |daysOfMonth|
        invariant Walk(eventsMap, start, i) == Table(tbody, tr, positionMap)
      {
        var dayOfMonth := daysOfMonth[i];
        var td, after := BuildCell(dayOfMonth, positionMap);
        positionMap := after;
        tr := tr + [td];
        if Weekday(dayOfMonth) == Sunday {
          tbody := tbody + [tr];
          tr := [];
          positionMap := map[];
        }
      }
      WalkRows(eventsMap, start, |daysOfMonth|);
      WalkCells(eventsMap, start, |daysOfMonth|);
      WeekdayNext(end);
      assert Concat(tbody) + [] == Concat(tbody);
    }

    /**
      `#fillEventMap`: index a sorted copy of the events, appending each
      event to the list of every day from its start day to its end day. The
      caller's array is left as it was.
     */
    method FillEventMap(events: array<CalendarEvent>)
      modifies this`eventsMap
      ensures eventsMap == BuildIndex(old(eventsMap), SortByStart(events[..]))
      ensures forall d :: Get(eventsMap, d) == Get(old(eventsMap), d) + Covering(SortByStart(events[..]), d)
      ensures events[..] == old(events[..])
    {
      var sortEvents := SortByStart(events[..]);
      ghost var initial := eventsMap;
      for i := 0 to |sortEvents|
        invariant eventsMap == BuildIndex(initial, sortEvents[..i])
      {
        var event := sortEvents[i];
        var days := DaysBetween(DayOf(event.start), DayOf(event.end));
        AppendToDays(event, days);
        BuildIndexSnoc(initial, sortEvents, i);
      }
      assert sortEvents[..|sortEvents|] == sortEvents;
      IndexCovering(initial, sortEvents);
    }

    /** The inner loop of `#fillEventMap`: append `event` to the list of each day in `days`. */
    method AppendToDays(event: CalendarEvent, days: seq<int>)
      modifies this`eventsMap
      ensures eventsMap == AddToDays(old(eventsMap), event, days)
    {
      ghost var before := eventsMap;
      for j := 0 to |days|
        invariant eventsMap == AddToDays(before, event, days[..j])
      {
        var id := days[j];
        AddToDaysSnoc(before, event, days, j);
        eventsMap := eventsMap[id := Get(eventsMap, id) + [event]];
      }
      assert days[..|days|] == days;
    }

    /**
      `#buildCell` for day `date`, entered with the lane map `positionMap`:
      returns the cell and the lane map after the day's releases.
     */
    method BuildCell(date: int, positionMap: LaneMap) returns (td: Cell, positionMap': LaneMap)
      ensures Laid(td, positionMap') == LayoutCell(date, Get(eventsMap, date), positionMap)
      ensures Injective(positionMap) ==> Injective(positionMap')
    {
      var dayId := date;
      var events := if dayId in eventsMap then eventsMap[dayId] else [];
      var positions: LaneMap := positionMap;
      var entries: seq<Entry> := [];
      var finishedEvents: seq<CalendarEvent> := [];
      for i := 0 to |events|
        invariant DayPass(positions, entries, finishedEvents)
                  == VisitAll(date, DayPass(positionMap, [], []), events[..i])
      {
        var event := events[i];
        if event.fullDay && (dayId == DayOf(event.start) || Weekday(date) == Monday) {
          var position := AvailablePosition(positions);
          positions := positions[event := position];
          var endDate := MinDates(DayOf(event.end), EndOfWeek(date));
          var days := DiffInDay(date, endDate);
          entries := entries + [FullDay(event, position, endDate, days)];
        }
        if event.fullDay && dayId == DayOf(event.end) {
          finishedEvents := finishedEvents + [event];
        }
        if !event.fullDay {
          entries := entries + [Hour(event)];
        }
        assert events[..i + 1][..i] == events[..i];
      }
      assert events[..|events|] == events;
      ghost var beforeRelease := positions;
      for j := 0 to |finishedEvents|
        invariant positions == Release(beforeRelease, finishedEvents[..j])
      {
        positions := positions - {finishedEvents[j]};
        assert finishedEvents[..j + 1][..j] == finishedEvents[..j];
      }
      assert finishedEvents[..|finishedEvents|] == finishedEvents;
      td := Cell(date, entries);
      positionMap' := positions;
      if Injective(positionMap) {
        LanesStayDistinct(date, events, positionMap, 0);
      }
    }
  }
}
