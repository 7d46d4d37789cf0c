/**
  The row driver of the calendar (the loop of the constructor): it lays out
  the grid day by day, handing the lane map from each cell to the next, and
  empties it after every Sunday so that each Monday-to-Sunday row is laid out
  on its own. This module holds the functions that specify the walk and the
  lemmas about them; the loop itself is CalendarView.Calendar.LayOutRows.
 */
module Rows {
  import opened Dates
  import opened Events
  import opened Lanes
  import opened DayIndex
  import opened Cells

  /** The lane map the driver passes to the cell of day `d`, when the walk begins at `start`. */
  function StateBefore(index: Index, start: int, d: int): LaneMap
    requires start <= d
    decreases d - start
  {
    if d == start then map[]
    else
      var prev := d - 1;
      var after := LayoutCell(prev, Get(index, prev), StateBefore(index, start, prev)).positions;
      if Weekday(prev) == Sunday then map[] else after
  }

  /** The cell the driver lays out for day `d`. */
  function CellAt(index: Index, start: int, d: int): Cell
    requires start <= d
  {
    LayoutCell(d, Get(index, d), StateBefore(index, start, d)).cell
  }

  /** The first `n` cells of the walk, in day order. */
  function Grid(index: Index, start: int, n: nat): seq<Cell>
  {
    if n == 0 then [] else Grid(index, start, n - 1) + [CellAt(index, start, start + n - 1)]
  }

  /** The rows of a table, one after another. */
  function Concat(rows: seq<seq<Cell>>): seq<Cell>
  {
    if rows == [] then [] else Concat(rows[..|rows| - 1]) + rows[|rows| - 1]
  }

  /** Cell `j` of the walk is the cell of day `start + j`. */
  lemma {:induction false} GridAt(index: Index, start: int, n: nat, j: nat)
    requires j < n
    ensures |Grid(index, start, n)| == n
    ensures Grid(index, start, n)[j] == CellAt(index, start, start + j)
  {
    if j < n - 1 {
      GridAt(index, start, n - 1, j);
    } else if n > 1 {
      GridAt(index, start, n - 1, 0);
    }
  }

  /** The driver's state after some days: the closed rows, the open row and the lane map. */
  datatype Table = Table(rows: seq<seq<Cell>>, row: seq<Cell>, positions: LaneMap)

  /**
    The driver after the first `n` days from `start`: each cell is laid out
    with the lane map the previous one left; a Sunday cell closes the row
    and empties the lane map.
   */
  function Walk(index: Index, start: int, n: nat): Table
  {
    if n == 0 then Table([], [], map[])
    else
      var t := Walk(index, start, n - 1);
      var d := start + n - 1;
      Step(t, d, LayoutCell(d, Get(index, d), t.positions))
  }

  /** One day of the driver: the cell joins the open row, and a Sunday closes the row and empties the lane map. */
  function Step(t: Table, d: int, laid: Laid): Table
  {
    if Weekday(d) == Sunday then Table(t.rows + [t.row + [laid.cell]], [], map[])
    else Table(t.rows, t.row + [laid.cell], laid.positions)
  }

  /** Closing a row appends its cells to the cells of the rows before it. */
  lemma ConcatSnoc(rows: seq<seq<Cell>>, row: seq<Cell>)
    ensures Concat(rows + [row]) == Concat(rows) + row
  {
    assert (rows + [row])[..|rows|] == rows;
  }

  /** The lane map the driver holds after `n` days is the one the next day receives. */
  lemma {:induction false} WalkPositions(index: Index, start: int, n: nat)
    ensures Walk(index, start, n).positions == StateBefore(index, start, start + n)
  {
    if n > 0 {
      WalkPositions(index, start, n - 1);
    }
  }

  /** Adding a cell to the open row, and maybe closing it, appends that cell to the rows read in order. */
  lemma AddCell(rows: seq<seq<Cell>>, row: seq<Cell>, rows': seq<seq<Cell>>, row': seq<Cell>, c: Cell)
    requires (rows' == rows + [row + [c]] && row' == []) || (rows' == rows && row' == row + [c])
    ensures Concat(rows') + row' == Concat(rows) + row + [c]
  {
    if row' == [] && rows' == rows + [row + [c]] {
      ConcatSnoc(rows, row + [c]);
    }
  }

  /** Day `n` of the walk adds the grid's cell for that day to the open row. */
  lemma {:induction false} WalkAddsCell(index: Index, start: int, n: nat)
    requires n > 0
    ensures var t, t', c := Walk(index, start, n - 1), Walk(index, start, n), CellAt(index, start, start + n - 1);
      if Weekday(start + n - 1) == Sunday then t'.rows == t.rows + [t.row + [c]] && t'.row == []
      else t'.rows == t.rows && t'.row == t.row + [c]
  {
    var t, d := Walk(index, start, n - 1), start + n - 1;
    WalkPositions(index, start, n - 1);
    assert StateBefore(index, start, d) == t.positions;
    var laid := LayoutCell(d, Get(index, d), t.positions);
    assert CellAt(index, start, d) == laid.cell;
    assert Walk(index, start, n) == Step(t, d, laid);
    StepShape(t, d, laid, CellAt(index, start, d));
  }

  /** A day's step adds its cell `c` to the open row, closing the row on a Sunday. */
  lemma StepShape(t: Table, d: int, laid: Laid, c: Cell)
    requires c == laid.cell
    ensures var t' := Step(t, d, laid);
      if Weekday(d) == Sunday then t'.rows == t.rows + [t.row + [c]] && t'.row == []
      else t'.rows == t.rows && t'.row == t.row + [c]
  {
  }

  /** The rows read in order, then the open row, are the first `n` cells of the grid. */
  lemma {:induction false} WalkCells(index: Index, start: int, n: nat)
    ensures var t := Walk(index, start, n);
      Concat(t.rows) + t.row == Grid(index, start, n)
  {
    if n > 0 {
      var t, t' := Walk(index, start, n - 1), Walk(index, start, n);
      WalkCells(index, start, n - 1);
      WalkAddsCell(index, start, n);
      var c := CellAt(index, start, start + n - 1);
      AddCell(t.rows, t.row, t'.rows, t'.row, c);
    }
  }

  /**
    Walking from a Monday, the closed rows have seven cells each and the open
    row holds the days since the last Sunday.
   */
  lemma {:induction false} WalkRows(index: Index, start: int, n: nat)
    requires Weekday(start) == Monday
    ensures var t := Walk(index, start, n);
      && 7 * |t.rows| + |t.row| == n && |t.row| < 7
      && (forall r :: 0 <= r < |t.rows| ==> |t.rows[r]| == 7)
      && Weekday(start + n) == (if |t.row| == 6 then Sunday else |t.row| + 1)
  {
    if n > 0 {
      WalkRows(index, start, n - 1);
      WeekdayNext(start + n - 1);
    }
  }

  /** Between cells, no two events in the lane map share a lane. */
  lemma {:induction false} RowLanesUnique(index: Index, start: int, d: int)
    requires start <= d
    ensures Injective(StateBefore(index, start, d))
    decreases d - start
  {
    if d > start {
      RowLanesUnique(index, start, d - 1);
      LanesStayDistinct(d - 1, Get(index, d - 1), StateBefore(index, start, d - 1), 0);
    }
  }

  /** Within a cell, no two events in the lane map share a lane after any assignment. */
  lemma {:induction false} LanesUniqueWithinDay(index: Index, start: int, d: int, i: nat)
    requires start <= d && i <= |Get(index, d)|
    ensures Injective(VisitAll(d, DayPass(StateBefore(index, start, d), [], []), Get(index, d)[..i]).held)
  {
    RowLanesUnique(index, start, d);
    LanesStayDistinct(d, Get(index, d), StateBefore(index, start, d), i);
  }

  /** Every row begins with an empty lane map: the walk starts empty and clears after Sunday. */
  lemma {:induction false} RowStartsEmpty(index: Index, start: int, d: int)
    requires start <= d && Weekday(d) == Monday
    ensures StateBefore(index, start, d) == map[]
  {
    if d > start {
      WeekdayNext(d - 1);
    }
  }

  /**
    With the index built from `events`, the events holding a lane between
    cells are full-day events of the input that are still running: they
    started before day `d` and end on or after it. So a lane is released on
    its event's end day, and never held by a finished event.
   */
  lemma {:induction false} HeldAreActive(events: seq<CalendarEvent>, start: int, d: int)
    requires start <= d
    ensures var index := BuildIndex(map[], events);
      forall e :: e in StateBefore(index, start, d) ==>
        e.fullDay && e in events && DayOf(e.start) < d <= DayOf(e.end)
    decreases d - start
  {
    var index := BuildIndex(map[], events);
    if d > start {
      var prev := d - 1;
      HeldAreActive(events, start, prev);
      if Weekday(prev) != Sunday {
        var m := StateBefore(index, start, prev);
        var es := Get(index, prev);
        IndexCovering(map[], events);
        assert es == Covering(events, prev);
        ReleaseAtEndOfDay(prev, es, m);
        forall e | e in StateBefore(index, start, d)
          ensures e.fullDay && e in events && DayOf(e.start) < d <= DayOf(e.end)
        {
          CoveringMembers(events, prev, e);
        }
      }
    }
  }

  /**
    A full-day event of the input that is still running on a Monday is
    re-anchored there: with the lane map empty, the Monday cell draws a bar
    for it.
   */
  lemma {:induction false} MondayReanchor(events: seq<CalendarEvent>, start: int, d: int, e: CalendarEvent)
    requires start <= d && Weekday(d) == Monday
    requires e in events && e.fullDay && Covers(e, d)
    ensures var index := BuildIndex(map[], events);
      StateBefore(index, start, d) == map[] && HasBar(CellAt(index, start, d), e)
  {
    var index := BuildIndex(map[], events);
    RowStartsEmpty(index, start, d);
    IndexCovering(map[], events);
    CoveringMembers(events, d, e);
    RunHasBar(d, Get(index, d), StateBefore(index, start, d), e);
  }

  /**
    With the index built from `events`, every bar of every cell ends on
    min(event end day, end of the week): within the event and within the row,
    and spanning 0 to 6 days beyond its cell.
   */
  lemma {:induction false} BarsWithinRow(events: seq<CalendarEvent>, start: int, d: int)
    requires start <= d
    ensures var c := CellAt(BuildIndex(map[], events), start, d);
      forall k :: 0 <= k < |c.entries| && c.entries[k].FullDay? ==>
        var b := c.entries[k];
        && b.endDay == MinDates(DayOf(b.event.end), EndOfWeek(d))
        && d <= b.endDay <= DayOf(b.event.end)
        && b.endDay <= EndOfWeek(d)
        && 0 <= b.days <= 6
  {
    var index := BuildIndex(map[], events);
    IndexCovering(map[], events);
    forall e | e in Get(index, d) ensures Covers(e, d) {
      CoveringMembers(events, d, e);
    }
    BarWithinWeek(d, Get(index, d), StateBefore(index, start, d));
  }
}
