# Calendar event layout, in Dafny

A model of the layout core of `src/calendar.js`, a month-view calendar widget.
The widget lays out a month one table cell per day:

- `#fillEventMap` builds `#eventsMap`. It sorts a copy of the events by start, then appends each event to the list of every day it occupies.
- `#buildCell` draws one cell.
  - A full-day event gets a bar on its start day, and again on every Monday it is still running.
  - The bar's lane is chosen by `getAvailablePosition`.
  - The bar reaches the event's end or the end of the week, whichever comes first.
  - An event releases its lane only after the whole day has been drawn.
  - Timed events are listed in day-list order.
- The constructor's loop walks the grid from the Monday on or before the month's first day to the Sunday on or after its last day. It passes the lane map (`positionMap`) from cell to cell and clears it after each Sunday, so every week row is laid out on its own.

The modules follow that structure:

- `Dates`: integer-day stand-ins for the date helpers the file imports.
- `Events`: the event record.
- `DayIndex`: the day index and its specification.
- `Lanes`: lane maps and the least free lane.
- `Cells`: the cell pass as functions, with the lemmas about it.
- `Rows`: the walk over the grid, with the lemmas about it.
- `CalendarView`: the `Calendar` class. Its methods are proved equal to those functions.
- `Scenarios`: worked cells.

Days are integer day numbers; day 0 is Thursday 1 January 1970. An instant is a count of local milliseconds, so `getDayId` is a floor division. `getDay` is `(d + 4) % 7`, with 0 for Sunday.

Week rows run Monday to Sunday:

- The loop clears the lane map after `getDay() === 0` (a Sunday).
- `#buildCell` re-anchors runs on `getDay() === 1` (a Monday).
- `startOfWeek` and `endOfWeek` are modelled to agree with that.

A reading in which rows start on Sunday, and runs re-anchor on Sunday, does not match the code. The model follows the code.

The lane of a bar is the least lane that no event in the lane map holds. `getAvailablePosition` (`AvailablePosition`) is proved to return exactly that lane.

Because release waits for the end of the day, an event starting on the day another ends does not reuse that lane. `Scenarios.ReleaseWaitsForEndOfDay` shows this on two concrete events: the second event gets lane 1, not lane 0.

## Model

| member | source | states |
|---|---|---|
| CalendarView.AvailablePosition | src/calendar.js:77-89 | lane 0 for an empty lane map; otherwise the lane returned is held by no event and every lower lane is held, so it equals `Lanes.LeastFree` of the held lanes |
| CalendarView.MaxLane | src/calendar.js:82 | `Math.max` of the held lanes: one of them, and at least every one of them |
| Lanes.LeastFree | src/calendar.js:77-89 | reference definition of a free lane: not held, and every lower lane is held |
| Lanes.LeastFreeUnique | src/calendar.js:83-88 | those two properties determine the lane, so any scan that stops at the first gap finds it |
| Lanes.LeastFreeBound | src/calendar.js:77-89 | the chosen lane is at most the number of lanes held: lanes stay dense |
| Lanes.AssignKeepsInjective | src/calendar.js:109-110 | giving an event the least free lane keeps all lanes in the map distinct |
| CalendarView.Calendar.constructor | src/calendar.js:29-66 | the index is built from the sorted copy of the events; the rows have 7 cells each and cover every day from the Monday on or before the first of the month to the Sunday on or after its last day; read in order, they are the grid's cells; the events array is unchanged |
| CalendarView.Calendar.LayOutRows | src/calendar.js:58-66 | from a Monday to a Sunday: whole rows of 7 cells, which read in order are `Rows.Grid`, the cells laid out with the lane map each previous cell leaves, cleared after each Sunday |
| CalendarView.Calendar.FillEventMap | src/calendar.js:155-171 | the new index is the old one with each event of the start-sorted copy appended to each of its days; every day's list is its old list followed by the events occupying it, in sorted order; the array is unchanged |
| CalendarView.Calendar.AppendToDays | src/calendar.js:160-169 | appends the event to the list of each day given, in order |
| CalendarView.Calendar.BuildCell | src/calendar.js:99-147 | the cell and the lane map it leaves are `Cells.LayoutCell` of the day's list; lanes distinct on entry stay distinct |
| DayIndex.SortByStart | src/calendar.js:156 | ordered by non-decreasing start and a permutation of the input (the order on ties is not part of the contract; `Scenarios.EqualStartsKeepInputOrder` shows input order kept on one pair) |
| DayIndex.AddToDaysGet | src/calendar.js:160-169 | appending to a run of consecutive days adds the event at the end of exactly those days' lists |
| DayIndex.AddToDaysKeys | src/calendar.js:160-169 | appending to a run of consecutive days gives exactly those days an entry |
| DayIndex.IndexCovering | src/calendar.js:158-170 | each day's list is its old list followed by the events of the input that occupy that day, in input order |
| DayIndex.IndexDays | src/calendar.js:158-170 | a day has an entry exactly when it had one or some event occupies it |
| DayIndex.CoveringMembers | src/calendar.js:158-170 | an event is on a day's list exactly when it is an input event occupying that day |
| DayIndex.CoveringCount | src/calendar.js:158-170 | a day's list holds an event as often as the input does if it occupies the day, otherwise never |
| DayIndex.CoveringSorted | src/calendar.js:156-170 | selecting one day's events keeps the order by start |
| DayIndex.DayLists | src/calendar.js:155-171 | the index built from the events: every list is ordered by start, holds each event occupying its day as often as the input does, and holds nothing else |
| Cells.VisitAllKeys | src/calendar.js:103-110 | during the day's loop the lane map gains exactly the events starting a run; every other event keeps its lane |
| Cells.VisitAllInjective | src/calendar.js:109-110 | lanes handed out during the loop stay distinct |
| Cells.VisitAllFinished | src/calendar.js:132-134 | `finishedEvents` collects exactly the full-day events ending that day, in list order |
| Cells.VisitAllHeld | src/calendar.js:103-141 | the three facts above together |
| Cells.VisitAllEntries | src/calendar.js:103-141 | one entry per shown event, in order; a bar exactly for a full-day event; each bar ends at `BarEnd` and spans `diffInDay` days |
| Cells.BarsAvoidHeld | src/calendar.js:105-110 | a bar drawn today never takes the lane of an event that held one as the day began and starts no run today |
| Cells.ReleaseKeys | src/calendar.js:145-147 | the release loop removes exactly the finished events and leaves other lanes as they were |
| Cells.LanesStayDistinct | src/calendar.js:103-147 | with distinct lanes on entry, lanes are distinct after every assignment of the day and after the releases |
| Cells.ReleaseAtEndOfDay | src/calendar.js:101-147 | after the cell, the lane map holds exactly the held and newly started events minus those ending today; the others keep their lanes |
| Cells.DeferredRelease | src/calendar.js:132-147 | an event ending today keeps its lane through the whole loop, no bar drawn today gets that lane, and the event is gone after the cell |
| Cells.CellEntries | src/calendar.js:103-141 | the cell's entries are the day's shown events in list order; an entry is a bar exactly when its event is full-day |
| Cells.RunHasBar | src/calendar.js:105-130 | a full-day event starting a run that day has a bar in the cell |
| Cells.BarWithinWeek | src/calendar.js:111-119 | each bar ends on min(event end day, end of week): not before the cell, not after the event or the row's Sunday, so it spans 0 to 6 days |
| Rows.GridAt | src/calendar.js:58-60 | cell `j` of the grid is the cell of day `start + j` |
| Rows.WalkPositions | src/calendar.js:58-65 | the lane map the loop holds after `n` days is the one day `start + n` receives |
| Rows.WalkAddsCell | src/calendar.js:59-64 | each day adds its grid cell to the open row, and a Sunday closes the row |
| Rows.WalkCells | src/calendar.js:58-66 | the closed rows read in order, followed by the open row, are the first `n` cells of the grid |
| Rows.WalkRows | src/calendar.js:58-66 | walking from a Monday, closed rows have 7 cells and the open row holds the days since the last Sunday |
| Rows.RowLanesUnique | src/calendar.js:58-66 | between cells, no two events in the lane map share a lane |
| Rows.LanesUniqueWithinDay | src/calendar.js:103-110 | within a cell, no two events share a lane after any assignment |
| Rows.RowStartsEmpty | src/calendar.js:61-64 | every Monday cell is entered with an empty lane map |
| Rows.HeldAreActive | src/calendar.js:58-66 | events holding a lane between cells are full-day input events that started before that day and end on or after it |
| Rows.MondayReanchor | src/calendar.js:105-108 | a full-day event still running on a Monday gets a fresh bar there, drawn from an empty lane map |
| Rows.BarsWithinRow | src/calendar.js:111-119 | every bar of every grid cell ends on min(event end, end of week), within the event and the row |
| Dates.DayOf | src/calendar.js:99 | `getDayId`: the day `d` with `d * MsPerDay <= t < d * MsPerDay + MsPerDay`, a floor division |
| Dates.DayOfMonotone | src/calendar.js:156 | later instants never fall on earlier days, so ordering by start orders by start day |
| Dates.Weekday | src/calendar.js:61 | `getDay`: only that the weekday is in 0..6; `Dates.WeekdayNext` and day 0 being a Thursday tie it to the calendar |
| Dates.DiffInDay | src/calendar.js:116-119 | `diffInDay`: nothing beyond the assumed plain difference, `from + n == to` (see the "Dates.DiffInDay" line under "## Left out") |
| Dates.EndOfWeekOfRow | src/calendar.js:111-114 | every day of a week row has the same closing Sunday, so no bar drawn in the row runs past it |
| Dates.MonthGrid | src/calendar.js:32-36 | the grid starts on a Monday, ends on a Sunday, covers the month and is whole weeks |
| Dates.StartOfWeek | src/calendar.js:34 | the Monday on or before the day |
| Dates.EndOfWeek | src/calendar.js:113 | the Sunday on or after the day, at most 6 days later |
| Dates.WeekdayNext | src/calendar.js:61 | consecutive days have consecutive weekdays, wrapping from Saturday to Sunday |
| Dates.MinDates | src/calendar.js:111-114 | the earlier of two days |
| Dates.DaysBetween | src/calendar.js:36 | every day from the first to the last, both included, in order |
| Scenarios.OverlapTakesNextLane | src/calendar.js:103-130 | A (Mon–Wed, lane 0) and B (Tue–Thu): on Tuesday only B draws a bar, in lane 1, up to Thursday |
| Scenarios.ReleaseWaitsForEndOfDay | src/calendar.js:101-147 | A ends Wednesday and C starts Wednesday: C takes lane 1, and only C holds a lane afterwards |
| Scenarios.RunSplitsAtWeekEnd | src/calendar.js:105-119 | a Saturday-to-Tuesday event draws a bar to Sunday, then a new bar from Monday to Tuesday in lane 0 |
| Scenarios.TimedEventsByStart | src/calendar.js:156 | two timed events given latest first are sorted earliest first |
| Scenarios.TimedEventsListed | src/calendar.js:136-140 | two timed events are listed as lines in the order of the day's list |
| Scenarios.EqualStartsKeepInputOrder | src/calendar.js:156 | two events with the same start keep their input order in the sorted copy |
| Scenarios.EqualStartsLanesInListOrder | src/calendar.js:103-130 | two full-day events starting on the same day take lanes 0 and 1 in the order of the day's list |

## Left out

- Markup is not modelled: the DOM, the table and header, `innerHTML`, the `td`/`tr` elements and the class names. A cell is a list of entries: a bar (event, lane, end day, span) or a timed line.
- `Intl.DateTimeFormat` labels and the event names in markup are not modelled; they are presentation only.
- The `--offset` CSS property of the event container (line 143) is not modelled. It is presentation, and on an empty lane map it is computed from `Math.max()` of nothing.
- The `isCurrentMonth` styling and the `month` argument of `#buildCell` are not modelled: they affect only a class name.
- The bootstrap code at lines 174-181, `./data.js` and `./functions/date.js` are not part of this model. The date helpers are integer-day stand-ins in `Dates`. Local time, time zones and daylight-saving shifts are not modelled.
- CalendarView.Calendar.constructor: takes the first and last day of the month as day numbers instead of `month` and `year`. `new Date(year, month, 1)` and `endOfMonth` are calendar arithmetic outside the model.
- Dates.DiffInDay: taken to be the plain difference of day numbers; whether the source helper counts inclusively is not visible here.
- Dates.DaysBetween: taken to list the civil days from the start day to the end day, both included. The source helper is given instants, and its exact behaviour is not visible here.
- DayIndex.SortByStart: its contract states only that the result is ordered by start and is a permutation of the input. Its definition is a stable insertion sort, so events with equal starts keep their input order, and their lanes follow that order. The source's result on ties depends on the engine's sort and on the comparator `a.start < b.start ? -1 : 1`, which never answers "equal". For this comparator the ECMAScript specification leaves the order of equal-start events implementation-defined. An engine that asks it as (later, earlier) keeps input order, which the model follows; one that asks (earlier, later) and moves on a positive answer reverses it.
- CalendarView.Calendar.BuildCell: receives the lane map as a value and returns the updated one, instead of mutating the constructor's shared `Map` object. No other code holds that map, so nothing else observes the difference.
- CalendarView.Calendar.LayOutRows: the loop of the constructor, lines 58-66, as a method of its own. It returns the rows instead of appending `tr` elements to the `tbody` element.
- Event identity: a JavaScript object used as a `Map` key is an event value with an `id` field. Two distinct event objects are two events with different ids.
- The insertion order of the JavaScript `Map` is not modelled. Only the lane values of the map matter to the layout.
- Overflow flags and an inclusive span length are not modelled, because the source computes neither. A bar records its end day and its `diffInDay` span (`--days`, lines 116-125), as the source does.
- The event's `fullDay` field is optional in the source, as `fullDay?: boolean` (line 16). It is modelled as a plain `bool`. That is exact: the source only tests it for truth (lines 106, 132 and 136), and a missing value tests false.
