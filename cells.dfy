/**
  One day cell of the calendar (`#buildCell`): the pass over the day's events
  that gives lanes to full-day runs, lists timed events, and releases the
  lanes of the events that end that day once the whole day has been seen.
  This module holds the functions that specify the pass and the lemmas about
  them; the method is CalendarView.Calendar.BuildCell.
 */
module Cells {
  import opened Dates
  import opened Events
  import opened Lanes

  /** One entry of a cell's event container, in the order the cell adds them. */
  datatype Entry =
    | FullDay(event: CalendarEvent, lane: nat, endDay: int, days: int)
    | Hour(event: CalendarEvent)

  datatype Cell = Cell(day: int, entries: seq<Entry>)

  /** The state of the cell's loop: the lane map, the entries so far, `finishedEvents`. */
  datatype DayPass = DayPass(held: LaneMap, entries: seq<Entry>, finished: seq<CalendarEvent>)

  /** A laid-out cell and the lane map it hands on to the next day. */
  datatype Laid = Laid(cell: Cell, positions: LaneMap)

  /**
    A full-day event starts a visible run on `day` when `day` is its start
    day, or when `day` is a Monday (it continues from an earlier week row).
   */
  predicate StartsRun(e: CalendarEvent, day: int)
  {
    e.fullDay && (day == DayOf(e.start) || Weekday(day) == Monday)
  }

  /** A full-day event finishes on its end day. */
  predicate EndsOn(e: CalendarEvent, day: int)
  {
    e.fullDay && day == DayOf(e.end)
  }

  /** The event puts an entry in the cell: a bar for a run start, a line for a timed event. */
  predicate Shown(e: CalendarEvent, day: int)
  {
    StartsRun(e, day) || !e.fullDay
  }

  /** The last day a run drawn from `day` covers: `minDates([event.end, endOfWeek(date)])`. */
  function BarEnd(e: CalendarEvent, day: int): int
  {
    MinDates(DayOf(e.end), EndOfWeek(day))
  }

  /** One iteration of the cell's loop over the day's events. */
  function Visit(day: int, p: DayPass, e: CalendarEvent): DayPass
  {
    var p1 :=
      if StartsRun(e, day) then
        var lane := LeastFree(p.held.Values);
        var endDate := BarEnd(e, day);
        DayPass(p.held[e := lane], p.entries + [FullDay(e, lane, endDate, DiffInDay(day, endDate))], p.finished)
      else p;
    var p2 := if EndsOn(e, day) then p1.(finished := p1.finished + [e]) else p1;
    if !e.fullDay then p2.(entries := p2.entries + [Hour(e)]) else p2
  }

  /** The loop over the day's events, from the lane map the day starts with. */
  function VisitAll(day: int, p: DayPass, es: seq<CalendarEvent>): DayPass
  {
    if es == [] then p
    else Visit(day, VisitAll(day, p, es[..|es| - 1]), es[|es| - 1])
  }

  /** The closing loop: `positionMap.delete(event)` for each finished event. */
  function Release(held: LaneMap, fs: seq<CalendarEvent>): LaneMap
  {
    if fs == [] then held
    else Release(held, fs[..|fs| - 1]) - {fs[|fs| - 1]}
  }

  /** The whole cell for `day`, whose event list is `es`, entered with lane map `m0`. */
  function LayoutCell(day: int, es: seq<CalendarEvent>, m0: LaneMap): Laid
  {
    var p := VisitAll(day, DayPass(m0, [], []), es);
    Laid(Cell(day, p.entries), Release(p.held, p.finished))
  }

  /** The events of `es` that put an entry in the cell, in order. */
  function ShownEvents(es: seq<CalendarEvent>, day: int): seq<CalendarEvent>
  {
    if es == [] then []
    else
      var e := es[|es| - 1];
      ShownEvents(es[..|es| - 1], day) + (if Shown(e, day) then [e] else [])
  }

  /** The events of `es` that end on `day`, in order. */
  function EndingEvents(es: seq<CalendarEvent>, day: int): seq<CalendarEvent>
  {
    if es == [] then []
    else
      var e := es[|es| - 1];
      EndingEvents(es[..|es| - 1], day) + (if EndsOn(e, day) then [e] else [])
  }

  /** The events of `es` that start a run on `day`. */
  ghost function RunSet(es: seq<CalendarEvent>, day: int): set<CalendarEvent>
  {
    set e | e in es && StartsRun(e, day)
  }

  ghost predicate HasBar(c: Cell, e: CalendarEvent)
  {
    exists k :: 0 <= k < |c.entries| && c.entries[k].FullDay? && c.entries[k].event == e
  }

  lemma {:induction false} ShownMembers(es: seq<CalendarEvent>, day: int, e: CalendarEvent)
    ensures e in ShownEvents(es, day) <==> e in es && Shown(e, day)
  {
    if es != [] {
      ShownMembers(es[..|es| - 1], day, e);
      assert es == es[..|es| - 1] + [es[|es| - 1]];
    }
  }

  lemma {:induction false} EndingMembers(es: seq<CalendarEvent>, day: int, e: CalendarEvent)
    ensures e in EndingEvents(es, day) <==> e in es && EndsOn(e, day)
  {
    if es != [] {
      EndingMembers(es[..|es| - 1], day, e);
      assert es == es[..|es| - 1] + [es[|es| - 1]];
    }
  }

  /** The events that start a run among `init + [e]`. */
  lemma RunSetSnoc(init: seq<CalendarEvent>, e: CalendarEvent, day: int)
    ensures RunSet(init + [e], day) == RunSet(init, day) + (if StartsRun(e, day) then {e} else {})
  {
  }

  /** During the day the lane map gains the events that start a run; every other event keeps its lane. */
  lemma {:induction false} VisitAllKeys(day: int, p: DayPass, es: seq<CalendarEvent>)
    ensures VisitAll(day, p, es).held.Keys == p.held.Keys + RunSet(es, day)
    ensures forall e :: e in p.held && e !in RunSet(es, day) ==> VisitAll(day, p, es).held[e] == p.held[e]
  {
    if es == [] {
      assert RunSet(es, day) == {};
    } else {
      var init, e := es[..|es| - 1], es[|es| - 1];
      VisitAllKeys(day, p, init);
      assert es == init + [e];
      RunSetSnoc(init, e, day);
    }
  }

  /** Lanes handed out during the day stay distinct. */
  lemma {:induction false} VisitAllInjective(day: int, p: DayPass, es: seq<CalendarEvent>)
    requires Injective(p.held)
    ensures Injective(VisitAll(day, p, es).held)
  {
    if es != [] {
      var init, e := es[..|es| - 1], es[|es| - 1];
      VisitAllInjective(day, p, init);
      if StartsRun(e, day) {
        AssignKeepsInjective(VisitAll(day, p, init).held, e);
      }
    }
  }

  /** The events that end today are collected, in order. */
  lemma {:induction false} VisitAllFinished(day: int, p: DayPass, es: seq<CalendarEvent>)
    ensures VisitAll(day, p, es).finished == p.finished + EndingEvents(es, day)
  {
    if es != [] {
      VisitAllFinished(day, p, es[..|es| - 1]);
    }
  }

  /**
    During the day the lane map only grows: it gains the events that start a
    run, every other event keeps its lane, lanes stay distinct, and the events
    that end today are only collected.
   */
  lemma VisitAllHeld(day: int, p: DayPass, es: seq<CalendarEvent>)
    ensures VisitAll(day, p, es).held.Keys == p.held.Keys + RunSet(es, day)
    ensures forall e :: e in p.held && e !in RunSet(es, day) ==> VisitAll(day, p, es).held[e] == p.held[e]
    ensures Injective(p.held) ==> Injective(VisitAll(day, p, es).held)
    ensures VisitAll(day, p, es).finished == p.finished + EndingEvents(es, day)
  {
    VisitAllKeys(day, p, es);
    if Injective(p.held) {
      VisitAllInjective(day, p, es);
    }
    VisitAllFinished(day, p, es);
  }

  /**
    The entries follow the day's list: one per shown event, in order, a bar
    exactly for a full-day event; each bar ends at BarEnd and spans DiffInDay
    days from the cell.
   */
  lemma {:induction false} VisitAllEntries(day: int, p: DayPass, es: seq<CalendarEvent>)
    ensures var r := VisitAll(day, p, es);
      && |r.entries| == |p.entries| + |ShownEvents(es, day)|
      && r.entries[..|p.entries|] == p.entries
      && (forall k :: 0 <= k < |ShownEvents(es, day)| ==>
            r.entries[|p.entries| + k].event == ShownEvents(es, day)[k] &&
            (r.entries[|p.entries| + k].FullDay? <==> ShownEvents(es, day)[k].fullDay))
      && (forall k :: |p.entries| <= k < |r.entries| && r.entries[k].FullDay? ==>
            r.entries[k].endDay == BarEnd(r.entries[k].event, day) &&
            r.entries[k].days == DiffInDay(day, r.entries[k].endDay))
  {
    if es != [] {
      var init, e := es[..|es| - 1], es[|es| - 1];
      VisitAllEntries(day, p, init);
      var q := VisitAll(day, p, init);
      var r := VisitAll(day, p, es);
      assert r == Visit(day, q, e);
      assert r.entries[..|q.entries|] == q.entries;
    }
  }

  /**
    A bar drawn today never takes the lane of an event that held a lane when
    the day began and starts no run today, whether or not that event ends today.
   */
  lemma {:induction false} BarsAvoidHeld(day: int, p: DayPass, es: seq<CalendarEvent>)
    ensures var r := VisitAll(day, p, es);
      forall k, e ::
        (|p.entries| <= k < |r.entries| && r.entries[k].FullDay? && e in p.held && e !in RunSet(es, day))
        ==> r.entries[k].lane != p.held[e]
  {
    if es != [] {
      var init, last := es[..|es| - 1], es[|es| - 1];
      assert es == init + [last];
      assert RunSet(init, day) <= RunSet(es, day);
      BarsAvoidHeld(day, p, init);
      VisitAllHeld(day, p, init);
      VisitAllEntries(day, p, init);
      var q := VisitAll(day, p, init);
      var r := VisitAll(day, p, es);
      forall k, e | |p.entries| <= k < |r.entries| && r.entries[k].FullDay? &&
                    e in p.held && e !in RunSet(es, day)
        ensures r.entries[k].lane != p.held[e]
      {
        if k >= |q.entries| {
          assert q.held[e] == p.held[e];
          assert p.held[e] in q.held.Values;
        } else {
          assert r.entries[k] == q.entries[k];
        }
      }
    }
  }

  lemma {:induction false} ReleaseKeys(held: LaneMap, fs: seq<CalendarEvent>)
    ensures forall e :: e in Release(held, fs) <==> e in held && e !in fs
    ensures forall e :: e in Release(held, fs) ==> Release(held, fs)[e] == held[e]
  {
    if fs != [] {
      ReleaseKeys(held, fs[..|fs| - 1]);
      assert fs == fs[..|fs| - 1] + [fs[|fs| - 1]];
    }
  }

  /**
    Lanes are unique within the lane map after every assignment of the day
    and after the day's releases, when they were unique as the day began.
   */
  lemma {:induction false} LanesStayDistinct(day: int, es: seq<CalendarEvent>, m0: LaneMap, i: nat)
    requires Injective(m0)
    requires i <= |es|
    ensures Injective(VisitAll(day, DayPass(m0, [], []), es[..i]).held)
    ensures Injective(LayoutCell(day, es, m0).positions)
  {
    VisitAllHeld(day, DayPass(m0, [], []), es[..i]);
    var p := VisitAll(day, DayPass(m0, [], []), es);
    VisitAllHeld(day, DayPass(m0, [], []), es);
    ReleaseKeys(p.held, p.finished);
  }

  /**
    After the cell the lane map holds exactly the events that held a lane or
    started a run, minus those that end today; the others keep their lanes.
   */
  lemma {:induction false} ReleaseAtEndOfDay(day: int, es: seq<CalendarEvent>, m0: LaneMap)
    ensures var after := LayoutCell(day, es, m0).positions;
      forall e :: e in after <==> (e in m0 || (e in es && StartsRun(e, day))) && !(e in es && EndsOn(e, day))
    ensures var after := LayoutCell(day, es, m0).positions;
      forall e :: e in after && e in m0 && !(e in es && StartsRun(e, day)) ==> after[e] == m0[e]
  {
    var p := VisitAll(day, DayPass(m0, [], []), es);
    VisitAllHeld(day, DayPass(m0, [], []), es);
    ReleaseKeys(p.held, p.finished);
    forall e ensures e in p.finished <==> e in es && EndsOn(e, day) {
      EndingMembers(es, day, e);
    }
  }

  /**
    Deferred release: an event that held a lane as the day began and ends
    today keeps that lane throughout the day's loop, so no run drawn today
    gets it; it is released only after the loop.
   */
  lemma {:induction false} DeferredRelease(day: int, es: seq<CalendarEvent>, m0: LaneMap, e: CalendarEvent, i: nat)
    requires e in m0 && e in es && EndsOn(e, day) && !StartsRun(e, day)
    requires i <= |es|
    ensures var held := VisitAll(day, DayPass(m0, [], []), es[..i]).held;
      e in held && held[e] == m0[e]
    ensures var c := LayoutCell(day, es, m0).cell;
      forall k :: 0 <= k < |c.entries| && c.entries[k].FullDay? ==> c.entries[k].lane != m0[e]
    ensures e !in LayoutCell(day, es, m0).positions
  {
    var p0 := DayPass(m0, [], []);
    assert e !in RunSet(es[..i], day);
    VisitAllHeld(day, p0, es[..i]);
    assert e !in RunSet(es, day);
    BarsAvoidHeld(day, p0, es);
    var c := LayoutCell(day, es, m0).cell;
    assert c.entries == VisitAll(day, p0, es).entries;
    ReleaseAtEndOfDay(day, es, m0);
  }

  /**
    The cell's entries are the day's shown events in list order: a bar for
    each full-day event starting a run, a line for each timed event.
   */
  lemma {:induction false} CellEntries(day: int, es: seq<CalendarEvent>, m0: LaneMap)
    ensures var c := LayoutCell(day, es, m0).cell;
      && c.day == day
      && |c.entries| == |ShownEvents(es, day)|
      && forall k :: 0 <= k < |c.entries| ==>
           c.entries[k].event == ShownEvents(es, day)[k] &&
           (c.entries[k].FullDay? <==> c.entries[k].event.fullDay)
  {
    VisitAllEntries(day, DayPass(m0, [], []), es);
  }

  /** A full-day event of the day's list that starts a run has a bar in the cell. */
  lemma {:induction false} RunHasBar(day: int, es: seq<CalendarEvent>, m0: LaneMap, e: CalendarEvent)
    requires e in es && StartsRun(e, day)
    ensures HasBar(LayoutCell(day, es, m0).cell, e)
  {
    CellEntries(day, es, m0);
    ShownMembers(es, day, e);
    var shown := ShownEvents(es, day);
    var k :| 0 <= k < |shown| && shown[k] == e;
    assert LayoutCell(day, es, m0).cell.entries[k].event == e;
  }

  /**
    When every listed event occupies the cell's day, each bar ends on
    min(event end day, end of the week): never after the event's end, never
    after the row's Sunday, never before the cell's day; it so spans 0 to 6
    days beyond the cell.
   */
  lemma {:induction false} BarWithinWeek(day: int, es: seq<CalendarEvent>, m0: LaneMap)
    requires forall e :: e in es ==> Covers(e, day)
    ensures var c := LayoutCell(day, es, m0).cell;
      forall k :: 0 <= k < |c.entries| && c.entries[k].FullDay? ==>
        var b := c.entries[k];
        && b.endDay == MinDates(DayOf(b.event.end), EndOfWeek(day))
        && day <= b.endDay <= DayOf(b.event.end)
        && b.endDay <= EndOfWeek(day)
        && b.days == b.endDay - day
        && 0 <= b.days <= 6
  {
    VisitAllEntries(day, DayPass(m0, [], []), es);
    CellEntries(day, es, m0);
    var c := LayoutCell(day, es, m0).cell;
    var shown := ShownEvents(es, day);
    forall k | 0 <= k < |c.entries| && c.entries[k].FullDay?
      ensures Covers(c.entries[k].event, day)
    {
      assert c.entries[k].event == shown[k] && shown[k] in shown;
      ShownMembers(es, day, shown[k]);
    }
  }
}
