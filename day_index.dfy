/**
  The day index of the calendar (`#eventsMap`, filled by `#fillEventMap`):
  a map from day number to the events occupying that day, in order of start.
  This module holds the functions that specify it and the lemmas about them;
  the method that fills it is CalendarView.Calendar.FillEventMap.
 */
module DayIndex {
  import opened Dates
  import opened Events

  type Index = map<int, seq<CalendarEvent>>

  /** `this.#eventsMap.get(id) || []`: a day with no entry has no events. */
  function Get(index: Index, d: int): seq<CalendarEvent>
  {
    if d in index then index[d] else []
  }

  predicate SortedByStart(s: seq<CalendarEvent>)
  {
    forall i, j :: 0 <= i < j < |s| ==> s[i].start <= s[j].start
  }

  /** Inserts `e` into a list sorted by start, keeping it sorted. */
  function Insert(e: CalendarEvent, s: seq<CalendarEvent>): (r: seq<CalendarEvent>)
    requires SortedByStart(s)
    ensures SortedByStart(r)
    ensures multiset(r) == multiset(s) + multiset{e}
    ensures |r| == |s| + 1
    ensures r[0] == if s == [] || e.start < s[0].start then e else s[0]
  {
    if s == [] then [e]
    else if e.start < s[0].start then [e] + s
    else
      assert s == [s[0]] + s[1..];
      [s[0]] + Insert(e, s[1..])
  }

  /**
    The sorted copy `[...events].sort((a, b) => a.start < b.start ? -1 : 1)`:
    ordered by non-decreasing start and a permutation of the input. Each
    event is inserted after the earlier ones with the same start, so events
    with equal starts keep their input order, as a stable sort keeps them.
   */
  function SortByStart(s: seq<CalendarEvent>): (r: seq<CalendarEvent>)
    ensures SortedByStart(r)
    ensures multiset(r) == multiset(s)
  {
    if s == [] then []
    else
      assert s == s[..|s| - 1] + [s[|s| - 1]];
      Insert(s[|s| - 1], SortByStart(s[..|s| - 1]))
  }

  /** The events of `s` that occupy day `d`, in the order of `s`. */
  function Covering(s: seq<CalendarEvent>, d: int): seq<CalendarEvent>
  {
    if s == [] then []
    else
      var e := s[|s| - 1];
      Covering(s[..|s| - 1], d) + (if Covers(e, d) then [e] else [])
  }

  /** The inner loop of `#fillEventMap`: append `e` to the list of each day in `days`. */
  function AddToDays(index: Index, e: CalendarEvent, days: seq<int>): Index
  {
    if days == [] then index
    else
      var m := AddToDays(index, e, days[..|days| - 1]);
      var d := days[|days| - 1];
      m[d := Get(m, d) + [e]]
  }

  /** The outer loop of `#fillEventMap`: append each event of `s`, in order, to its days. */
  function BuildIndex(index: Index, s: seq<CalendarEvent>): Index
  {
    if s == [] then index
    else
      var e := s[|s| - 1];
      AddToDays(BuildIndex(index, s[..|s| - 1]), e, DaysBetween(DayOf(e.start), DayOf(e.end)))
  }

  /** One more event: the index of the first `i + 1` events appends the event at `i` to its days. */
  lemma BuildIndexSnoc(index: Index, s: seq<CalendarEvent>, i: nat)
    requires i < |s|
    ensures BuildIndex(index, s[..i + 1])
            == AddToDays(BuildIndex(index, s[..i]), s[i], DaysBetween(DayOf(s[i].start), DayOf(s[i].end)))
  {
    assert s[..i + 1][..i] == s[..i];
  }

  /** One more day: appending to the first `j + 1` days of `days` appends to day `days[j]`. */
  lemma AddToDaysSnoc(index: Index, e: CalendarEvent, days: seq<int>, j: nat)
    requires j < |days|
    ensures AddToDays(index, e, days[..j + 1])
            == var m := AddToDays(index, e, days[..j]); m[days[j] := Get(m, days[j]) + [e]]
  {
    assert days[..j + 1][..j] == days[..j];
  }

  /** Appending an event to a run of consecutive days `lo, lo + 1, ...` adds it to exactly those days' lists... */
  lemma {:induction false} AddToDaysGet(index: Index, e: CalendarEvent, lo: int, days: seq<int>)
    requires forall k :: 0 <= k < |days| ==> days[k] == lo + k
    ensures forall d :: Get(AddToDays(index, e, days), d)
                        == Get(index, d) + (if lo <= d < lo + |days| then [e] else [])
  {
    if days != [] {
      AddToDaysGet(index, e, lo, days[..|days| - 1]);
    }
  }

  /** ... and gives exactly those days an entry. */
  lemma {:induction false} AddToDaysKeys(index: Index, e: CalendarEvent, lo: int, days: seq<int>)
    requires forall k :: 0 <= k < |days| ==> days[k] == lo + k
    ensures forall d :: d in AddToDays(index, e, days) <==> d in index || lo <= d < lo + |days|
  {
    if days != [] {
      AddToDaysKeys(index, e, lo, days[..|days| - 1]);
    }
  }

  /**
    The index maps every day to its old list followed by the events of `s`
    that occupy it, in the order of `s`.
   */
  lemma {:induction false} IndexCovering(index: Index, s: seq<CalendarEvent>)
    ensures forall d :: Get(BuildIndex(index, s), d) == Get(index, d) + Covering(s, d)
  {
    if s != [] {
      var e := s[|s| - 1];
      var lo, hi := DayOf(e.start), DayOf(e.end);
      IndexCovering(index, s[..|s| - 1]);
      var days := DaysBetween(lo, hi);
      AddToDaysGet(BuildIndex(index, s[..|s| - 1]), e, lo, days);
      forall d ensures Get(BuildIndex(index, s), d) == Get(index, d) + Covering(s, d) {
        assert lo <= d < lo + |days| <==> Covers(e, d);
      }
    }
  }

  /** A day gets an entry in the index exactly when it had one or some event of `s` occupies it. */
  lemma {:induction false} IndexDays(index: Index, s: seq<CalendarEvent>)
    ensures forall d :: d in BuildIndex(index, s) <==> d in index || Covering(s, d) != []
  {
    if s != [] {
      var e := s[|s| - 1];
      var lo, hi := DayOf(e.start), DayOf(e.end);
      IndexDays(index, s[..|s| - 1]);
      var days := DaysBetween(lo, hi);
      AddToDaysKeys(BuildIndex(index, s[..|s| - 1]), e, lo, days);
      forall d ensures d in BuildIndex(index, s) <==> d in index || Covering(s, d) != [] {
        assert lo <= d < lo + |days| <==> Covers(e, d);
      }
    }
  }

  /** An event is listed on day `d` exactly when it is in `s` and occupies `d`. */
  lemma {:induction false} CoveringMembers(s: seq<CalendarEvent>, d: int, e: CalendarEvent)
    ensures e in Covering(s, d) <==> e in s && Covers(e, d)
  {
    if s != [] {
      CoveringMembers(s[..|s| - 1], d, e);
      assert s == s[..|s| - 1] + [s[|s| - 1]];
    }
  }

  /** Each day's list holds an event as many times as the input does, if it occupies that day. */
  lemma {:induction false} CoveringCount(s: seq<CalendarEvent>, d: int, e: CalendarEvent)
    ensures multiset(Covering(s, d))[e] == if Covers(e, d) then multiset(s)[e] else 0
  {
    if s != [] {
      CoveringCount(s[..|s| - 1], d, e);
      assert s == s[..|s| - 1] + [s[|s| - 1]];
    }
  }

  /** Selecting the events of a day keeps the order by start. */
  lemma {:induction false} CoveringSorted(s: seq<CalendarEvent>, d: int)
    requires SortedByStart(s)
    ensures SortedByStart(Covering(s, d))
  {
    if s != [] {
      var init, e := s[..|s| - 1], s[|s| - 1];
      CoveringSorted(init, d);
      var c := Covering(init, d);
      forall k | 0 <= k < |c| ensures c[k].start <= e.start {
        CoveringMembers(init, d, c[k]);
      }
    }
  }

  /**
    The index built from the sorted copy of `events`: every day from an
    event's start day to its end day lists it, as many times as the input
    holds it (once for distinct events), no day lists an event that does not
    occupy it, and every day's list is ordered by non-decreasing start.
   */
  lemma {:induction false} DayLists(events: seq<CalendarEvent>, d: int, e: CalendarEvent)
    ensures var list := Get(BuildIndex(map[], SortByStart(events)), d);
      && SortedByStart(list)
      && multiset(list)[e] == (if Covers(e, d) then multiset(events)[e] else 0)
      && (e in list <==> e in events && Covers(e, d))
  {
    var sorted := SortByStart(events);
    IndexCovering(map[], sorted);
    var list := Get(BuildIndex(map[], sorted), d);
    assert list == Covering(sorted, d);
    CoveringSorted(sorted, d);
    CoveringCount(sorted, d, e);
    assert e in list <==> multiset(list)[e] > 0;
    assert e in events <==> multiset(events)[e] > 0;
  }
}
