/**
  Lanes: the vertical offsets given to full-day event bars within a week row.
  The lane map of the calendar (`positionMap`) maps each event that holds a
  lane to its lane number.
 */
module Lanes {
  import opened Events

  type LaneMap = map<CalendarEvent, nat>

  /** No two events held in the map share a lane. */
  ghost predicate Injective(m: LaneMap)
  {
    forall a, b :: a in m && b in m && a != b ==> m[a] != m[b]
  }

  /** The least lane at or above `i` that is not in `held`, given all lanes below `i` are. */
  function LeastFreeFrom(held: set<nat>, i: nat): (p: nat)
    ensures i <= p && p !in held
    ensures forall j :: i <= j < p ==> j in held
    decreases set j | j in held && i <= j
  {
    if i in held then
      var above, above' := set j | j in held && i <= j, set j | j in held && i + 1 <= j;
      assert i in above && i !in above';
      assert above' < above;
      LeastFreeFrom(held, i + 1)
    else i
  }

  /** The reference definition of a free lane: the least lane nobody holds. */
  function LeastFree(held: set<nat>): (p: nat)
    ensures p !in held
    ensures forall j :: 0 <= j < p ==> j in held
  {
    LeastFreeFrom(held, 0)
  }

  /** The two properties of LeastFree determine it. */
  lemma LeastFreeUnique(held: set<nat>, p: nat)
    requires p !in held
    requires forall j :: 0 <= j < p ==> j in held
    ensures p == LeastFree(held)
  {
  }

  /** The lanes 0 .. n-1. */
  function Below(n: nat): (r: set<nat>)
    ensures forall j :: j in r <==> 0 <= j < n
    ensures |r| == n
  {
    if n == 0 then {}
    else
      Below(n - 1) + {n - 1}
  }

  /**
    The lanes stay dense: the chosen lane is never more than the number of
    lanes already held, so no visual column is left empty below it.
   */
  lemma LeastFreeBound(held: set<nat>)
    ensures LeastFree(held) <= |held|
  {
    var p := LeastFree(held);
    var below := Below(p);
    assert below <= held;
    assert |held| == |below| + |held - below|;
  }

  /** Giving an event the least free lane keeps the lanes distinct. */
  lemma AssignKeepsInjective(m: LaneMap, e: CalendarEvent)
    requires Injective(m)
    ensures Injective(m[e := LeastFree(m.Values)])
  {
    var p := LeastFree(m.Values);
    forall a | a in m && a != e ensures m[a] != p {
      assert m[a] in m.Values;
    }
  }
}
