/** `triangulate_polygon`: build the events, sort them, and walk them while
    keeping the active chain. The walk is proved for every sorted rearrangement
    of the events, so for every order the sort may give to events that tie. */
module Sweep {
  import opened Geometry
  import opened Machine
  import opened Vectors
  import opened Events
  import opened ActiveChain

  /** What the sort promises: the events are the constructed list, rearranged so
      that no event is preceded by a later one. */
  predicate SweepOrder(points: seq<Point>, events: seq<Event>)
  {
    Sorted(events) && multiset(events) == multiset(EventsOf(points))
  }

  function StartOf(points: seq<Point>, j: int): Event
    requires 0 <= j < |points|
  {
    Event(Start, j, points[j])
  }

  function EndOf(points: seq<Point>, j: int): Event
    requires 0 <= j < |points|
  {
    Event(End, j, points[j])
  }

  /** The sorted list holds 2n events, none twice: the START and the END of each
      vertex, each with that vertex's coordinates. */
  lemma SweepOrderEvents(points: seq<Point>, events: seq<Event>)
    requires SweepOrder(points, events)
    ensures |events| == 2 * |points|
    ensures Distinct(events)
    ensures forall e :: e in events <==> 0 <= e.index < |points| && e.point == points[e.index]
  {
    calc {
      |events|;
      |multiset(events)|;
      |multiset(EventsOf(points))|;
      2 * |points|;
    }
    EventsOfDistinct(points);
    PermutationDistinct(events, EventsOf(points));
    forall e ensures e in events <==> 0 <= e.index < |points| && e.point == points[e.index] {
      assert e in events <==> e in multiset(events);
      EventsOfMembers(points, e);
    }
  }

  /** At equal x every START comes before every END. */
  lemma StartsBeforeEnds(events: seq<Event>, a: nat, b: nat)
    requires Sorted(events) && a < |events| && b < |events|
    requires events[a].kind == Start && events[b].kind == End
    requires events[a].point.x == events[b].point.x
    ensures a < b
  {
    assert Precedes(events[a], events[b]);
  }

  /** Every vertex's START is handled before its END. */
  lemma StartBeforeEnd(points: seq<Point>, events: seq<Event>, j: int)
    requires SweepOrder(points, events) && 0 <= j < |points|
    ensures Find(events, StartOf(points, j)) < Find(events, EndOf(points, j)) < |events|
  {
    SweepOrderEvents(points, events);
    var a, b := Find(events, StartOf(points, j)), Find(events, EndOf(points, j));
    StartsBeforeEnds(events, a, b);
  }

  /** The event at position k is the START or the END of a vertex, carries that
      vertex's coordinates, and occurs nowhere else. */
  lemma EventAtPosition(points: seq<Point>, events: seq<Event>, k: nat)
    requires SweepOrder(points, events) && k < |events|
    ensures 0 <= events[k].index < |points|
    ensures events[k].point == points[events[k].index]
    ensures Find(events, events[k]) == k
  {
    SweepOrderEvents(points, events);
    assert events[k] in events;
    FindDistinct(events, k);
  }

  /** The indices of the START events of `scan` that are not in `ended`, in the
      order of those events. */
  function Started(scan: seq<Event>, ended: set<int>): seq<int>
  {
    if scan == [] then []
    else
      var last := scan[|scan| - 1];
      Started(scan[..|scan| - 1], ended) + (if last.kind == Start && last.index !in ended then [last.index] else [])
  }

  /** The indices whose END is among the handled events. */
  function Ended(handled: seq<Event>): set<int>
  {
    set e | e in handled && e.kind == End :: e.index
  }

  /** The reference description of the active chain: the vertices whose START has
      been handled and whose END has not, in the order their STARTs were handled. */
  function Open(handled: seq<Event>): seq<int>
  {
    Started(handled, Ended(handled))
  }

  predicate HasStart(scan: seq<Event>, j: int)
  {
    exists m :: 0 <= m < |scan| && scan[m].kind == Start && scan[m].index == j
  }

  lemma {:induction false} StartedMembers(scan: seq<Event>, ended: set<int>, j: int)
    ensures j in Started(scan, ended) <==> j !in ended && HasStart(scan, j)
  {
    if scan != [] {
      var init := scan[..|scan| - 1];
      StartedMembers(init, ended, j);
      if HasStart(init, j) {
        var m :| 0 <= m < |init| && init[m].kind == Start && init[m].index == j;
        assert scan[m] == init[m];
      }
    }
  }

  lemma {:induction false} StartedWithout(scan: seq<Event>, ended: set<int>, j: int)
    ensures Started(scan, ended + {j}) == Without(Started(scan, ended), j)
  {
    if scan != [] {
      var init := scan[..|scan| - 1];
      var last := scan[|scan| - 1];
      StartedWithout(init, ended, j);
      var s0 := Started(init, ended);
      var tail := if last.kind == Start && last.index !in ended then [last.index] else [];
      WithoutAppend(s0, tail, j);
      if tail != [] {
        assert Without(tail, j) == (if last.index == j then [] else [last.index]) by {
          assert tail[..0] == [];
        }
      }
    }
  }

  /** No two STARTs of `scan` name the same vertex. */
  predicate StartsUnique(scan: seq<Event>)
  {
    forall a, b :: 0 <= a < b < |scan| && scan[a].kind == Start && scan[b].kind == Start ==>
      scan[a].index != scan[b].index
  }

  lemma {:induction false} StartedDistinct(scan: seq<Event>, ended: set<int>)
    requires StartsUnique(scan)
    ensures Distinct(Started(scan, ended))
  {
    if scan != [] {
      var init := scan[..|scan| - 1];
      var last := scan[|scan| - 1];
      assert StartsUnique(init) by {
        forall a, b | 0 <= a < b < |init| ensures
          init[a].kind == Start && init[b].kind == Start ==> init[a].index != init[b].index
        {
          assert init[a] == scan[a] && init[b] == scan[b];
        }
      }
      StartedDistinct(init, ended);
      if last.kind == Start && last.index !in ended {
        StartedMembers(init, ended, last.index);
      }
    }
  }

  /** Membership in the reference chain, by positions in the sorted list: vertex j
      is open after the first k events exactly when its START is among them and
      its END is not. */
  lemma OpenMembers(points: seq<Point>, events: seq<Event>, k: nat, j: int)
    requires SweepOrder(points, events) && k <= |events|
    ensures j in Open(events[..k]) <==>
      0 <= j < |points| && Find(events, StartOf(points, j)) < k <= Find(events, EndOf(points, j))
  {
    SweepOrderEvents(points, events);
    var handled := events[..k];
    StartedMembers(handled, Ended(handled), j);
    if HasStart(handled, j) {
      var m :| 0 <= m < |handled| && handled[m].kind == Start && handled[m].index == j;
      assert handled[m] in events;
      assert handled[m] == StartOf(points, j);
      FindInPrefix(events, StartOf(points, j), k);
    }
    if 0 <= j < |points| {
      FindInPrefix(events, StartOf(points, j), k);
      FindInPrefix(events, EndOf(points, j), k);
      if Find(events, StartOf(points, j)) < k {
        assert handled[Find(events, StartOf(points, j))] == StartOf(points, j);
      }
      if j in Ended(handled) {
        var e :| e in handled && e.kind == End && e.index == j;
        assert e in events;
        assert e == EndOf(points, j);
      }
      if EndOf(points, j) in handled {
        assert j in Ended(handled);
      }
    }
  }

  /** The reference chain has no repeats, names only vertices, and so holds at
      most one entry per vertex. */
  lemma OpenFacts(points: seq<Point>, events: seq<Event>, k: nat)
    requires SweepOrder(points, events) && k <= |events|
    ensures Distinct(Open(events[..k]))
    ensures InRange(points, Open(events[..k]))
    ensures |Open(events[..k])| <= |points|
  {
    SweepOrderEvents(points, events);
    var handled := events[..k];
    assert StartsUnique(handled) by {
      forall a, b | 0 <= a < b < |handled| && handled[a].kind == Start && handled[b].kind == Start
        ensures handled[a].index != handled[b].index
      {
        assert handled[a] == events[a] && handled[b] == events[b];
        assert handled[a] in events && handled[b] in events;
      }
    }
    StartedDistinct(handled, Ended(handled));
    var open := Open(handled);
    forall m | 0 <= m < |open| ensures 0 <= open[m] < |points| {
      OpenMembers(points, events, k, open[m]);
    }
    DistinctBelow(open, |points|);
  }

  /** The reference chain lies on the sweep line: every open vertex has the x of
      the next event to handle. */
  lemma OpenOnColumn(points: seq<Point>, events: seq<Event>, k: nat)
    requires SweepOrder(points, events) && k < |events|
    ensures forall c :: c in Open(events[..k]) ==>
      0 <= c < |points| && points[c].x == events[k].point.x
  {
    SweepOrderEvents(points, events);
    forall c | c in Open(events[..k]) ensures 0 <= c < |points| && points[c].x == events[k].point.x {
      OpenMembers(points, events, k, c);
      var a, b := Find(events, StartOf(points, c)), Find(events, EndOf(points, c));
      assert !Precedes(events[k], events[a]);
      if b != k {
        assert !Precedes(events[b], events[k]);
      }
    }
  }

  /** Handling a START appends its vertex to the reference chain. */
  lemma OpenAfterStart(points: seq<Point>, events: seq<Event>, k: nat)
    requires SweepOrder(points, events) && k < |events| && events[k].kind == Start
    ensures Open(events[..k + 1]) == Open(events[..k]) + [events[k].index]
  {
    SweepOrderEvents(points, events);
    var e := events[k];
    var handled, handled' := events[..k], events[..k + 1];
    assert handled'[..k] == handled;
    assert Ended(handled') == Ended(handled) by {
      assert handled' == handled + [e];
    }
    assert e == StartOf(points, e.index) by { assert e in events; }
    FindDistinct(events, k);
    StartBeforeEnd(points, events, e.index);
    OpenMembers(points, events, k + 1, e.index);
  }

  /** Handling an END takes its vertex, which is open, out of the reference chain. */
  lemma OpenAfterEnd(points: seq<Point>, events: seq<Event>, k: nat)
    requires SweepOrder(points, events) && k < |events| && events[k].kind == End
    ensures events[k].index in Open(events[..k])
    ensures Open(events[..k + 1]) == Without(Open(events[..k]), events[k].index)
  {
    SweepOrderEvents(points, events);
    var e := events[k];
    var handled, handled' := events[..k], events[..k + 1];
    assert handled'[..k] == handled;
    assert Ended(handled') == Ended(handled) + {e.index} by {
      assert handled' == handled + [e];
    }
    assert e == EndOf(points, e.index) by { assert e in events; }
    FindDistinct(events, k);
    StartBeforeEnd(points, events, e.index);
    OpenMembers(points, events, k, e.index);
    StartedWithout(handled, Ended(handled), e.index);
  }

  /** Once every event is handled, and whenever the next event starts a new x,
      the reference chain is empty. */
  lemma OpenEmptyAtColumnEnd(points: seq<Point>, events: seq<Event>, k: nat)
    requires SweepOrder(points, events) && k <= |events|
    requires k == |events| || (0 < k && events[k - 1].point.x < events[k].point.x)
    ensures Open(events[..k]) == []
  {
    SweepOrderEvents(points, events);
    var open := Open(events[..k]);
    if open != [] {
      var c := open[0];
      OpenMembers(points, events, k, c);
      OpenOnColumn(points, events, k);
      assert false;
    }
  }

  /** `open` names vertices whose STARTs are among the first k events, in the
      order of those STARTs. */
  predicate InStartOrder(points: seq<Point>, events: seq<Event>, open: seq<int>, k: nat)
  {
    InRange(points, open) &&
    (forall a :: 0 <= a < |open| ==> Find(events, StartOf(points, open[a])) < k) &&
    forall a, b :: 0 <= a < b < |open| ==>
      Find(events, StartOf(points, open[a])) < Find(events, StartOf(points, open[b]))
  }

  lemma InStartOrderAppend(points: seq<Point>, events: seq<Event>, open: seq<int>, k: nat, j: int)
    requires InStartOrder(points, events, open, k)
    requires 0 <= j < |points| && Find(events, StartOf(points, j)) == k
    ensures InStartOrder(points, events, open + [j], k + 1)
  {
    var open' := open + [j];
    forall a, b | 0 <= a < b < |open'|
      ensures Find(events, StartOf(points, open'[a])) < Find(events, StartOf(points, open'[b]))
    {
      assert open'[a] == open[a];
      if b < |open| {
        assert open'[b] == open[b];
      }
    }
  }

  /** The reference chain lists the open vertices in the order their STARTs
      were handled. */
  lemma {:induction false} OpenInStartOrder(points: seq<Point>, events: seq<Event>, k: nat, ended: set<int>)
    requires SweepOrder(points, events) && k <= |events|
    ensures InStartOrder(points, events, Started(events[..k], ended), k)
  {
    if k > 0 {
      OpenInStartOrder(points, events, k - 1, ended);
      assert events[..k][..k - 1] == events[..k - 1];
      var e := events[k - 1];
      var prev := Started(events[..k - 1], ended);
      if e.kind == Start && e.index !in ended {
        EventAtPosition(points, events, k - 1);
        assert e == StartOf(points, e.index);
        assert Started(events[..k], ended) == prev + [e.index];
        InStartOrderAppend(points, events, prev, k - 1, e.index);
      } else {
        assert Started(events[..k], ended) == prev;
      }
    }
  }

  /** The walk over the sorted events (the loop of `triangulate_polygon`). For
      every sorted rearrangement of the events it keeps the active chain equal to
      the reference chain, never trips either vector hazard, emits nothing, and
      leaves the chain empty at the end. */
  method Walk(points: seq<Point>, events: seq<Event>) returns (triangles: seq<Triangle>, chain: seq<int>)
    requires |points| <= INT_MAX
    requires SweepOrder(points, events)
    ensures triangles == []
    ensures chain == []
  {
    SweepOrderEvents(points, events);
    chain := [];
    triangles := [];
    for k := 0 to |events|
      invariant chain == Open(events[..k])
      invariant triangles == []
    {
      var e := events[k];
      assert e in events;
      OpenFacts(points, events, k);
      OpenOnColumn(points, events, k);
      if e.kind == Start {
        OpenAfterStart(points, events, k);
        chain, triangles := StartEvent(points, chain, e.index, triangles);
      } else {
        OpenAfterEnd(points, events, k);
        ColumnEndIdle(points, chain, e.index, 0);
        EraseFound(chain, e.index);
        chain, triangles := EndEvent(points, chain, e.index, triangles);
      }
    }
    OpenEmptyAtColumnEnd(points, events, |events|);
    assert events[..|events|] == events;
  }

  /** `triangulate_polygon`: the result is empty for every input. */
  method TriangulatePolygon(points: seq<Point>) returns (triangles: seq<Triangle>)
    requires |points| <= INT_MAX
    ensures triangles == []
  {
    var events := BuildEvents(points);
    events := SortEvents(events);
    var chain;
    triangles, chain := Walk(points, events);
  }
}
