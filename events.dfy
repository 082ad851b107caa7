/** Sweep events: their construction, the comparator the sweep sorts them by,
    and the sort itself. */
module Events {
  import opened Geometry
  import opened Machine
  import opened Vectors

  /** The event kinds, in the order of their enumerator values. */
  datatype Kind = Start | End

  /** The value of the enumerator: START is 0, END is 1. */
  function Rank(k: Kind): int
  {
    match k
    case Start => 0
    case End => 1
  }

  /** A vertex visited by the sweep, carrying a copy of its coordinates. */
  datatype Event = Event(kind: Kind, index: int, point: Point)

  /** A single integer that orders events the way the comparator does: by x, and
      at equal x a START before an END. */
  function SortKey(e: Event): int
  {
    2 * e.point.x + Rank(e.kind)
  }

  /** The sort comparator: ascending x, ties broken by kind. It is a strict weak
      ordering, namely "smaller sort key". */
  function Precedes(e1: Event, e2: Event): (r: bool)
    ensures r <==> SortKey(e1) < SortKey(e2)
  {
    e1.point.x < e2.point.x || (e1.point.x == e2.point.x && Rank(e1.kind) < Rank(e2.kind))
  }

  /** No event is preceded, in the comparator's sense, by a later one. */
  predicate Sorted(s: seq<Event>)
  {
    forall a, b :: 0 <= a < b < |s| ==> !Precedes(s[b], s[a])
  }

  /** The event at position k of the construction loop's output: even positions
      hold the START of vertex k / 2, odd positions its END. */
  function EventAt(points: seq<Point>, k: nat): Event
    requires k < 2 * |points|
  {
    Event(if k % 2 == 0 then Start else End, k / 2, points[k / 2])
  }

  /** Vertex i owns positions 2i (its START) and 2i + 1 (its END). */
  lemma EventAtPair(points: seq<Point>, i: nat)
    requires i < |points|
    ensures EventAt(points, 2 * i) == Event(Start, i, points[i])
    ensures EventAt(points, 2 * i + 1) == Event(End, i, points[i])
  {
  }

  /** The whole list the construction loop produces. */
  function EventsOf(points: seq<Point>): seq<Event>
  {
    seq(2 * |points|, k requires 0 <= k < 2 * |points| => EventAt(points, k))
  }

  /** Builds the event list, one START then one END per vertex, in vertex order. */
  method BuildEvents(points: seq<Point>) returns (events: seq<Event>)
    requires |points| <= INT_MAX
    ensures |events| == 2 * |points|
    ensures forall i :: 0 <= i < |points| ==>
      events[2 * i] == Event(Start, i, points[i]) && events[2 * i + 1] == Event(End, i, points[i])
    ensures events == EventsOf(points)
  {
    events := [];
    var i := 0;
    while i < |points|
      invariant 0 <= i <= |points|
      invariant |events| == 2 * i
      invariant forall k :: 0 <= k < 2 * i ==> events[k] == EventAt(points, k)
    {
      EventAtPair(points, i);
      events := events + [Event(Start, i, points[i])];
      events := events + [Event(End, i, points[i])];
      i := i + 1;
    }
    forall i | 0 <= i < |points|
      ensures events[2 * i] == Event(Start, i, points[i]) && events[2 * i + 1] == Event(End, i, points[i])
    {
      EventAtPair(points, i);
    }
  }

  /** The events of a list are exactly one START and one END for each vertex
      index in range, each carrying that vertex's coordinates. */
  lemma EventsOfMembers(points: seq<Point>, e: Event)
    ensures e in EventsOf(points) <==> 0 <= e.index < |points| && e.point == points[e.index]
  {
    var evs := EventsOf(points);
    if 0 <= e.index < |points| && e.point == points[e.index] {
      var k := 2 * e.index + Rank(e.kind);
      assert evs[k] == e;
    }
  }

  /** The constructed list has no repeated event. */
  lemma EventsOfDistinct(points: seq<Point>)
    ensures Distinct(EventsOf(points))
  {
    var evs := EventsOf(points);
    forall a, b | 0 <= a < b < |evs| ensures evs[a] != evs[b] {
      assert a == 2 * (a / 2) + a % 2 && b == 2 * (b / 2) + b % 2;
    }
  }

  /** Inserts one event into a sorted list after every event it does not precede. */
  method InsertSorted(sorted: seq<Event>, e: Event) returns (r: seq<Event>)
    requires Sorted(sorted)
    ensures Sorted(r)
    ensures multiset(r) == multiset(sorted) + multiset{e}
  {
    var j := 0;
    while j < |sorted| && !Precedes(e, sorted[j])
      invariant 0 <= j <= |sorted|
      invariant forall m :: 0 <= m < j ==> !Precedes(e, sorted[m])
    {
      j := j + 1;
    }
    assert sorted == sorted[..j] + sorted[j..];
    r := sorted[..j] + [e] + sorted[j..];
  }

  /** Sorts the event list by the comparator. Any sorted rearrangement would do:
      the order of events that tie is left open. */
  method SortEvents(events: seq<Event>) returns (sorted: seq<Event>)
    ensures Sorted(sorted)
    ensures multiset(sorted) == multiset(events)
  {
    sorted := [];
    for k := 0 to |events|
      invariant Sorted(sorted)
      invariant multiset(sorted) == multiset(events[..k])
    {
      sorted := InsertSorted(sorted, events[k]);
      assert events[..k + 1] == events[..k] + [events[k]];
    }
    assert events[..|events|] == events;
  }
}
