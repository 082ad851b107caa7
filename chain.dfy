/** The handling of one event on the active chain: the vector of vertex indices
    that START events push and END events erase from. Each handler is a loop over
    a position counter; beside it, a recursive function states what the loop
    computes from the state it starts in. */
module ActiveChain {
  import opened Geometry
  import opened Machine
  import opened Vectors

  /** What a scan leaves behind: the chain, and the triangles it emitted in order. */
  datatype Scan = Scan(chain: seq<int>, emitted: seq<Triangle>)

  /** Every chain entry indexes a vertex. */
  predicate InRange(points: seq<Point>, chain: seq<int>)
  {
    forall m :: 0 <= m < |chain| ==> 0 <= chain[m] < |points|
  }

  /** Every chain entry lies on the vertical line through vertex q. */
  predicate OnColumn(points: seq<Point>, chain: seq<int>, q: int)
    requires 0 <= q < |points| && InRange(points, chain)
  {
    forall m :: 0 <= m < |chain| ==> points[chain[m]].x == points[q].x
  }

  /** The backward scan of a START event for vertex q from position i: while the
      pair at i, i + 1 has q above it, emit the pair with q, erase the upper entry
      and step back. */
  function StartScan(points: seq<Point>, chain: seq<int>, q: int, i: int): Scan
    requires 0 <= q < |points| && InRange(points, chain)
    requires -1 <= i <= |chain| - 2
    decreases i + 1
  {
    if i >= 0 && IsAbove(points[q], points[chain[i]], points[chain[i + 1]]) then
      var rest := StartScan(points, EraseAt(chain, i + 1), q, i - 1);
      Scan(rest.chain, [Triangle(chain[i], chain[i + 1], q)] + rest.emitted)
    else
      Scan(chain, [])
  }

  /** The forward scan of an END event for vertex q from position i. Its bound is
      the unsigned `size - 1`, so it needs an entry to start from; it erases the
      upper entry of each pair it emits and still steps forward. */
  function EndScan(points: seq<Point>, chain: seq<int>, q: int, i: int): Scan
    requires 0 <= q < |points| && InRange(points, chain)
    requires 1 <= |chain| < SIZE_MODULUS && 0 <= i <= |chain|
    decreases |chain|
  {
    if i < SizeSub(|chain|, 1) && IsAbove(points[q], points[chain[i]], points[chain[i + 1]]) then
      var rest := EndScan(points, EraseAt(chain, i + 1), q, i + 1);
      Scan(rest.chain, [Triangle(chain[i], chain[i + 1], q)] + rest.emitted)
    else
      Scan(chain, [])
  }

  /** A triangle joins two vertices to q. */
  predicate JoinsTo(points: seq<Point>, t: Triangle, q: int)
  {
    0 <= t.v1 < |points| && 0 <= t.v2 < |points| && t.v3 == q
  }

  /** Whatever the chain, a scan pays for each triangle with one erased entry,
      and every triangle it emits joins two vertices to q. */
  lemma {:induction false} StartScanAccounts(points: seq<Point>, chain: seq<int>, q: int, i: int)
    requires 0 <= q < |points| && InRange(points, chain)
    requires -1 <= i <= |chain| - 2
    ensures var r := StartScan(points, chain, q, i);
      |r.chain| + |r.emitted| == |chain| && InRange(points, r.chain) &&
      forall t :: t in r.emitted ==> JoinsTo(points, t, q)
    decreases i + 1
  {
    if i >= 0 && IsAbove(points[q], points[chain[i]], points[chain[i + 1]]) {
      StartScanAccounts(points, EraseAt(chain, i + 1), q, i - 1);
    }
  }

  lemma {:induction false} EndScanAccounts(points: seq<Point>, chain: seq<int>, q: int, i: int)
    requires 0 <= q < |points| && InRange(points, chain)
    requires 1 <= |chain| < SIZE_MODULUS && 0 <= i <= |chain|
    ensures var r := EndScan(points, chain, q, i);
      |r.chain| + |r.emitted| == |chain| && InRange(points, r.chain) &&
      forall t :: t in r.emitted ==> JoinsTo(points, t, q)
    decreases |chain|
  {
    if i < SizeSub(|chain|, 1) && IsAbove(points[q], points[chain[i]], points[chain[i + 1]]) {
      EndScanAccounts(points, EraseAt(chain, i + 1), q, i + 1);
    }
  }

  /** One step of the backward scan: the pair at i, i + 1 is emitted and the scan
      goes on from i - 1 over the chain without its entry at i + 1. */
  lemma StartScanStep(points: seq<Point>, chain: seq<int>, q: int, i: int)
    requires 0 <= q < |points| && InRange(points, chain)
    requires 0 <= i <= |chain| - 2
    requires IsAbove(points[q], points[chain[i]], points[chain[i + 1]])
    ensures InRange(points, EraseAt(chain, i + 1))
    ensures var rest := StartScan(points, EraseAt(chain, i + 1), q, i - 1);
      StartScan(points, chain, q, i) == Scan(rest.chain, [Triangle(chain[i], chain[i + 1], q)] + rest.emitted)
  {
  }

  /** Right after q is pushed, the first pair the backward scan tests ends in q
      itself, which is never above a segment it ends: the scan stops at once. */
  lemma PushedStartIdle(points: seq<Point>, chain: seq<int>, q: int)
    requires 0 <= q < |points| && InRange(points, chain)
    ensures InRange(points, chain + [q])
    ensures StartScan(points, chain + [q], q, |chain| - 1) == Scan(chain + [q], [])
  {
    var pushed := chain + [q];
    if |chain| >= 1 {
      IsAboveEndpoint(points[q], points[pushed[|chain| - 1]], points[pushed[|chain|]]);
    }
  }

  /** When the whole chain shares q's x, every pair is vertical with q, nothing is
      above anything, and the forward scan stops at once. */
  lemma ColumnEndIdle(points: seq<Point>, chain: seq<int>, q: int, i: int)
    requires 0 <= q < |points| && InRange(points, chain)
    requires 1 <= |chain| < SIZE_MODULUS && 0 <= i <= |chain|
    requires OnColumn(points, chain, q)
    ensures EndScan(points, chain, q, i) == Scan(chain, [])
  {
    if i < SizeSub(|chain|, 1) {
      IsAboveVertical(points[q], points[chain[i]], points[chain[i + 1]]);
    }
  }

  /** The loop of a START event: scan back from position i, emitting and erasing
      as `StartScan` says. */
  method ScanBack(points: seq<Point>, chain: seq<int>, q: int, i: int, triangles: seq<Triangle>)
    returns (chain': seq<int>, triangles': seq<Triangle>)
    requires 0 <= q < |points| && InRange(points, chain)
    requires -1 <= i <= |chain| - 2
    ensures var r := StartScan(points, chain, q, i);
      chain' == r.chain && triangles' == triangles + r.emitted
  {
    var active, j := chain, i;
    var tris := triangles;
    ghost var emitted: seq<Triangle> := [];
    while j >= 0 && IsAbove(points[q], points[active[j]], points[active[j + 1]])
      invariant -1 <= j <= |active| - 2 && InRange(points, active)
      invariant tris == triangles + emitted
      invariant StartScan(points, chain, q, i).chain == StartScan(points, active, q, j).chain
      invariant StartScan(points, chain, q, i).emitted == emitted + StartScan(points, active, q, j).emitted
      decreases j + 1
    {
      var t := Triangle(active[j], active[j + 1], q);
      ghost var next := StartScan(points, EraseAt(active, j + 1), q, j - 1);
      StartScanStep(points, active, q, j);
      assert emitted + ([t] + next.emitted) == (emitted + [t]) + next.emitted;
      tris := tris + [t];
      emitted := emitted + [t];
      active := EraseAt(active, j + 1);
      j := j - 1;
    }
    chain', triangles' := active, tris;
  }

  /** A START event for vertex q: push q, then scan back from the pair that ends
      in it. For every chain, the chain only grows by q and no triangle comes out. */
  method StartEvent(points: seq<Point>, chain: seq<int>, q: int, triangles: seq<Triangle>)
    returns (chain': seq<int>, triangles': seq<Triangle>)
    requires 0 <= q < |points| && InRange(points, chain)
    requires |chain| <= INT_MAX
    ensures chain' == chain + [q]
    ensures triangles' == triangles
  {
    var active := chain + [q];
    LastPairStart(|active|);
    var i := ToInt(SizeSub(|active|, 2));
    PushedStartIdle(points, chain, q);
    chain', triangles' := ScanBack(points, active, q, i, triangles);
  }

  /** The loop of an END event: scan forward from position i, emitting and
      erasing as `EndScan` says. */
  method ScanForward(points: seq<Point>, chain: seq<int>, q: int, i: int, triangles: seq<Triangle>)
    returns (chain': seq<int>, triangles': seq<Triangle>)
    requires 0 <= q < |points| && InRange(points, chain)
    requires 1 <= |chain| <= INT_MAX && 0 <= i <= |chain|
    ensures var r := EndScan(points, chain, q, i);
      chain' == r.chain && triangles' == triangles + r.emitted
  {
    var active, j := chain, i;
    var tris := triangles;
    ghost var emitted: seq<Triangle> := [];
    while j < SizeSub(|active|, 1) && IsAbove(points[q], points[active[j]], points[active[j + 1]])
      invariant 0 <= j <= |active| && 1 <= |active| <= |chain| && InRange(points, active)
      invariant tris == triangles + emitted
      invariant var rest := EndScan(points, active, q, j);
        EndScan(points, chain, q, i) == Scan(rest.chain, emitted + rest.emitted)
      decreases |active|
    {
      var t := Triangle(active[j], active[j + 1], q);
      ghost var next := EndScan(points, EraseAt(active, j + 1), q, j + 1);
      assert EndScan(points, active, q, j) == Scan(next.chain, [t] + next.emitted);
      assert emitted + ([t] + next.emitted) == (emitted + [t]) + next.emitted;
      tris := tris + [t];
      emitted := emitted + [t];
      active := EraseAt(active, j + 1);
      j := j + 1;
    }
    chain', triangles' := active, tris;
  }

  /** An END event for vertex q: scan forward from the bottom of the chain, then
      erase q where `std::find` finds it. The caller must supply an entry for the
      unsigned bound and must leave q on the chain after the scan; on a chain that
      lies on q's vertical line nothing is emitted and q alone is erased. */
  method EndEvent(points: seq<Point>, chain: seq<int>, q: int, triangles: seq<Triangle>)
    returns (chain': seq<int>, triangles': seq<Triangle>)
    requires 0 <= q < |points| && InRange(points, chain)
    requires 1 <= |chain| <= INT_MAX
    requires q in EndScan(points, chain, q, 0).chain
    ensures var r := EndScan(points, chain, q, 0);
      chain' == EraseAt(r.chain, Find(r.chain, q)) && triangles' == triangles + r.emitted
    ensures OnColumn(points, chain, q) ==>
      chain' == EraseAt(chain, Find(chain, q)) && triangles' == triangles
  {
    var active, tris := ScanForward(points, chain, q, 0, triangles);
    var found := Find(active, q);
    chain', triangles' := EraseAt(active, found), tris;
    if OnColumn(points, chain, q) {
      ColumnEndIdle(points, chain, q, 0);
    }
  }
}
