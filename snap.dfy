/**
 * The orthogonal snap applied to a dragged path vertex: with both
 * neighbours the vertex goes to the nearer of the two L-corners they span,
 * with one neighbour one axis is locked to it, and the result is rounded to
 * two decimals.
 */
module Snap {
  import opened Wrappers
  import opened Geometry
  import opened Staging

  /** The corner that takes its x from `prev` and its z from `next`. */
  function CornerA(prev: Point, next: Point): Point { Point(prev.x, next.z) }

  /** The corner that takes its x from `next` and its z from `prev`. */
  function CornerB(prev: Point, next: Point): Point { Point(next.x, prev.z) }

  /** The snap on the raw cursor position, before rounding. */
  function SnapRaw(raw: Point, prev: Option<Point>, next: Option<Point>): Point {
    if prev.Some? && next.Some? then
      if DistSq(raw, CornerA(prev.value, next.value)) < DistSq(raw, CornerB(prev.value, next.value))
      then CornerA(prev.value, next.value)
      else CornerB(prev.value, next.value)
    else if prev.Some? then LockNearerAxis(raw, prev.value)
    else if next.Some? then LockNearerAxis(raw, next.value)
    else raw
  }

  /** One neighbour: lock x when the neighbour is closer in x than in z, else lock z. */
  function LockNearerAxis(raw: Point, n: Point): Point {
    if Abs(n.x - raw.x) < Abs(n.z - raw.z) then Point(n.x, raw.z) else Point(raw.x, n.z)
  }

  /**
   * With both neighbours the snapped point is one of the two L-corners, it is
   * corner A exactly when A is strictly nearer to the cursor, and it is never
   * farther from the cursor than the other corner; either way the segments to
   * both neighbours become axis-parallel.
   */
  lemma SnapBothNeighbours(raw: Point, prev: Point, next: Point)
    ensures var r := SnapRaw(raw, Some(prev), Some(next));
      && (r == CornerA(prev, next) <==> DistSq(raw, CornerA(prev, next)) < DistSq(raw, CornerB(prev, next)) || CornerA(prev, next) == CornerB(prev, next))
      && (r == CornerA(prev, next) || r == CornerB(prev, next))
      && DistSq(raw, r) <= DistSq(raw, CornerA(prev, next))
      && DistSq(raw, r) <= DistSq(raw, CornerB(prev, next))
      && (r.x == prev.x || r.z == prev.z) && (r.x == next.x || r.z == next.z)
  {
  }

  /**
   * With one neighbour exactly the nearer axis is locked to it and the other
   * keeps the cursor value; the segment to that neighbour becomes axis-parallel.
   */
  lemma SnapOneNeighbour(raw: Point, n: Point)
    ensures SnapRaw(raw, Some(n), None) == LockNearerAxis(raw, n)
    ensures SnapRaw(raw, None, Some(n)) == LockNearerAxis(raw, n)
    ensures var r := LockNearerAxis(raw, n);
      && (Abs(n.x - raw.x) < Abs(n.z - raw.z) ==> r.x == n.x && r.z == raw.z)
      && (Abs(n.x - raw.x) >= Abs(n.z - raw.z) ==> r.z == n.z && r.x == raw.x)
      && (r.x == n.x || r.z == n.z)
  {
  }

  /** A vertex with no neighbour is not snapped. */
  lemma SnapNoNeighbour(raw: Point)
    ensures SnapRaw(raw, None, None) == raw
  {
  }

  /** A worked case: from (1, 9) between (0, 0) and (10, 10) the vertex goes to corner (0, 10). */
  lemma SnapExample()
    ensures SnapRaw(Point(1.0, 9.0), Some(Point(0.0, 0.0)), Some(Point(10.0, 10.0))) == Point(0.0, 10.0)
  {
    assert DistSq(Point(1.0, 9.0), Point(0.0, 10.0)) == 2.0;
    assert DistSq(Point(1.0, 9.0), Point(10.0, 0.0)) == 162.0;
  }

  // ----------------------------------------------------- in the staging buffer

  /** The index of the first staged list that holds the vertex (the loop's `break`). */
  function ListHolding(st: seq<Staged>, id: nat): (r: Option<nat>)
    ensures r.None? <==> forall i :: 0 <= i < |st| ==> FirstWithId(st[i].verts, id).None?
    ensures r.Some? ==> r.value < |st| && FirstWithId(st[r.value].verts, id).Some?
                        && forall i :: 0 <= i < r.value ==> FirstWithId(st[i].verts, id).None?
  {
    var flags := seq(|st|, i requires 0 <= i < |st| => FirstWithId(st[i].verts, id).Some?);
    assert forall i :: 0 <= i < |st| ==> flags[i] == FirstWithId(st[i].verts, id).Some?;
    FirstTrue(flags)
  }

  function Prev(vs: seq<SVertex>, k: nat): Option<Point>
    requires k < |vs|
  {
    if k > 0 then Some(vs[k - 1].pos) else None
  }

  function Next(vs: seq<SVertex>, k: nat): Option<Point>
    requires k < |vs|
  {
    if k < |vs| - 1 then Some(vs[k + 1].pos) else None
  }

  /**
   * Where a dragged vertex ends up: when snapping is on (orthogonal mode and
   * a highlighted line), the snap against its neighbours in the first staged
   * list holding it; then both coordinates are rounded to two decimals.
   */
  function DragPosition(st: seq<Staged>, id: nat, raw: Point, snap: bool): (r: Point)
    ensures IsHundredths(r.x) && IsHundredths(r.z)
  {
    if !snap then RoundPoint(raw)
    else match ListHolding(st, id)
      case None => RoundPoint(raw)
      case Some(i) =>
        var vs := st[i].verts;
        var k := FirstWithId(vs, id).value;
        RoundPoint(SnapRaw(raw, Prev(vs, k), Next(vs, k)))
  }

  /**
   * When the neighbours already lie on the two-decimal grid (as vertices
   * placed by a drag, an insert or the coordinate fields do; loaded vertices
   * and new stations need not), rounding keeps the snapped vertex
   * axis-aligned with each neighbour.
   */
  lemma DragKeepsAlignment(raw: Point, prev: Point, next: Point)
    requires IsHundredths(prev.x) && IsHundredths(prev.z) && IsHundredths(next.x) && IsHundredths(next.z)
    ensures var r := RoundPoint(SnapRaw(raw, Some(prev), Some(next)));
      (r.x == prev.x || r.z == prev.z) && (r.x == next.x || r.z == next.z)
    ensures var r := RoundPoint(SnapRaw(raw, Some(prev), None)); r.x == prev.x || r.z == prev.z
  {
    Round2OfHundredths(prev.x);
    Round2OfHundredths(prev.z);
    Round2OfHundredths(next.x);
    Round2OfHundredths(next.z);
  }

  /** Without snapping the dragged vertex is the cursor position rounded to two decimals. */
  lemma DragWithoutSnap(st: seq<Staged>, id: nat, raw: Point)
    ensures DragPosition(st, id, raw, false) == RoundPoint(raw)
    ensures !Holds(st, id) ==> DragPosition(st, id, raw, true) == RoundPoint(raw)
  {
  }
}
