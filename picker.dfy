/**
 * What lies under the mouse on the map canvas. All tests are made in screen
 * pixels: a station within 15 px, a path segment within 5 px, a staged
 * vertex within 8 px (as squared distances). The first match in iteration
 * order wins.
 */
module Picker {
  import opened Wrappers
  import opened Geometry
  import opened Transit
  import opened Staging

  /** What findAt returns: nothing, a station (its index in the station list), or a line key. */
  datatype Hit = NoHit | StationHit(index: nat) | LineHit(key: LineKey)

  const StationRadiusSq: real := 225.0
  const SegmentRadiusSq: real := 25.0
  const VertexRadiusSq: real := 64.0

  predicate StationNear(v: View, s: Station, m: Point) {
    DistSq(m, ToScreen(v, Point(s.x, s.z))) < StationRadiusSq
  }

  /** The drawn segment from a to b passes within 5 px of the mouse. */
  predicate SegmentNear(v: View, a: Point, b: Point, m: Point) {
    SegDistSq(ToScreen(v, a), ToScreen(v, b), m) < SegmentRadiusSq
  }

  predicate VertexNear(v: View, p: Point, m: Point) {
    DistSq(m, ToScreen(v, p)) < VertexRadiusSq
  }

  /** The first station within reach of the mouse. */
  function FirstStationNear(ss: seq<Station>, v: View, m: Point): (r: Option<nat>)
    ensures r.None? <==> forall i :: 0 <= i < |ss| ==> !StationNear(v, ss[i], m)
    ensures r.Some? ==> r.value < |ss| && StationNear(v, ss[r.value], m)
                        && forall i :: 0 <= i < r.value ==> !StationNear(v, ss[i], m)
  {
    var flags := seq(|ss|, i requires 0 <= i < |ss| => StationNear(v, ss[i], m));
    assert forall i :: 0 <= i < |ss| ==> flags[i] == StationNear(v, ss[i], m);
    FirstTrue(flags)
  }

  /** The first index i whose segment ps[i]..ps[i + 1] lies within reach. */
  function FirstSegmentNear(ps: seq<Point>, v: View, m: Point): (r: Option<nat>)
    ensures r.None? <==> forall i :: 0 <= i < |ps| - 1 ==> !SegmentNear(v, ps[i], ps[i + 1], m)
    ensures r.Some? ==> r.value < |ps| - 1 && SegmentNear(v, ps[r.value], ps[r.value + 1], m)
                        && forall i :: 0 <= i < r.value ==> !SegmentNear(v, ps[i], ps[i + 1], m)
  {
    if |ps| < 2 then None
    else
      var flags := seq(|ps| - 1, i requires 0 <= i < |ps| - 1 => SegmentNear(v, ps[i], ps[i + 1], m));
      assert forall i :: 0 <= i < |ps| - 1 ==> flags[i] == SegmentNear(v, ps[i], ps[i + 1], m);
      FirstTrue(flags)
  }

  predicate BranchTouched(b: Branch, v: View, m: Point) {
    FirstSegmentNear(b.vertices, v, m).Some?
  }

  predicate LineTouched(l: Line, v: View, m: Point) {
    exists j :: 0 <= j < |l.branches| && BranchTouched(l.branches[j], v, m)
  }

  predicate CategoryTouched(c: Category, v: View, m: Point) {
    exists k :: 0 <= k < |c.lines| && LineTouched(c.lines[k], v, m)
  }

  /** The first line of a category that has a segment within reach. */
  function FirstLineTouched(ls: seq<Line>, v: View, m: Point): (r: Option<nat>)
    ensures r.None? <==> forall i :: 0 <= i < |ls| ==> !LineTouched(ls[i], v, m)
    ensures r.Some? ==> r.value < |ls| && LineTouched(ls[r.value], v, m)
                        && forall i :: 0 <= i < r.value ==> !LineTouched(ls[i], v, m)
  {
    var flags := seq(|ls|, i requires 0 <= i < |ls| => LineTouched(ls[i], v, m));
    assert forall i :: 0 <= i < |ls| ==> flags[i] == LineTouched(ls[i], v, m);
    FirstTrue(flags)
  }

  /** The first category that has such a line. */
  function FirstCategoryTouched(cs: seq<Category>, v: View, m: Point): (r: Option<nat>)
    ensures r.None? <==> forall i :: 0 <= i < |cs| ==> !CategoryTouched(cs[i], v, m)
    ensures r.Some? ==> r.value < |cs| && CategoryTouched(cs[r.value], v, m)
                        && forall i :: 0 <= i < r.value ==> !CategoryTouched(cs[i], v, m)
  {
    var flags := seq(|cs|, i requires 0 <= i < |cs| => CategoryTouched(cs[i], v, m));
    assert forall i :: 0 <= i < |cs| ==> flags[i] == CategoryTouched(cs[i], v, m);
    FirstTrue(flags)
  }

  /** The line the segment search returns, as its key. */
  function LineAt(cs: seq<Category>, v: View, m: Point): (r: Option<LineKey>)
    ensures r.None? <==> forall i :: 0 <= i < |cs| ==> !CategoryTouched(cs[i], v, m)
  {
    match FirstCategoryTouched(cs, v, m)
    case None => None
    case Some(ci) =>
      var li := FirstLineTouched(cs[ci].lines, v, m).value;
      Some(LineKey(cs[ci].name, cs[ci].lines[li].name))
  }

  /** findAt: on no data nothing; stations first; then segments, category by category. */
  function FindAt(data: Option<Dataset>, v: View, m: Point): (r: Hit)
    ensures data.None? ==> r == NoHit
    ensures r.StationHit? ==> data.Some? && r.index < |data.value.stations|
                              && StationNear(v, data.value.stations[r.index], m)
  {
    match data
    case None => NoHit
    case Some(d) =>
      match FirstStationNear(d.stations, v, m)
      case Some(i) => StationHit(i)
      case None =>
        match LineAt(d.categories, v, m)
        case None => NoHit
        case Some(k) => LineHit(k)
  }

  /**
   * The station findAt returns at m is the one with this id: with the
   * dataset generation, the identity test `findAt(..) == highlightedStation`
   * of a station drag.
   */
  predicate OnStation(data: Option<Dataset>, v: View, m: Point, id: int) {
    var h := FindAt(data, v, m);
    h.StationHit? && data.value.stations[h.index].id == id
  }

  /** findAt finds nothing when there is no data. */
  lemma FindAtNoData(v: View, m: Point)
    ensures FindAt(None, v, m) == NoHit
  {
  }

  /**
   * Whenever a station lies within 15 px, findAt returns the first such
   * station, whatever segments are near.
   */
  lemma FindAtStationsFirst(d: Dataset, v: View, m: Point, i: nat)
    requires i < |d.stations| && StationNear(v, d.stations[i], m)
    ensures FindAt(Some(d), v, m).StationHit?
    ensures var j := FindAt(Some(d), v, m).index;
      j <= i && StationNear(v, d.stations[j], m) && forall k :: 0 <= k < j ==> !StationNear(v, d.stations[k], m)
  {
  }

  /**
   * With no station within reach, findAt returns the key of the first line,
   * in category-then-line order, that has a segment within 5 px, and
   * nothing when there is no such line.
   */
  lemma FindAtLines(d: Dataset, v: View, m: Point)
    requires forall i :: 0 <= i < |d.stations| ==> !StationNear(v, d.stations[i], m)
    ensures (forall ci :: 0 <= ci < |d.categories| ==> !CategoryTouched(d.categories[ci], v, m)) ==> FindAt(Some(d), v, m) == NoHit
    ensures (exists ci :: 0 <= ci < |d.categories| && CategoryTouched(d.categories[ci], v, m)) ==>
      exists ci: nat, li: nat :: FirstHitLine(d.categories, v, m, ci, li)
        && FindAt(Some(d), v, m) == LineHit(LineKey(d.categories[ci].name, d.categories[ci].lines[li].name))
  {
    var ci := FirstCategoryTouched(d.categories, v, m);
    if ci.Some? {
      var li := FirstLineTouched(d.categories[ci.value].lines, v, m).value;
      assert FirstHitLine(d.categories, v, m, ci.value, li);
    }
  }

  /** findAt returns a station only from the list, and a line only when no station is near. */
  lemma FindAtResult(d: Dataset, v: View, m: Point)
    ensures FindAt(Some(d), v, m).StationHit? ==> FindAt(Some(d), v, m).index < |d.stations|
    ensures FindAt(Some(d), v, m).StationHit? <==> exists i :: 0 <= i < |d.stations| && StationNear(v, d.stations[i], m)
  {
  }

  /** Line li of category ci is touched, and no line before it in category-then-line order is. */
  predicate FirstHitLine(cs: seq<Category>, v: View, m: Point, ci: nat, li: nat) {
    && ci < |cs| && li < |cs[ci].lines| && LineTouched(cs[ci].lines[li], v, m)
    && (forall c :: 0 <= c < ci ==> !CategoryTouched(cs[c], v, m))
    && (forall l :: 0 <= l < li ==> !LineTouched(cs[ci].lines[l], v, m))
  }

  // ------------------------------------------------------ the staging buffer

  /** The first vertex of a staged list within reach. */
  function FirstVertexNear(vs: seq<SVertex>, v: View, m: Point): (r: Option<nat>)
    ensures r.None? <==> forall j :: 0 <= j < |vs| ==> !VertexNear(v, vs[j].pos, m)
    ensures r.Some? ==> r.value < |vs| && VertexNear(v, vs[r.value].pos, m)
                        && forall j :: 0 <= j < r.value ==> !VertexNear(v, vs[j].pos, m)
  {
    var flags := seq(|vs|, j requires 0 <= j < |vs| => VertexNear(v, vs[j].pos, m));
    assert forall j :: 0 <= j < |vs| ==> flags[j] == VertexNear(v, vs[j].pos, m);
    FirstTrue(flags)
  }

  /** The first staged list with a vertex within reach. */
  function FirstListWithVertexNear(st: seq<Staged>, v: View, m: Point): (r: Option<nat>)
    ensures r.None? <==> forall i :: 0 <= i < |st| ==> FirstVertexNear(st[i].verts, v, m).None?
    ensures r.Some? ==> r.value < |st| && FirstVertexNear(st[r.value].verts, v, m).Some?
                        && forall i :: 0 <= i < r.value ==> FirstVertexNear(st[i].verts, v, m).None?
  {
    var flags := seq(|st|, i requires 0 <= i < |st| => FirstVertexNear(st[i].verts, v, m).Some?);
    assert forall i :: 0 <= i < |st| ==> flags[i] == FirstVertexNear(st[i].verts, v, m).Some?;
    FirstTrue(flags)
  }

  /** hitTestVertex: the id of the first staged vertex within 8 px, in list order. */
  function VertexAt(st: seq<Staged>, v: View, m: Point): Option<nat> {
    match FirstListWithVertexNear(st, v, m)
    case None => None
    case Some(i) => Some(st[i].verts[FirstVertexNear(st[i].verts, v, m).value].id)
  }

  /**
   * hitTestVertex finds a vertex exactly when some staged vertex is within
   * 8 px, and then returns a vertex of the buffer that is within 8 px and
   * that no earlier vertex in list-then-index order precedes.
   */
  lemma VertexAtSpec(st: seq<Staged>, v: View, m: Point)
    ensures VertexAt(st, v, m).None? <==>
      forall i, j :: 0 <= i < |st| && 0 <= j < |st[i].verts| ==> !VertexNear(v, st[i].verts[j].pos, m)
    ensures VertexAt(st, v, m).Some? ==>
      exists i, j :: 0 <= i < |st| && 0 <= j < |st[i].verts| && st[i].verts[j].id == VertexAt(st, v, m).value
        && VertexNear(v, st[i].verts[j].pos, m)
        && (forall a, b :: 0 <= a < i && 0 <= b < |st[a].verts| ==> !VertexNear(v, st[a].verts[b].pos, m))
        && (forall b :: 0 <= b < j ==> !VertexNear(v, st[i].verts[b].pos, m))
  {
    var r := FirstListWithVertexNear(st, v, m);
    if r.Some? {
      var i := r.value;
      var j := FirstVertexNear(st[i].verts, v, m).value;
      assert st[i].verts[j].id == VertexAt(st, v, m).value;
    } else {
      forall i, j | 0 <= i < |st| && 0 <= j < |st[i].verts|
        ensures !VertexNear(v, st[i].verts[j].pos, m)
      {
        assert FirstVertexNear(st[i].verts, v, m).None?;
      }
    }
  }

  /** A staged list has a segment within reach. */
  predicate ListTouched(s: Staged, v: View, m: Point) {
    FirstSegmentNear(Positions(s.verts), v, m).Some?
  }

  /** The first staged list with a segment within reach. */
  function FirstListWithSegmentNear(st: seq<Staged>, v: View, m: Point): (r: Option<nat>)
    ensures r.None? <==> forall i :: 0 <= i < |st| ==> !ListTouched(st[i], v, m)
    ensures r.Some? ==> r.value < |st| && ListTouched(st[r.value], v, m)
                        && forall i :: 0 <= i < r.value ==> !ListTouched(st[i], v, m)
  {
    var flags := seq(|st|, i requires 0 <= i < |st| => ListTouched(st[i], v, m));
    assert forall i :: 0 <= i < |st| ==> flags[i] == ListTouched(st[i], v, m);
    FirstTrue(flags)
  }

  /** Where insertVertexAt inserts: the list and the index of the first segment within 5 px. */
  function InsertTarget(st: seq<Staged>, v: View, m: Point): (r: Option<(nat, nat)>)
    ensures r.Some? ==> r.value.0 < |st| && r.value.1 + 1 < |st[r.value.0].verts|
  {
    match FirstListWithSegmentNear(st, v, m)
    case None => None
    case Some(k) => Some((k, FirstSegmentNear(Positions(st[k].verts), v, m).value))
  }

  /** The search finds list k and segment i when k is the first touched list and i its first near segment. */
  lemma InsertTargetAt(st: seq<Staged>, v: View, m: Point, k: nat, i: nat)
    requires k < |st| && forall a :: 0 <= a < k ==> !ListTouched(st[a], v, m)
    requires FirstSegmentNear(Positions(st[k].verts), v, m) == Some(i)
    ensures InsertTarget(st, v, m) == Some((k, i))
  {
    assert ListTouched(st[k], v, m);
    assert FirstListWithSegmentNear(st, v, m) == Some(k);
  }

  /**
   * The buffer and the next free id after a click at screen point m asks
   * for a vertex: on the first staged segment within reach, a new vertex at
   * the rounded point of the segment nearest to the click, right after the
   * segment's first end.
   */
  function InsertClick(st: seq<Staged>, next: nat, v: View, m: Point): (seq<Staged>, nat)
    requires v.zoom != 0.0
  {
    match InsertTarget(st, v, m)
    case None => (st, next)
    case Some((k, i)) =>
      var vs := st[k].verts;
      (Inserted(st, k, i + 1, SVertex(next, InsertionPoint(vs[i].pos, vs[i + 1].pos, ToWorld(v, m)))), next + 1)
  }

  /**
   * A click that hits a segment adds exactly one vertex: list k gains the
   * new vertex at index i + 1 and keeps every other vertex in order, no
   * other list changes, and the new vertex is the rounded point of segment
   * i nearest to the click (Geometry.InsertionPointIsRoundedNearest). A
   * click that hits no segment changes nothing.
   */
  lemma InsertClickSpec(st: seq<Staged>, next: nat, v: View, m: Point)
    requires v.zoom != 0.0
    ensures InsertTarget(st, v, m).None? ==> InsertClick(st, next, v, m) == (st, next)
    ensures InsertTarget(st, v, m).Some? ==>
      var (k, i) := InsertTarget(st, v, m).value;
      var (st', next') := InsertClick(st, next, v, m);
      var vs := st[k].verts;
      && next' == next + 1 && |st'| == |st|
      && (forall a :: 0 <= a < |st| && a != k ==> st'[a] == st[a])
      && st'[k].name == st[k].name
      && st'[k].verts == vs[..i + 1] + [SVertex(next, InsertionPoint(vs[i].pos, vs[i + 1].pos, ToWorld(v, m)))] + vs[i + 1..]
  {
    var target := InsertTarget(st, v, m);
    if target.Some? {
      var (k, i) := target.value;
      var vs := st[k].verts;
      InsertedShape(st, k, i + 1, SVertex(next, InsertionPoint(vs[i].pos, vs[i + 1].pos, ToWorld(v, m))));
    }
  }

  /**
   * The segment a click inserts into is the first one within reach: it is
   * within 5 px, no earlier list has a segment within reach, and no earlier
   * segment of its own list does; and when there is none, no staged segment
   * at all is within reach.
   */
  lemma InsertTargetIsFirstNear(st: seq<Staged>, v: View, m: Point)
    ensures InsertTarget(st, v, m).None? <==> forall a :: 0 <= a < |st| ==> !ListTouched(st[a], v, m)
    ensures InsertTarget(st, v, m).Some? ==>
      var (k, i) := InsertTarget(st, v, m).value;
      var vs := st[k].verts;
      && SegmentNear(v, vs[i].pos, vs[i + 1].pos, m)
      && (forall b :: 0 <= b < i ==> !SegmentNear(v, vs[b].pos, vs[b + 1].pos, m))
      && (forall a :: 0 <= a < k ==> !ListTouched(st[a], v, m))
  {
    var target := InsertTarget(st, v, m);
    if target.Some? {
      var (k, i) := target.value;
      var vs := st[k].verts;
      var ps := Positions(vs);
      assert FirstSegmentNear(ps, v, m) == Some(i);
      assert forall b :: 0 <= b < |vs| ==> ps[b] == vs[b].pos;
    }
  }

  /** A click in path-editing mode keeps the buffer invariant. */
  lemma InsertClickGood(st: seq<Staged>, next: nat, v: View, m: Point)
    requires v.zoom != 0.0 && Good(st, next)
    ensures Good(InsertClick(st, next, v, m).0, InsertClick(st, next, v, m).1)
  {
    var target := InsertTarget(st, v, m);
    if target.Some? {
      var (k, i) := target.value;
      var vs := st[k].verts;
      InsertGood(st, k, i + 1, InsertionPoint(vs[i].pos, vs[i + 1].pos, ToWorld(v, m)), next);
    }
  }
}
