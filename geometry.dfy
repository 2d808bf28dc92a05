/**
 * World and screen geometry of the map canvas: two-decimal rounding, the
 * viewport maps, squared distances and the point-to-segment distance that the
 * picker uses. Coordinates are real numbers; no IEEE behaviour is modelled.
 */
module Geometry {

  /** A position (x, z) in world units, or a pixel position on the canvas. */
  datatype Point = Point(x: real, z: real)

  function Abs(r: real): real { if r < 0.0 then -r else r }

  /** True when `d` is a whole number of hundredths. */
  predicate IsHundredths(d: real) {
    (d * 100.0).Floor as real == d * 100.0
  }

  /**
   * roundTwoDecimals: Math.round(d * 100.0) / 100.0, where Math.round(y) is
   * Floor(y + 1/2). The result is a whole number of hundredths and lies in the
   * half-open interval (d - 0.005, d + 0.005].
   */
  function Round2(d: real): (r: real)
    ensures IsHundredths(r)
    ensures d - 0.005 < r <= d + 0.005
  {
    var n := (d * 100.0 + 0.5).Floor;
    assert (n as real / 100.0) * 100.0 == n as real;
    n as real / 100.0
  }

  /** Rounding a value that already has two decimals changes nothing. */
  lemma Round2OfHundredths(d: real)
    requires IsHundredths(d)
    ensures Round2(d) == d
  {
    var n := (d * 100.0).Floor;
    assert (d * 100.0 + 0.5).Floor == n;
  }

  /** Rounding is idempotent. */
  lemma Round2Idempotent(d: real)
    ensures Round2(Round2(d)) == Round2(d)
  {
    Round2OfHundredths(Round2(d));
  }

  /**
   * Round2 is the only whole number of hundredths in (d - 0.005, d + 0.005],
   * so the two facts in its contract determine it.
   */
  lemma Round2Unique(d: real, h: real)
    requires IsHundredths(h) && d - 0.005 < h <= d + 0.005
    ensures h == Round2(d)
  {
    var m := (h * 100.0).Floor;
    var n := (d * 100.0 + 0.5).Floor;
    assert m as real == h * 100.0;
    assert n as real <= d * 100.0 + 0.5 < n as real + 1.0;
    assert m as real <= d * 100.0 + 0.5 < m as real + 1.0;
    assert m == n;
  }

  /** A point with both coordinates rounded to two decimals. */
  function RoundPoint(p: Point): (r: Point)
    ensures IsHundredths(r.x) && IsHundredths(r.z)
    ensures r.x == Round2(p.x) && r.z == Round2(p.z)
  {
    Point(Round2(p.x), Round2(p.z))
  }

  // ----------------------------------------------------------------- vectors

  function Sub(p: Point, q: Point): Point { Point(p.x - q.x, p.z - q.z) }
  function Scale(s: real, u: Point): Point { Point(s * u.x, s * u.z) }
  function Dot(u: Point, v: Point): real { u.x * v.x + u.z * v.z }

  /** The squared Euclidean distance; hypot(..) < r is modelled as DistSq < r * r. */
  function DistSq(a: Point, b: Point): real { Dot(Sub(a, b), Sub(a, b)) }

  // ---------------------------------------------------------------- viewport

  /**
   * The viewport of the canvas: the world point (offX, offZ) is drawn at the
   * canvas center (cx, cz) = (getWidth()/2, getHeight()/2), scaled by zoom.
   */
  datatype View = View(offX: real, offZ: real, zoom: real, cx: int, cz: int)

  /** One screen coordinate of world coordinate w: (w - off) * zoom + c. */
  function ScreenCoord(w: real, off: real, zoom: real, c: int): real {
    (w - off) * zoom + c as real
  }

  /** One world coordinate of screen coordinate s: (s - c) / zoom + off. */
  function WorldCoord(s: real, c: int, zoom: real, off: real): real
    requires zoom != 0.0
  {
    (s - c as real) / zoom + off
  }

  lemma CoordRoundTrip(w: real, s: real, off: real, zoom: real, c: int)
    requires zoom != 0.0
    ensures WorldCoord(ScreenCoord(w, off, zoom, c), c, zoom, off) == w
    ensures ScreenCoord(WorldCoord(s, c, zoom, off), off, zoom, c) == s
  {
    assert ((w - off) * zoom) / zoom == w - off;
    assert ((s - c as real) / zoom) * zoom == s - c as real;
  }

  function ToScreen(v: View, p: Point): Point {
    Point(ScreenCoord(p.x, v.offX, v.zoom, v.cx), ScreenCoord(p.z, v.offZ, v.zoom, v.cz))
  }

  function ToWorld(v: View, s: Point): Point
    requires v.zoom != 0.0
  {
    Point(WorldCoord(s.x, v.cx, v.zoom, v.offX), WorldCoord(s.z, v.cz, v.zoom, v.offZ))
  }

  /** The two viewport maps are inverse to each other for every non-zero zoom. */
  lemma ScreenWorldRoundTrip(v: View, p: Point, s: Point)
    requires v.zoom != 0.0
    ensures ToWorld(v, ToScreen(v, p)) == p
    ensures ToScreen(v, ToWorld(v, s)) == s
  {
    CoordRoundTrip(p.x, s.x, v.offX, v.zoom, v.cx);
    CoordRoundTrip(p.z, s.z, v.offZ, v.zoom, v.cz);
  }

  /** Dragging empty canvas space by (dx, dz) pixels: each offset decreases by delta / zoom. */
  function Pan(v: View, dx: int, dz: int): View
    requires v.zoom != 0.0
  {
    v.(offX := v.offX - dx as real / v.zoom, offZ := v.offZ - dz as real / v.zoom)
  }

  lemma CoordPan(w: real, off: real, d: int, zoom: real, c: int)
    requires zoom != 0.0
    ensures ScreenCoord(w, off - d as real / zoom, zoom, c) == ScreenCoord(w, off, zoom, c) + d as real
  {
    assert (d as real / zoom) * zoom == d as real;
    assert (w - (off - d as real / zoom)) * zoom == (w - off) * zoom + (d as real / zoom) * zoom;
  }

  /** After a pan every world point is drawn exactly (dx, dz) pixels further on. */
  lemma PanFollowsPointer(v: View, dx: int, dz: int, p: Point)
    requires v.zoom != 0.0
    ensures ToScreen(Pan(v, dx, dz), p) == Point(ToScreen(v, p).x + dx as real, ToScreen(v, p).z + dz as real)
  {
    CoordPan(p.x, v.offX, dx, v.zoom, v.cx);
    CoordPan(p.z, v.offZ, dz, v.zoom, v.cz);
  }

  /** One wheel step: 1.2 when rotating up (negative rotation), otherwise 0.8. */
  function ZoomFactor(rotation: int): (f: real)
    ensures f > 0.0
    ensures rotation < 0 <==> f > 1.0
  {
    if rotation < 0 then 1.2 else 0.8
  }

  /** Zooming is about the canvas center: the world point drawn there stays put. */
  lemma ZoomKeepsCenter(v: View, rotation: int)
    requires v.zoom > 0.0
    ensures v.zoom * ZoomFactor(rotation) > 0.0
    ensures ToWorld(v.(zoom := v.zoom * ZoomFactor(rotation)), Point(v.cx as real, v.cz as real))
         == ToWorld(v, Point(v.cx as real, v.cz as real))
  {
    MulPos(v.zoom, ZoomFactor(rotation), 0.0);
  }

  // ------------------------------------------------------------ sign facts

  /*
   * Each fact bounds a product from below by a parameter `c` rather than by
   * the literal 0, which keeps it usable next to other (in)equalities.
   */

  lemma MulPos(a: real, b: real, c: real)
    requires a > 0.0 && b > 0.0 && c <= 0.0
    ensures a * b > c
  {
  }

  lemma MulNonneg(a: real, b: real, c: real)
    requires a >= 0.0 && b >= 0.0 && c <= 0.0
    ensures a * b >= c
  {
    if a > 0.0 && b > 0.0 { MulPos(a, b, c); }
  }

  lemma SquarePos(a: real, c: real)
    requires a != 0.0 && c <= 0.0
    ensures a * a > c
  {
    if a > 0.0 { MulPos(a, a, c); } else { MulPos(-a, -a, c); assert (-a) * (-a) == a * a; }
  }

  lemma SquareNonneg(a: real, c: real)
    requires c <= 0.0
    ensures a * a >= c
  {
    if a != 0.0 { SquarePos(a, c); }
  }

  lemma SumSquaresZero(a: real, b: real, c: real)
    requires c == 0.0 && a * a + b * b <= c
    ensures a == c && b == c
  {
    SquareNonneg(a, 0.0);
    SquareNonneg(b, 0.0);
    if a != 0.0 { SquarePos(a, c); }
    if b != 0.0 { SquarePos(b, c); }
  }

  /** A vector's squared length is never negative, and 0 only for the zero vector. */
  lemma DotSelf(u: Point)
    ensures Dot(u, u) >= 0.0
    ensures Dot(u, u) == 0.0 <==> u == Point(0.0, 0.0)
  {
    SquareNonneg(u.x, 0.0);
    SquareNonneg(u.z, 0.0);
    if Dot(u, u) == 0.0 { SumSquaresZero(u.x, u.z, 0.0); }
  }

  /** A segment has squared length 0 exactly when its end points coincide. */
  lemma SegmentLengthZero(a: Point, b: Point)
    ensures Dot(Sub(b, a), Sub(b, a)) >= 0.0
    ensures Dot(Sub(b, a), Sub(b, a)) == 0.0 <==> b == a
  {
    DotSelf(Sub(b, a));
    SubZero(a, b);
  }

  lemma SubZero(a: Point, b: Point)
    ensures Sub(b, a) == Point(0.0, 0.0) <==> b == a
  {
  }

  // ------------------------------------------------------- point to segment

  /** The point a + t * (b - a) of the line through a and b. */
  function Lerp(a: Point, b: Point, t: real): Point {
    Point(a.x + t * (b.x - a.x), a.z + t * (b.z - a.z))
  }

  /** Math.max(0, Math.min(1, t)) */
  function Clamp01(t: real): (r: real)
    ensures 0.0 <= r <= 1.0
    ensures 0.0 <= t <= 1.0 ==> r == t
    ensures t < 0.0 ==> r == 0.0
    ensures t > 1.0 ==> r == 1.0
  {
    if t < 0.0 then 0.0 else if t > 1.0 then 1.0 else t
  }

  /** The quadratic s |-> W - 2 s D + s^2 L. */
  function Quad(W: real, D: real, L: real, s: real): real { W - 2.0 * s * D + s * s * L }

  /**
   * The parameter of the point of segment a-b nearest to q: the projection
   * ((q - a) . (b - a)) / |b - a|^2 of q onto the line through a and b,
   * clamped to [0, 1]. A zero-length segment has only the point a
   * (parameter 0).
   */
  function SegParam(a: Point, b: Point, q: Point): (t: real)
    ensures 0.0 <= t <= 1.0
  {
    var L := Dot(Sub(b, a), Sub(b, a));
    if L == 0.0 then 0.0 else Clamp01(Dot(Sub(q, a), Sub(b, a)) / L)
  }

  /** The point of the segment a-b nearest to q. */
  function Project(a: Point, b: Point, q: Point): Point {
    Lerp(a, b, SegParam(a, b, q))
  }

  /**
   * The squared distance from p to the segment a-b: Line2D.ptSegDist(..) < r
   * is modelled as SegDistSq(..) < r * r.
   */
  function SegDistSq(a: Point, b: Point, p: Point): real {
    DistSq(p, Project(a, b, p))
  }

  lemma DotExpand(u: Point, v: Point, s: real)
    ensures Dot(Sub(u, Scale(s, v)), Sub(u, Scale(s, v))) == Quad(Dot(u, u), Dot(u, v), Dot(v, v), s)
  {
  }

  /** |q - Lerp(a, b, s)|^2 as a quadratic in s. */
  lemma DistAlongQuad(a: Point, b: Point, q: Point, s: real)
    ensures DistSq(q, Lerp(a, b, s))
         == Quad(Dot(Sub(q, a), Sub(q, a)), Dot(Sub(q, a), Sub(b, a)), Dot(Sub(b, a), Sub(b, a)), s)
  {
    assert Sub(q, Lerp(a, b, s)) == Sub(Sub(q, a), Scale(s, Sub(b, a)));
    DotExpand(Sub(q, a), Sub(b, a), s);
  }

  /** For L > 0 the quotient D / L has the sign of D, and D / L >= 1 exactly when D >= L. */
  lemma QuotientBounds(D: real, L: real)
    requires L > 0.0
    ensures D == (D / L) * L
    ensures D <= 0.0 <==> D / L <= 0.0
    ensures D >= L <==> D / L >= 1.0
  {
    var t := D / L;
    assert D == t * L;
    if t > 0.0 { MulPos(t, L, 0.0); }
    if t < 0.0 { MulPos(-t, L, 0.0); }
    if t > 1.0 { MulPos(t - 1.0, L, 0.0); }
    if t < 1.0 { MulPos(1.0 - t, L, 0.0); }
  }

  /**
   * With L > 0 the quadratic W - 2 s D + s^2 L takes its least value on
   * [0, 1] at the clamped vertex D / L.
   */
  lemma QuadraticMinOnUnit(W: real, D: real, L: real, s: real)
    requires L > 0.0 && 0.0 <= s <= 1.0
    ensures Quad(W, D, L, Clamp01(D / L)) <= Quad(W, D, L, s)
  {
    QuotientBounds(D, L);
    var t0 := D / L;
    if t0 < 0.0 {
      MulNonneg(s, L, 0.0);
      MulNonneg(s, s * L - 2.0 * D, 0.0);
      assert Quad(W, D, L, s) - W == s * (s * L - 2.0 * D);
    } else if t0 > 1.0 {
      MulNonneg(s, L, 0.0);
      MulNonneg(1.0 - s, 2.0 * D - L * (1.0 + s), 0.0);
      assert Quad(W, D, L, s) - Quad(W, D, L, 1.0) == (1.0 - s) * (2.0 * D - L * (1.0 + s));
    } else {
      SquareNonneg(s - t0, 0.0);
      MulNonneg(L, (s - t0) * (s - t0), 0.0);
      assert Quad(W, D, L, s) - Quad(W, D, L, t0) == L * ((s - t0) * (s - t0));
    }
  }

  /**
   * The segment distance is the least squared distance from p to a point of
   * the segment: no point Lerp(a, b, s) with 0 <= s <= 1 is nearer.
   */
  lemma SegDistSqIsLeast(a: Point, b: Point, p: Point, s: real)
    requires 0.0 <= s <= 1.0
    ensures SegDistSq(a, b, p) <= DistSq(p, Lerp(a, b, s))
  {
    var W, D, L := Dot(Sub(p, a), Sub(p, a)), Dot(Sub(p, a), Sub(b, a)), Dot(Sub(b, a), Sub(b, a));
    SegmentLengthZero(a, b);
    if L == 0.0 {
      DegenerateSegment(a, b, p, s);
    } else {
      var t := SegParam(a, b, p);
      DistAlongQuad(a, b, p, s);
      DistAlongQuad(a, b, p, t);
      assert t == Clamp01(D / L);
      QuadraticMinOnUnit(W, D, L, s);
    }
  }

  /** On a zero-length segment every parameter gives the point a. */
  lemma DegenerateSegment(a: Point, b: Point, p: Point, s: real)
    requires b == a
    ensures Lerp(a, b, s) == a
    ensures Project(a, b, p) == a
    ensures SegDistSq(a, b, p) == DistSq(p, Lerp(a, b, s))
  {
    assert Sub(b, a) == Point(0.0, 0.0);
  }

  /** The nearest point lies on the segment, and it is a itself when the segment has length 0. */
  lemma ProjectOnSegment(a: Point, b: Point, p: Point)
    ensures exists t :: 0.0 <= t <= 1.0 && Project(a, b, p) == Lerp(a, b, t)
    ensures b == a ==> Project(a, b, p) == a && SegDistSq(a, b, p) == DistSq(p, a)
  {
    var t := SegParam(a, b, p);
    assert Project(a, b, p) == Lerp(a, b, t);
    if b == a { DegenerateSegment(a, b, p, 0.0); }
  }

  /** The segment distance is never negative and never exceeds the distance to either end point. */
  lemma SegDistSqBounds(a: Point, b: Point, p: Point)
    ensures 0.0 <= SegDistSq(a, b, p)
    ensures SegDistSq(a, b, p) <= DistSq(p, a) && SegDistSq(a, b, p) <= DistSq(p, b)
  {
    DotSelf(Sub(p, Project(a, b, p)));
    SegDistSqIsLeast(a, b, p, 0.0);
    SegDistSqIsLeast(a, b, p, 1.0);
    assert Lerp(a, b, 0.0) == a;
    assert Lerp(a, b, 1.0) == b;
  }

  // ------------------------------------------------------ inserted vertex

  /**
   * The vertex insertVertexAt adds for a click at world point p on segment
   * a-b, as the code computes it: t = ((p - a) . (b - a)) / |b - a|^2,
   * clamped to [0, 1], then a + t (b - a) with both coordinates rounded. On a
   * segment of length 0 the quotient is 0/0, NaN in Java; Math.min and
   * Math.max pass NaN through and Math.round(NaN) is 0, so the vertex is (0, 0).
   */
  function InsertionPointAsWritten(a: Point, b: Point, p: Point): Point {
    var L := Dot(Sub(b, a), Sub(b, a));
    if L == 0.0 then Point(0.0, 0.0)
    else RoundPoint(Lerp(a, b, Clamp01(Dot(Sub(p, a), Sub(b, a)) / L)))
  }

  /**
   * The vertex evidently intended: the point of the segment nearest to p,
   * rounded to two decimals; on a zero-length segment that is its end point.
   */
  function InsertionPoint(a: Point, b: Point, p: Point): Point {
    RoundPoint(Project(a, b, p))
  }

  /**
   * The inserted vertex is the rounding of a point q of the segment, and no
   * point of the segment is nearer to the click than q.
   */
  lemma InsertionPointIsRoundedNearest(a: Point, b: Point, p: Point, s: real)
    requires 0.0 <= s <= 1.0
    ensures exists t :: 0.0 <= t <= 1.0 && InsertionPoint(a, b, p) == RoundPoint(Lerp(a, b, t))
    ensures DistSq(p, Project(a, b, p)) <= DistSq(p, Lerp(a, b, s))
  {
    ProjectOnSegment(a, b, p);
    SegDistSqIsLeast(a, b, p, s);
  }

  /** On every segment of non-zero length the code computes the intended vertex. */
  lemma InsertionAsWrittenAgrees(a: Point, b: Point, p: Point)
    requires b != a
    ensures InsertionPointAsWritten(a, b, p) == InsertionPoint(a, b, p)
  {
    SegmentLengthZero(a, b);
  }

  /**
   * A click on the zero-length segment (5, 5)-(5, 5), which the polyline
   * (5, 5), (5, 5), (10, 5) has first, inserts (0, 0) as written, while the
   * intended vertex is (5, 5).
   */
  lemma InsertionAsWrittenDegenerate(p: Point)
    ensures InsertionPointAsWritten(Point(5.0, 5.0), Point(5.0, 5.0), p) == Point(0.0, 0.0)
    ensures InsertionPoint(Point(5.0, 5.0), Point(5.0, 5.0), p) == Point(5.0, 5.0)
  {
    AsWrittenZeroLength(Point(5.0, 5.0), p);
    RoundFive(Point(5.0, 5.0), p);
  }

  lemma AsWrittenZeroLength(a: Point, p: Point)
    ensures InsertionPointAsWritten(a, a, p) == Point(0.0, 0.0)
  {
    assert Sub(a, a) == Point(0.0, 0.0);
  }

  lemma RoundFive(a: Point, p: Point)
    requires a == Point(5.0, 5.0)
    ensures RoundPoint(Project(a, a, p)) == a
  {
    DegenerateSegment(a, a, p, 0.0);
    RoundFiveTwo();
  }

  lemma RoundFiveTwo()
    ensures Round2(5.0) == 5.0
  {
    assert IsHundredths(5.0) by { assert (5.0 * 100.0).Floor == 500; }
    Round2OfHundredths(5.0);
  }
}
