/**
 * Distances between an incident and a route, as the route scorer computes
 * them: a local planar projection, the distance from a point to a segment
 * with the projection parameter clamped to the segment, and the minimum over
 * the consecutive segments of a path.
 *
 * The cosine in the projection and `math.hypot` are foreign numeric
 * functions; they are parameters (`Trig`), and the lemmas that need `hypot`
 * to behave like a length require `IsNorm`.
 */
module RouteGeometry {
  import opened Wrappers

  /** `math.cos(math.radians(x))` and `math.hypot(x, y)`. */
  datatype Trig = Trig(cosDegrees: real -> real, hypot: (real, real) -> real)

  /** What the lemmas use of `hypot`: it is non-negative and grows with the squared length of its argument. */
  ghost predicate IsNorm(h: (real, real) -> real) {
    && (forall x, y :: 0.0 <= h(x, y))
    && (forall x1, y1, x2, y2 {:trigger NoLonger(x1, y1, x2, y2)} :: NoLonger(x1, y1, x2, y2) ==> h(x1, y1) <= h(x2, y2))
  }

  /** The vector (`x1`, `y1`) is no longer than (`x2`, `y2`). */
  predicate NoLonger(x1: real, y1: real, x2: real, y2: real) {
    SquaredLength(x1, y1) <= SquaredLength(x2, y2)
  }

  /** A point of the local plane, in kilometres. */
  datatype Planar = Planar(x: real, y: real)

  /** A position as a path vertex holds it: longitude first. */
  datatype LonLat = LonLat(lon: real, lat: real)

  const KmPerDegree: real := 111.0

  /** `_project_to_planar`: longitude scaled by the cosine of the reference latitude, latitude by a constant. */
  function ProjectToPlanar(g: Trig, lat: real, lon: real, refLat: real): Planar {
    Planar(lon * (KmPerDegree * g.cosDegrees(refLat)), lat * KmPerDegree)
  }

  /**
   * The projection is a local plane in kilometres: a degree of latitude is
   * 111 km anywhere, and a degree of longitude is 111 km scaled by the
   * cosine of the reference latitude.
   */
  lemma ProjectionKilometres(g: Trig, lat1: real, lon1: real, lat2: real, lon2: real, refLat: real)
    ensures ProjectToPlanar(g, lat2, lon2, refLat).y - ProjectToPlanar(g, lat1, lon1, refLat).y == KmPerDegree * (lat2 - lat1)
    ensures ProjectToPlanar(g, lat2, lon2, refLat).x - ProjectToPlanar(g, lat1, lon1, refLat).x
         == KmPerDegree * g.cosDegrees(refLat) * (lon2 - lon1)
  {
    var c := g.cosDegrees(refLat);
    assert lon2 * (KmPerDegree * c) - lon1 * (KmPerDegree * c) == KmPerDegree * c * (lon2 - lon1);
  }

  /** `max(0.0, min(1.0, t))`. */
  function ClampUnit(t: real): (c: real)
    ensures 0.0 <= c <= 1.0
    ensures 0.0 <= t <= 1.0 ==> c == t
    ensures t < 0.0 ==> c == 0.0
    ensures 1.0 < t ==> c == 1.0
  {
    if 1.0 < t then 1.0 else if t < 0.0 then 0.0 else t
  }

  function Square(x: real): real {
    x * x
  }

  /** `dx * dx + dy * dy`, the squared length of a vector. */
  function SquaredLength(dx: real, dy: real): real {
    Square(dx) + Square(dy)
  }

  function Dot(ux: real, uy: real, dx: real, dy: real): real {
    ux * dx + uy * dy
  }

  /** The parameter along the direction (`dx`, `dy`) of the point nearest to the offset (`ux`, `uy`). */
  function OffsetParameter(ux: real, uy: real, dx: real, dy: real): real
    requires dx != 0.0 || dy != 0.0
  {
    SquaredLengthPositive(dx, dy);
    Dot(ux, uy, dx, dy) / SquaredLength(dx, dy)
  }

  /** The parameter along `a -> b` of the point of that line nearest to `p`. */
  function LineParameter(p: Planar, a: Planar, b: Planar): real
    requires a != b
  {
    OffsetParameter(p.x - a.x, p.y - a.y, b.x - a.x, b.y - a.y)
  }

  /** The point `a + s * (b - a)`; it lies on the segment when `0 <= s <= 1`. */
  function PointAt(a: Planar, b: Planar, s: real): Planar {
    Planar(a.x + s * (b.x - a.x), a.y + s * (b.y - a.y))
  }

  function SquaredDistance(p: Planar, q: Planar): real {
    SquaredLength(p.x - q.x, p.y - q.y)
  }

  /**
   * The planar body of `_point_to_segment_distance_km`: the start point for
   * a segment of length zero, otherwise the point at the clamped parameter.
   */
  function NearestOnSegment(p: Planar, a: Planar, b: Planar): (c: Planar)
    ensures a == b ==> c == a
    ensures a != b ==> c == PointAt(a, b, ClampUnit(LineParameter(p, a, b)))
  {
    var dx, dy := b.x - a.x, b.y - a.y;
    if dx == 0.0 && dy == 0.0 then a
    else
      var t := ClampUnit(LineParameter(p, a, b));
      Planar(a.x + t * dx, a.y + t * dy)
  }

  /** `_point_to_segment_distance_km` on projected points. */
  function PlanarSegmentDistance(g: Trig, p: Planar, a: Planar, b: Planar): real {
    var c := NearestOnSegment(p, a, b);
    g.hypot(p.x - c.x, p.y - c.y)
  }

  /** `_point_to_segment_distance_km`: project the three points around their mean latitude, then measure. */
  function PointToSegmentDistance(g: Trig, point: LonLat, start: LonLat, end: LonLat): real {
    var refLat := (point.lat + start.lat + end.lat) / 3.0;
    PlanarSegmentDistance(g,
      ProjectToPlanar(g, point.lat, point.lon, refLat),
      ProjectToPlanar(g, start.lat, start.lon, refLat),
      ProjectToPlanar(g, end.lat, end.lon, refLat))
  }

  lemma SquaredLengthPositive(dx: real, dy: real)
    requires dx != 0.0 || dy != 0.0
    ensures SquaredLength(dx, dy) > 0.0
  {
    SquareNonNegative(dx);
    SquareNonNegative(dy);
    if dx != 0.0 {
      SquarePositive(dx);
    } else {
      SquarePositive(dy);
    }
  }

  lemma SquareNonNegative(x: real)
    ensures 0.0 <= Square(x)
  {
    ProductNonNegative(x, x);
  }

  lemma SquarePositive(x: real)
    requires x != 0.0
    ensures 0.0 < Square(x)
  {
    if x < 0.0 {
      calc { Square(x); == (-x) * (-x); > 0.0; }
    } else {
      calc { Square(x); == x * x; > 0.0; }
    }
  }

  lemma ProductNonPositive(x: real, y: real)
    requires 0.0 <= x && y <= 0.0
    ensures x * y <= 0.0
  {
    ProductNonNegative(x, -y);
    assert x * y == -(x * (-y));
  }

  lemma DivisionTimesDivisor(w: real, n: real)
    requires n != 0.0
    ensures w == (w / n) * n
  {
  }

  lemma ProductNonNegative(x: real, y: real)
    requires (0.0 <= x && 0.0 <= y) || (x <= 0.0 && y <= 0.0)
    ensures 0.0 <= x * y
  {
  }

  lemma SquareOfDifference(u: real, s: real, d: real)
    ensures Square(u - s * d) == Square(u) - 2.0 * (s * (u * d)) + (s * s) * Square(d)
  {
    calc {
      Square(u - s * d);
    ==
      (u - s * d) * (u - s * d);
    ==
      u * u - 2.0 * (s * (u * d)) + (s * s) * (d * d);
    }
  }

  /** Moving from parameter `t` to `s` changes the squared distance by `(s - t) * ((s + t) * n - 2 * w)`. */
  lemma SquaredDistanceGap(ux: real, uy: real, dx: real, dy: real, s: real, t: real, n: real, w: real)
    requires n == SquaredLength(dx, dy) && w == Dot(ux, uy, dx, dy)
    ensures SquaredLength(ux - s * dx, uy - s * dy) - SquaredLength(ux - t * dx, uy - t * dy)
         == (s - t) * ((s + t) * n - 2.0 * w)
  {
    SquareOfDifference(ux, s, dx);
    SquareOfDifference(uy, s, dy);
    SquareOfDifference(ux, t, dx);
    SquareOfDifference(uy, t, dy);
    calc {
      SquaredLength(ux - s * dx, uy - s * dy) - SquaredLength(ux - t * dx, uy - t * dy);
    ==
      (s * s - t * t) * n - 2.0 * ((s - t) * w);
    ==
      (s - t) * ((s + t) * n - 2.0 * w);
    }
  }

  /** With `t` the clamp of the line parameter `w / n`, no `s` in [0, 1] makes the gap negative. */
  lemma ClampedGapNonNegative(s: real, t: real, w: real, n: real)
    requires n > 0.0
    requires 0.0 <= s <= 1.0
    requires t == ClampUnit(w / n)
    ensures 0.0 <= (s - t) * ((s + t) * n - 2.0 * w)
  {
    var t0 := w / n;
    DivisionTimesDivisor(w, n);
    assert (s + t) * n - 2.0 * w == n * (s + t - 2.0 * t0);
    if t0 < 0.0 {
      ProductNonNegative(n, s - 2.0 * t0);
      ProductNonNegative(s, n * (s - 2.0 * t0));
    } else if 1.0 < t0 {
      ProductNonPositive(n, s + 1.0 - 2.0 * t0);
      ProductNonNegative(s - 1.0, n * (s + 1.0 - 2.0 * t0));
    } else {
      ProductNonNegative(s - t0, s - t0);
      ProductNonNegative(n, (s - t0) * (s - t0));
      assert (s - t) * (n * (s + t - 2.0 * t0)) == n * ((s - t0) * (s - t0));
    }
  }

  /** The squared distance from `p` to the point at parameter `s`, in terms of the offsets (`ux`, `uy`) = `p - a` and (`dx`, `dy`) = `b - a`. */
  lemma SquaredDistanceAlong(p: Planar, a: Planar, b: Planar, s: real, ux: real, uy: real, dx: real, dy: real)
    requires ux == p.x - a.x && uy == p.y - a.y && dx == b.x - a.x && dy == b.y - a.y
    ensures SquaredDistance(p, PointAt(a, b, s)) == SquaredLength(ux - s * dx, uy - s * dy)
  {
    var q := PointAt(a, b, s);
    assert p.x - q.x == ux - s * dx;
    assert p.y - q.y == uy - s * dy;
  }

  /** In offsets from the segment start: the clamped parameter is at least as near as any parameter in [0, 1]. */
  lemma ClampedOffsetIsNearest(ux: real, uy: real, dx: real, dy: real, s: real)
    requires dx != 0.0 || dy != 0.0
    requires 0.0 <= s <= 1.0
    ensures var t := ClampUnit(OffsetParameter(ux, uy, dx, dy));
      SquaredLength(ux - t * dx, uy - t * dy) <= SquaredLength(ux - s * dx, uy - s * dy)
  {
    var n, w := SquaredLength(dx, dy), Dot(ux, uy, dx, dy);
    SquaredLengthPositive(dx, dy);
    var t := ClampUnit(w / n);
    assert t == ClampUnit(OffsetParameter(ux, uy, dx, dy));
    var near, far := SquaredLength(ux - t * dx, uy - t * dy), SquaredLength(ux - s * dx, uy - s * dy);
    var gap := (s - t) * ((s + t) * n - 2.0 * w);
    SquaredDistanceGap(ux, uy, dx, dy, s, t, n, w);
    ClampedGapNonNegative(s, t, w, n);
    assert far - near == gap && 0.0 <= gap;
  }

  /** The squared distance from `p` to the nearest point of a proper segment, in terms of the offsets from `a`. */
  lemma NearestSquaredDistance(p: Planar, a: Planar, b: Planar, ux: real, uy: real, dx: real, dy: real)
    requires a != b
    requires ux == p.x - a.x && uy == p.y - a.y && dx == b.x - a.x && dy == b.y - a.y
    ensures dx != 0.0 || dy != 0.0
    ensures var t := ClampUnit(OffsetParameter(ux, uy, dx, dy));
      SquaredDistance(p, NearestOnSegment(p, a, b)) == SquaredLength(ux - t * dx, uy - t * dy)
  {
    var t := ClampUnit(OffsetParameter(ux, uy, dx, dy));
    assert NearestOnSegment(p, a, b) == PointAt(a, b, t);
    SquaredDistanceAlong(p, a, b, t, ux, uy, dx, dy);
  }

  /** The clamped parameter gives the point of the segment nearest to `p`. */
  lemma ClampedParameterIsNearest(p: Planar, a: Planar, b: Planar, s: real)
    requires a != b
    requires 0.0 <= s <= 1.0
    ensures SquaredDistance(p, NearestOnSegment(p, a, b)) <= SquaredDistance(p, PointAt(a, b, s))
  {
    var ux, uy, dx, dy := p.x - a.x, p.y - a.y, b.x - a.x, b.y - a.y;
    NearestSquaredDistance(p, a, b, ux, uy, dx, dy);
    SquaredDistanceAlong(p, a, b, s, ux, uy, dx, dy);
    ClampedOffsetIsNearest(ux, uy, dx, dy, s);
  }

  /**
   * The segment distance is at most the distance to any point of the
   * segment, in particular to either end: the nearest point lies on the segment.
   */
  lemma SegmentDistanceIsMinimal(g: Trig, p: Planar, a: Planar, b: Planar, s: real)
    requires IsNorm(g.hypot)
    requires 0.0 <= s <= 1.0
    ensures 0.0 <= PlanarSegmentDistance(g, p, a, b)
    ensures PlanarSegmentDistance(g, p, a, b) <= g.hypot(p.x - PointAt(a, b, s).x, p.y - PointAt(a, b, s).y)
  {
    hide *;
    PlanarSegmentDistanceIsHypot(g, p, a, b);
    NearestIsNearest(p, a, b, s);
    HypotOfNearer(g, p, NearestOnSegment(p, a, b), PointAt(a, b, s));
  }

  lemma PlanarSegmentDistanceIsHypot(g: Trig, p: Planar, a: Planar, b: Planar)
    ensures PlanarSegmentDistance(g, p, a, b) == g.hypot(p.x - NearestOnSegment(p, a, b).x, p.y - NearestOnSegment(p, a, b).y)
  {
    hide NearestOnSegment;
  }

  lemma NearestIsNearest(p: Planar, a: Planar, b: Planar, s: real)
    requires 0.0 <= s <= 1.0
    ensures SquaredDistance(p, NearestOnSegment(p, a, b)) <= SquaredDistance(p, PointAt(a, b, s))
  {
    if a == b {
      assert b.x - a.x == 0.0 && b.y - a.y == 0.0;
      assert s * (b.x - a.x) == 0.0 && s * (b.y - a.y) == 0.0;
      assert PointAt(a, b, s) == a;
    } else {
      ClampedParameterIsNearest(p, a, b, s);
    }
  }

  lemma HypotMonotone(h: (real, real) -> real, x1: real, y1: real, x2: real, y2: real)
    requires IsNorm(h)
    requires SquaredLength(x1, y1) <= SquaredLength(x2, y2)
    ensures 0.0 <= h(x1, y1) <= h(x2, y2)
  {
    assert NoLonger(x1, y1, x2, y2);
  }

  /** `hypot` applied to the offsets of two points from `p` keeps the order of their squared distances. */
  lemma HypotOfNearer(g: Trig, p: Planar, c: Planar, q: Planar)
    requires IsNorm(g.hypot)
    requires SquaredDistance(p, c) <= SquaredDistance(p, q)
    ensures 0.0 <= g.hypot(p.x - c.x, p.y - c.y) <= g.hypot(p.x - q.x, p.y - q.y)
  {
    HypotMonotone(g.hypot, p.x - c.x, p.y - c.y, p.x - q.x, p.y - q.y);
  }

  /** The start of a segment is no nearer than the segment distance. */
  lemma SegmentDistanceAtMostStart(g: Trig, p: Planar, a: Planar, b: Planar)
    requires IsNorm(g.hypot)
    ensures PlanarSegmentDistance(g, p, a, b) <= g.hypot(p.x - a.x, p.y - a.y)
  {
    hide PlanarSegmentDistance, NearestOnSegment;
    SegmentDistanceIsMinimal(g, p, a, b, 0.0);
    assert PointAt(a, b, 0.0) == a;
  }

  /** The end of a segment is no nearer than the segment distance. */
  lemma SegmentDistanceAtMostEnd(g: Trig, p: Planar, a: Planar, b: Planar)
    requires IsNorm(g.hypot)
    ensures PlanarSegmentDistance(g, p, a, b) <= g.hypot(p.x - b.x, p.y - b.y)
  {
    hide PlanarSegmentDistance, NearestOnSegment;
    SegmentDistanceIsMinimal(g, p, a, b, 1.0);
    assert PointAt(a, b, 1.0) == b;
  }

  /**
   * The distance from a position to a segment between two positions is
   * non-negative and, on the plane projected around their mean latitude, at
   * most the distance to any point of the segment.
   */
  lemma PointToSegmentDistanceIsMinimal(g: Trig, point: LonLat, start: LonLat, end: LonLat, s: real)
    requires IsNorm(g.hypot)
    requires 0.0 <= s <= 1.0
    ensures var refLat := (point.lat + start.lat + end.lat) / 3.0;
      var p := ProjectToPlanar(g, point.lat, point.lon, refLat);
      var q := PointAt(ProjectToPlanar(g, start.lat, start.lon, refLat), ProjectToPlanar(g, end.lat, end.lon, refLat), s);
      0.0 <= PointToSegmentDistance(g, point, start, end) <= g.hypot(p.x - q.x, p.y - q.y)
  {
    hide ProjectToPlanar, PlanarSegmentDistance, PointAt;
    var refLat := (point.lat + start.lat + end.lat) / 3.0;
    SegmentDistanceIsMinimal(g, ProjectToPlanar(g, point.lat, point.lon, refLat),
      ProjectToPlanar(g, start.lat, start.lon, refLat), ProjectToPlanar(g, end.lat, end.lon, refLat), s);
  }

  /** A path vertex is usable when it holds at least a longitude and a latitude. */
  predicate IsSegment(path: seq<seq<real>>, i: int) {
    0 <= i && i + 1 < |path| && |path[i]| >= 2 && |path[i + 1]| >= 2
  }

  /** The distance from (`lat`, `lon`) to segment `i` of `path`. */
  function SegmentDistanceAt(g: Trig, path: seq<seq<real>>, lat: real, lon: real, i: int): real
    requires IsSegment(path, i)
  {
    PointToSegmentDistance(g, LonLat(lon, lat),
      LonLat(path[i][0], path[i][1]), LonLat(path[i + 1][0], path[i + 1][1]))
  }

  /** One entry per pair of consecutive vertices: its distance, or `None` when a vertex is too short. */
  function SegmentDistances(g: Trig, path: seq<seq<real>>, lat: real, lon: real): (ds: seq<Option<real>>)
    ensures |ds| == if |path| < 2 then 0 else |path| - 1
    ensures forall i :: 0 <= i < |ds| ==>
      ds[i] == if IsSegment(path, i) then Some(SegmentDistanceAt(g, path, lat, lon, i)) else None
  {
    var n := if |path| < 2 then 0 else |path| - 1;
    seq(n, i requires 0 <= i < n =>
      if IsSegment(path, i) then Some(SegmentDistanceAt(g, path, lat, lon, i)) else None)
  }

  /** `best` replaced by `d` when `d` is a distance smaller than `best`, or `best` is still `None`. */
  function KeepSmaller(best: Option<real>, d: Option<real>): Option<real> {
    if d.Some? && (best.None? || d.value < best.value) then d else best
  }

  /** Left fold of `KeepSmaller` over `ds`, starting from `None`: the loops' running minimum. */
  function MinOf(ds: seq<Option<real>>): Option<real> {
    if ds == [] then None else KeepSmaller(MinOf(ds[..|ds| - 1]), ds[|ds| - 1])
  }

  /** The running minimum is `None` exactly when every entry is, and otherwise the least entry. */
  lemma {:induction false} MinOfIsMinimum(ds: seq<Option<real>>)
    ensures MinOf(ds).None? <==> forall i :: 0 <= i < |ds| ==> ds[i].None?
    ensures MinOf(ds).Some? ==> MinOf(ds) in ds
    ensures forall i :: 0 <= i < |ds| && ds[i].Some? ==> MinOf(ds).Some? && MinOf(ds).value <= ds[i].value
  {
    if ds != [] {
      var init := ds[..|ds| - 1];
      MinOfIsMinimum(init);
      assert forall i :: 0 <= i < |init| ==> init[i] == ds[i];
      if MinOf(init).Some? {
        assert MinOf(init) in ds;
      }
    }
  }

  /** `_min_distance_to_path_km` as a value. */
  function PathMinDistance(g: Trig, path: seq<seq<real>>, lat: real, lon: real): Option<real> {
    if |path| < 2 then None else MinOf(SegmentDistances(g, path, lat, lon))
  }

  /**
   * `_min_distance_to_path_km` returns None for a path of fewer than two
   * vertices or with no usable segment, and otherwise the distance of a
   * usable segment that no other usable segment beats.
   */
  lemma PathMinDistanceIsMinimum(g: Trig, path: seq<seq<real>>, lat: real, lon: real)
    ensures PathMinDistance(g, path, lat, lon).None? <==> forall i :: !IsSegment(path, i)
    ensures PathMinDistance(g, path, lat, lon).Some? ==>
      exists i :: IsSegment(path, i) && PathMinDistance(g, path, lat, lon).value == SegmentDistanceAt(g, path, lat, lon, i)
    ensures forall i :: IsSegment(path, i) ==>
      PathMinDistance(g, path, lat, lon).Some? && PathMinDistance(g, path, lat, lon).value <= SegmentDistanceAt(g, path, lat, lon, i)
  {
    hide PointToSegmentDistance;
    var ds := SegmentDistances(g, path, lat, lon);
    MinOfIsMinimum(ds);
    if |path| >= 2 {
      assert forall i :: IsSegment(path, i) ==> ds[i].Some?;
      if MinOf(ds).Some? {
        var i :| 0 <= i < |ds| && ds[i] == MinOf(ds);
        assert IsSegment(path, i);
      }
    }
  }

  /** `_min_distance_to_path_km`: one pass over the consecutive vertex pairs, keeping the smallest distance. */
  method MinDistanceToPath(g: Trig, path: seq<seq<real>>, lat: real, lon: real) returns (minDist: Option<real>)
    ensures minDist == PathMinDistance(g, path, lat, lon)
  {
    if |path| < 2 {
      return None;
    }
    ghost var ds := SegmentDistances(g, path, lat, lon);
    minDist := None;
    for idx := 0 to |path| - 1
      invariant minDist == MinOf(ds[..idx])
    {
      assert ds[..idx + 1][..idx] == ds[..idx];
      assert MinOf(ds[..idx + 1]) == KeepSmaller(MinOf(ds[..idx]), ds[idx]);
      var start := path[idx];
      var end := path[idx + 1];
      if |start| < 2 || |end| < 2 {
        assert ds[idx] == None;
        continue;
      }
      var dist := PointToSegmentDistance(g, LonLat(lon, lat), LonLat(start[0], start[1]), LonLat(end[0], end[1]));
      assert ds[idx] == Some(dist) by {
        assert IsSegment(path, idx);
      }
      if minDist.None? || dist < minDist.value {
        minDist := Some(dist);
      }
    }
    assert ds[..|path| - 1] == ds;
  }
}
