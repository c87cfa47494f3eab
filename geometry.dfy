/** The planar geometry the matcher needs, as far as the model sees it:
    points, axis-aligned bounding boxes with the closed-interval overlap
    test of the spatial index, and the bounds of a point's tolerance
    buffer. Exact point-to-geometry distance is a foreign computation; it
    enters the model as a function parameter, and the one geometric fact
    the matcher's guarantees rest on is stated as a predicate over it. */
module Geometry {

  datatype Point = Point(x: real, y: real)

  /** `(minx, miny, maxx, maxy)`, the form of shapely's `bounds` and of an
      rtree entry's coordinates. */
  datatype Box = Box(minX: real, minY: real, maxX: real, maxY: real)
  {
    predicate Valid() { minX <= maxX && minY <= maxY }

    predicate Contains(p: Point) { minX <= p.x <= maxX && minY <= p.y <= maxY }
  }

  /** A shape read from a shapefile: its coordinates and the bounding box
      shapely gives for it. The model never relates the two: `bounds` is
      taken as given, and distances to the shape come from a function
      parameter. */
  datatype Geometry = Geometry(coords: seq<Point>, bounds: Box)

  /** The overlap test of an rtree intersection query: closed intervals on
      both axes, so boxes that only touch do intersect. */
  predicate Intersects(a: Box, b: Box)
  {
    a.minX <= b.maxX && b.minX <= a.maxX && a.minY <= b.maxY && b.minY <= a.maxY
  }

  function Abs(v: real): real { if v < 0.0 then -v else v }

  /** How far `p` lies outside box `b` along the worse of the two axes
      (0 when `p` is inside). */
  function AxisGap(b: Box, p: Point): (g: real)
    ensures g >= 0.0
    ensures g == 0.0 <==> b.Contains(p)
  {
    var gx := if p.x < b.minX then b.minX - p.x else if p.x > b.maxX then p.x - b.maxX else 0.0;
    var gy := if p.y < b.minY then b.minY - p.y else if p.y > b.maxY then p.y - b.maxY else 0.0;
    if gx < gy then gy else gx
  }

  /** `point.buffer(t).bounds` for a positive tolerance: the square that
      encloses the disk of radius `t` around `p`. A point lies in it
      exactly when it is within `t` of `p` on both axes. */
  function BufferBounds(p: Point, t: real): (b: Box)
    requires t > 0.0
    ensures b.Valid()
    ensures forall q: Point :: b.Contains(q) <==> Abs(q.x - p.x) <= t && Abs(q.y - p.y) <= t
  {
    Box(p.x - t, p.y - t, p.x + t, p.y + t)
  }

  /** The property every point-to-geometry distance has: a geometry inside
      box `g.bounds` is no nearer to `p` than the box is along either axis. */
  ghost predicate RespectsBounds(distance: (Geometry, Point) -> real, g: Geometry, p: Point)
  {
    distance(g, p) >= AxisGap(g.bounds, p)
  }

  /** A geometry within `t` of `p` has a bounding box that meets the buffer
      box of `p`: the box query never misses a geometry inside the
      tolerance. */
  lemma WithinToleranceIntersects(distance: (Geometry, Point) -> real, g: Geometry, p: Point, t: real)
    requires t > 0.0
    requires g.bounds.Valid()
    requires RespectsBounds(distance, g, p)
    requires distance(g, p) <= t
    ensures Intersects(g.bounds, BufferBounds(p, t))
  {
  }
}
