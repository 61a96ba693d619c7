/** Points on the map and the distance between them. The Euclidean formula of
    util/distance.ts (square root of a sum of squares, in floating point) is not
    modelled; the model takes the distance as a function with the properties
    that formula has. */
module Geometry {

  datatype Point = Point(x: real, y: real)

  type Metric = (Point, Point) -> real

  /** What the model assumes of `dist`: never negative, symmetric, and zero
      exactly between a point and itself. */
  ghost predicate IsMetric(d: Metric) {
    && (forall p, q :: d(p, q) >= 0.0)
    && (forall p, q :: d(p, q) == d(q, p))
    && (forall p, q :: d(p, q) == 0.0 <==> p == q)
  }
}
