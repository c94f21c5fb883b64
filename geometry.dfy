/** Plane geometry of the play field, reduced to what the simulation decides with:
    every range test of the game has the form `distance(a, b) < r`. */
module Geometry {

  /** A point of the play field (the source's QPointF), with exact real coordinates. */
  datatype Point = Point(x: real, y: real)

  /** Square of the Euclidean distance between two points. The source's `distance`
      is its square root; since the square root is monotone, comparing squares
      decides every comparison the source makes between distances. */
  function DistSq(a: Point, b: Point): (d: real)
    ensures d >= 0.0
    ensures a == b ==> d == 0.0
  {
    var dx, dy := a.x - b.x, a.y - b.y;
    assert dx * dx >= 0.0 && dy * dy >= 0.0;
    dx * dx + dy * dy
  }

  /** `distance(a, b) < r` for a non-negative radius r. */
  predicate Within(a: Point, b: Point, r: nat)
  {
    DistSq(a, b) < (r * r) as real
  }

  /** The movement step `dir / dist * speed` (a point moved towards a target by a
      speed) involves a square root and a division; the host supplies it. */
  type Mover = (Point, Point, int) -> Point
}
