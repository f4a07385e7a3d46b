/**
  The planar geometry engine that ring assembly calls into, seen only through
  the results it returns. Coordinates, areas and the intersection test are the
  engine's business; the model fixes nothing about them beyond what the
  assembly algorithm observes.
*/
module Geometry {

  /** A vertex of a ring, as the coordinate pair (x, y) the archive gives. */
  datatype Point = Point(x: real, y: real)

  /** A closed sequence of vertices. */
  type Ring = seq<Point>

  /** The rings of one polygon in the order the engine lists them:
      the exterior ring first, then each interior ring in the order it was added. */
  type Polygon = seq<Ring>

  /** The status code of an engine operation: `Success` or an error code. */
  datatype OpResult = Success | Failed(code: int)

  /**
    An engine, as the results of the five calls ring assembly makes:
    - `addPoints(pts)`: the status of building a polygon geometry from the points;
    - `exterior(pts)`: after a successful build, the polygon's single ring as the engine stores it;
    - `area(ring)`: the area of the one-ring polygon with that ring;
    - `intersects(ring, p)`: whether the one-ring polygon with that ring intersects polygon `p`;
    - `addRing(p, ring)`: the status of adding `ring` to polygon `p` as an interior ring;
      on success the ring is appended to `p`'s rings.
  */
  datatype Engine = Engine(
    addPoints: seq<Point> -> OpResult,
    exterior: seq<Point> -> Ring,
    area: Ring -> int,
    intersects: (Ring, Polygon) -> bool,
    addRing: (Polygon, Ring) -> OpResult)
}
