/**
 * The two shapely measurements the core relies on, as an injected oracle.
 *
 * src/plan.py computes polygon areas with shapely; the model treats each
 * measurement as a given function of the two polygons and keeps the
 * thresholds the source compares them against.
 */
module Geometry {

  type Point = (real, real)

  /** An outline as the parser yields it: an ordered list of vertices. */
  type Polygon = seq<Point>

  datatype Oracle = Oracle(
    /** Area of `a.buffer(1.0).intersection(b.buffer(1.0))`: both rooms grown by 1.0 first. */
    bufferedRoomOverlap: (Polygon, Polygon) -> real,
    /** Area of `room.intersection(door.buffer(1.0))`: only the door is grown. */
    roomDoorOverlap: (Polygon, Polygon) -> real)

  /** Two rooms touch structurally when their buffered overlap exceeds this area. */
  const WallOverlapThreshold: real := 5.0

  /** A door opens into a room when its buffered overlap with the room exceeds this area. */
  const DoorOverlapThreshold: real := 10.0

  predicate WallAdjacent(g: Oracle, a: Polygon, b: Polygon) {
    g.bufferedRoomOverlap(a, b) > WallOverlapThreshold
  }

  predicate DoorOpensInto(g: Oracle, room: Polygon, door: Polygon) {
    g.roomDoorOverlap(room, door) > DoorOverlapThreshold
  }

  /** Intersection is commutative; floating-point shapely need not be, so this is an assumption where used. */
  ghost predicate SymmetricOverlap(g: Oracle) {
    forall a, b :: g.bufferedRoomOverlap(a, b) == g.bufferedRoomOverlap(b, a)
  }
}
