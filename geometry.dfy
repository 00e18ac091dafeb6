/**
 * Node geometry shared by both octree variants: Unity's Vector3 with exact real
 * coordinates, the closed bounding-cube test and the eight octant centres.
 * Unity's axes: up is +y, right is +x, forward is +z.
 */
module Geometry {

  datatype Point = Point(x: real, y: real, z: real)

  /** IsInsideBoundingBox: a closed interval test on each axis (y, then x, then z). */
  predicate InBox(center: Point, radius: real, p: Point)
  {
    && p.y <= center.y + radius && p.y >= center.y - radius
    && p.x <= center.x + radius && p.x >= center.x - radius
    && p.z <= center.z + radius && p.z >= center.z - radius
  }

  /**
   * Centre of child i as SubDivide places it: the offsets along (up, right, forward)
   * by half the radius have the signs +++, ++-, +-+, +--, -++, -+-, --+, --- for i = 0..7.
   */
  function ChildCenter(c: Point, r: real, i: int): Point
    requires 0 <= i < 8
  {
    var h := r / 2.0;
    if i == 0 then Point(c.x + h, c.y + h, c.z + h)
    else if i == 1 then Point(c.x + h, c.y + h, c.z - h)
    else if i == 2 then Point(c.x - h, c.y + h, c.z + h)
    else if i == 3 then Point(c.x - h, c.y + h, c.z - h)
    else if i == 4 then Point(c.x + h, c.y - h, c.z + h)
    else if i == 5 then Point(c.x + h, c.y - h, c.z - h)
    else if i == 6 then Point(c.x - h, c.y - h, c.z + h)
    else Point(c.x - h, c.y - h, c.z - h)
  }

  /** The octant a point falls in, read off its sign pattern against the centre. */
  function OctantIndex(c: Point, p: Point): (i: int)
    ensures 0 <= i < 8
  {
    (if p.y < c.y then 4 else 0) + (if p.x < c.x then 2 else 0) + (if p.z < c.z then 1 else 0)
  }

  /** Child i's centre is offset by exactly half the parent's radius on every axis. */
  lemma ChildCenterOffsets(c: Point, r: real, i: int)
    requires 0 <= i < 8
    ensures var q := ChildCenter(c, r, i);
      && q.y == (if i < 4 then c.y + r / 2.0 else c.y - r / 2.0)
      && q.x == (if i % 4 < 2 then c.x + r / 2.0 else c.x - r / 2.0)
      && q.z == (if i % 2 == 0 then c.z + r / 2.0 else c.z - r / 2.0)
  {
  }

  /** Every child cube lies inside its parent's cube. */
  lemma ChildBoxInsideParent(c: Point, r: real, i: int, p: Point)
    requires 0 <= i < 8
    requires InBox(ChildCenter(c, r, i), r / 2.0, p)
    ensures InBox(c, r, p)
  {
  }

  /**
   * The eight child cubes cover the parent: a point of the parent lies in the child
   * OctantIndex names, and in no child of a lower index; so OctantIndex is the child
   * a first-match scan over 0..7 picks.
   */
  lemma OctantIndexIsFirstContainingChild(c: Point, r: real, p: Point)
    requires InBox(c, r, p)
    ensures InBox(ChildCenter(c, r, OctantIndex(c, p)), r / 2.0, p)
    ensures forall j :: 0 <= j < OctantIndex(c, p) ==> !InBox(ChildCenter(c, r, j), r / 2.0, p)
  {
  }

  /** The first child of a scan whose cube holds a point of the parent is its octant. */
  lemma FirstContainingChildIsOctant(c: Point, r: real, p: Point, i: int)
    requires 0 <= i < 8 && InBox(ChildCenter(c, r, i), r / 2.0, p)
    requires forall j :: 0 <= j < i ==> !InBox(ChildCenter(c, r, j), r / 2.0, p)
    ensures i == OctantIndex(c, p)
  {
    ChildBoxInsideParent(c, r, i, p);
    OctantIndexIsFirstContainingChild(c, r, p);
  }
}
