/**
 * Value types the plugin takes from its game library: worlds and
 * continuous positions (kSpigot's `SimpleLocation3D`, three doubles).
 * Doubles are modelled as reals; rounding is not modelled.
 */
module Geometry {

  /** A game world, compared by identity. */
  datatype World = World(id: nat)

  /** A continuous position in a world. */
  datatype Point = Point(x: real, y: real, z: real)

  /** The squared Euclidean distance between two points. */
  function SquaredDistance(a: Point, b: Point): (d: real)
    ensures d >= 0.0
    ensures a == b ==> d == 0.0
  {
    var dx, dy, dz := b.x - a.x, b.y - a.y, b.z - a.z;
    SquareNonNegative(dx);
    SquareNonNegative(dy);
    SquareNonNegative(dz);
    dx * dx + dy * dy + dz * dz
  }

  lemma SquareNonNegative(r: real)
    ensures r * r >= 0.0
  {
    if r < 0.0 {
      assert r * r == (-r) * (-r);
      assert (-r) * (-r) > 0.0 * (-r);
    } else if r > 0.0 {
      assert r * r > 0.0 * r;
    }
  }
}
