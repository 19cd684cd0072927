/**
 * Positions and the physics queries the graph editor relies on.
 *
 * Unity's single-precision vectors become triples of reals: the editor only
 * adds, copies and compares them. The physics engine is not modelled; a
 * raycast is an oracle from (origin, direction, reach) to a hit or a miss.
 */
module Geometry {

  /** A point or offset in world space (Unity's Vector3). */
  datatype Vec3 = Vec3(x: real, y: real, z: real) {
    function Add(other: Vec3): Vec3 {
      Vec3(x + other.x, y + other.y, z + other.z)
    }
  }

  /** The ray directions the editor casts: Vector3.down, forward, back, right, left. */
  datatype Direction = Down | Forward | Back | Right | Left

  /** The maximum distance of a raycast: Mathf.Infinity or a finite bound. */
  datatype Reach = Unlimited | UpTo(distance: real)

  /**
   * What a raycast reports when it strikes a collider: the contact point, the
   * layer of the struck object, and the angle in degrees (0 to 180) between
   * the struck object's up direction and the surface normal at the contact,
   * which is what Vector3.Angle computes from the hit.
   */
  datatype Hit = Hit(point: Vec3, layer: int, slope: real)

  datatype Option<T> = None | Some(value: T)

  /** Physics.Raycast: a hit, or None when nothing lies within reach. */
  type RaycastOracle = (Vec3, Direction, Reach) -> Option<Hit>
}
