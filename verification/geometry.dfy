/**
 * Exact stand-ins for the engine's vector types. Coordinates are reals, so the
 * sign of a dot product, and with it the crossing test, is decided exactly.
 * Rotations are carried around but never computed with.
 */
module Geometry {

  datatype Vec3 = Vec3(x: real, y: real, z: real)

  /** Vector3.zero: the value of a position slot that was never written. */
  const Origin: Vec3 := Vec3(0.0, 0.0, 0.0)

  /** A rotation. default(Quaternion) has all four components zero. */
  datatype Quat = Quat(x: real, y: real, z: real, w: real)

  const ZeroQuat: Quat := Quat(0.0, 0.0, 0.0, 0.0)

  /** The world position and rotation of a transform or of a camera. */
  datatype Pose = Pose(position: Vec3, rotation: Quat)

  /** The pose stored in a render slot that the schedule loop never wrote. */
  const DefaultPose: Pose := Pose(Origin, ZeroQuat)

  /** A portal's transform: world position, rotation and forward axis. */
  datatype Frame = Frame(position: Vec3, rotation: Quat, forward: Vec3)

  /**
   * carry(from, to, p) is the pose read back (translation column and rotation)
   * from `to.localToWorldMatrix * from.worldToLocalMatrix * p`: the pose that
   * stands to `to` as `p` stands to `from`. The matrix algebra is not modelled,
   * so every operation that needs it takes the map as a parameter.
   */
  type Relay = (Frame, Frame, Pose) -> Pose

  function Sub(a: Vec3, b: Vec3): Vec3 {
    Vec3(a.x - b.x, a.y - b.y, a.z - b.z)
  }

  function Dot(a: Vec3, b: Vec3): real {
    a.x * b.x + a.y * b.y + a.z * b.z
  }

  /** System.Math.Sign: one of -1, 0, +1, agreeing with the sign of r. */
  function Sign(r: real): (s: int)
    ensures -1 <= s <= 1
    ensures s == 1 <==> r > 0.0
    ensures s == -1 <==> r < 0.0
  {
    if r > 0.0 then 1 else if r < 0.0 then -1 else 0
  }

  /**
   * Which side of the portal's plane `pos` lies on: +1 in front (along the
   * forward axis), -1 behind, 0 on the plane itself.
   */
  function SideOfPortal(portal: Frame, pos: Vec3): (side: int)
    ensures side == 1 <==> Dot(Sub(pos, portal.position), portal.forward) > 0.0
    ensures side == -1 <==> Dot(Sub(pos, portal.position), portal.forward) < 0.0
    ensures side == 0 <==> Dot(Sub(pos, portal.position), portal.forward) == 0.0
  {
    Sign(Dot(Sub(pos, portal.position), portal.forward))
  }

  /**
   * The crossing test of HandleTravelers: the side of the traveler's current
   * position differs from the side of the offset stored the previous frame.
   */
  predicate Crosses(portal: Frame, pos: Vec3, previousOffset: Vec3) {
    SideOfPortal(portal, pos) != Sign(Dot(previousOffset, portal.forward))
  }

  /**
   * With the stored offset taken from an earlier position p0, the test fires
   * exactly when p0 and p1 lie on different sides (the plane itself counting
   * as a side of its own).
   */
  lemma CrossesIffSideChanged(portal: Frame, p0: Vec3, p1: Vec3)
    ensures Crosses(portal, p1, Sub(p0, portal.position))
            <==> SideOfPortal(portal, p0) != SideOfPortal(portal, p1)
  {
  }

  /** Stepping from strictly one side to strictly the other is a crossing. */
  lemma StrictSidesCross(portal: Frame, pos: Vec3, previousOffset: Vec3)
    requires Dot(previousOffset, portal.forward) < 0.0 < Dot(Sub(pos, portal.position), portal.forward)
             || Dot(Sub(pos, portal.position), portal.forward) < 0.0 < Dot(previousOffset, portal.forward)
    ensures Crosses(portal, pos, previousOffset)
  {
  }

  /** Moving onto the plane, or off it, counts as a crossing too. */
  lemma PlaneContactCrosses(portal: Frame, pos: Vec3, previousOffset: Vec3)
    requires (Dot(Sub(pos, portal.position), portal.forward) == 0.0) != (Dot(previousOffset, portal.forward) == 0.0)
    ensures Crosses(portal, pos, previousOffset)
  {
  }
}
