/** Model of the rotation cycle of src/camera.rs: the four views the camera
    takes around the player and the horizontal offset each one stands at. */
module Camera {

  datatype CamRotation = Behind | Forward | FromRight | FromLeft

  /** The position of a view along the `rotate_add` cycle
      Behind, FromLeft, Forward, FromRight. */
  function CycleIndex(r: CamRotation): (i: nat)
    ensures i < 4
  {
    match r
    case Behind => 0
    case FromLeft => 1
    case Forward => 2
    case FromRight => 3
  }

  /** The cycle index names exactly one view. */
  lemma CycleIndexInjective(r: CamRotation, s: CamRotation)
    ensures CycleIndex(r) == CycleIndex(s) ==> r == s
  {
  }

  /** `rotate_add`: one step forward along the cycle. */
  function RotateAdd(r: CamRotation): (s: CamRotation)
    ensures CycleIndex(s) == (CycleIndex(r) + 1) % 4
    ensures s != r
  {
    match r
    case Behind => FromLeft
    case FromLeft => Forward
    case Forward => FromRight
    case FromRight => Behind
  }

  /** `rotate_sub`: one step back along the cycle. */
  function RotateSub(r: CamRotation): (s: CamRotation)
    ensures CycleIndex(s) == (CycleIndex(r) + 3) % 4
    ensures s != r
  {
    match r
    case Behind => FromRight
    case FromRight => Forward
    case Forward => FromLeft
    case FromLeft => Behind
  }

  /** Each of `rotate_add` and `rotate_sub` undoes the other. */
  lemma RotateRoundTrip(r: CamRotation)
    ensures RotateSub(RotateAdd(r)) == r
    ensures RotateAdd(RotateSub(r)) == r
  {
  }

  /** Four steps in the same direction come back to the start. */
  lemma FourStepsIdentity(r: CamRotation)
    ensures RotateAdd(RotateAdd(RotateAdd(RotateAdd(r)))) == r
    ensures RotateSub(RotateSub(RotateSub(RotateSub(r)))) == r
  {
  }

  /** A 3-vector of reals standing for `glm::TVec3<f32>`. */
  datatype Vec3 = Vec3(x: real, y: real, z: real)

  /** `rotate(distance)`: the offset of the view, on the ground plane and
      `distance` away along one horizontal axis. */
  function Rotate(r: CamRotation, distance: real): (v: Vec3)
    ensures v.y == 0.0
    ensures (v.x == 0.0 && (v.z == distance || v.z == -distance))
         || (v.z == 0.0 && (v.x == distance || v.x == -distance))
    ensures r == Behind ==> v == Vec3(0.0, 0.0, -distance)
    ensures r == Forward ==> v == Vec3(0.0, 0.0, distance)
    ensures r == FromRight ==> v == Vec3(-distance, 0.0, 0.0)
    ensures r == FromLeft ==> v == Vec3(distance, 0.0, 0.0)
  {
    var padding :=
      match r
      case Behind => Vec3(0.0, 0.0, -1.0)
      case FromRight => Vec3(-1.0, 0.0, 0.0)
      case Forward => Vec3(0.0, 0.0, 1.0)
      case FromLeft => Vec3(1.0, 0.0, 0.0);
    Vec3(padding.x * distance, padding.y * distance, padding.z * distance)
  }

  /** One `rotate_add` turns the offset a quarter turn about the vertical
      axis, so two of them point it the opposite way. */
  lemma RotateAddTurnsOffset(r: CamRotation, distance: real)
    ensures Rotate(RotateAdd(r), distance) == Vec3(-Rotate(r, distance).z, 0.0, Rotate(r, distance).x)
    ensures Rotate(RotateAdd(RotateAdd(r)), distance) ==
      Vec3(-Rotate(r, distance).x, 0.0, -Rotate(r, distance).z)
  {
  }
}
