/**
  The geometric values the transform buffer stores and combines.

  Rigid-body isometries are kept abstract: an isometry is a term built from
  its parts, the identity, composition, inversion and the translation/rotation
  blend (`lerp_slerp`). No algebraic law holds between the terms, so a
  contract stating that a lookup returns a given term states exactly which
  products, inverses and blends the lookup performed, in which order.
*/
module Geometry {

  /** A three-component translation vector. */
  datatype Vec3 = Vec3(x: real, y: real, z: real)

  /** A raw quaternion with the real part first, as `Quaternion::new(w, i, j, k)` takes it. */
  datatype Quaternion = Quaternion(w: real, i: real, j: real, k: real)

  /** A unit quaternion obtained by normalising a raw one; the normalisation itself is not computed. */
  datatype UnitQuaternion = Normalize(raw: Quaternion)

  /** An isometry given by its two parts, as `Isometry3::from_parts` builds it. */
  datatype Pose = Pose(translation: Vec3, rotation: UnitQuaternion)

  /** `[f64; 3]` and `[f64; 4]`, the fixed-size arrays the constructors take. */
  type Array3 = s: seq<real> | |s| == 3 witness [0.0, 0.0, 0.0]
  type Array4 = s: seq<real> | |s| == 4 witness [0.0, 0.0, 0.0, 0.0]

  /**
    The pose `Isometry3::from_parts(Translation3::new(t[0], t[1], t[2]),
    normalise(Quaternion::new(r[3], r[0], r[1], r[2])))`: the rotation array is
    given as [x, y, z, w] and the quaternion is built with w first.
  */
  function PoseFromArrays(t: Array3, r: Array4): (p: Pose)
    ensures p.translation == Vec3(t[0], t[1], t[2])
    ensures p.rotation.raw.w == r[3] && p.rotation.raw.i == r[0]
    ensures p.rotation.raw.j == r[1] && p.rotation.raw.k == r[2]
  {
    Pose(Vec3(t[0], t[1], t[2]), Normalize(Quaternion(r[3], r[0], r[1], r[2])))
  }

  /** The translation of a pose as the array [x, y, z]. */
  function TranslationArray(p: Pose): (t: Array3)
    ensures t[0] == p.translation.x && t[1] == p.translation.y && t[2] == p.translation.z
  {
    [p.translation.x, p.translation.y, p.translation.z]
  }

  /** Reading the translation back gives the array the pose was built from. */
  lemma TranslationRoundTrip(t: Array3, r: Array4)
    ensures TranslationArray(PoseFromArrays(t, r)) == t
  {
    var back := TranslationArray(PoseFromArrays(t, r));
    assert back[0] == t[0] && back[1] == t[1] && back[2] == t[2];
  }

  datatype Isometry =
    | Identity
    | FromParts(pose: Pose)
    | Mul(lhs: Isometry, rhs: Isometry)
    | Inverse(of: Isometry)
    | LerpSlerp(start: Isometry, end: Isometry, weight: real)
}
