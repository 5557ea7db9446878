/**
  The value types of the transform buffer crate (schiebung-core/src/types.rs):
  the transform kind, the fixed-layout messages exchanged with the server, and
  the stamped isometry the buffer stores, whose `f64` stamp is modelled as a
  real number (NaN is not modelled).
*/
module CoreTypes {
  import opened Wrappers
  import opened Geometry

  type Byte = x: int | 0 <= x < 0x100

  /** Dynamic has discriminant 0, Static has discriminant 1. */
  datatype TransformType = Dynamic | Static

  /** `TransformType::try_from(u8)`: 0 is Dynamic, 1 is Static, every other byte is refused. */
  function TryFrom(v: Byte): (r: Result<TransformType, ()>)
    ensures r.Ok? <==> v < 2
    ensures r == Ok(Dynamic) <==> v == 0
    ensures r == Ok(Static) <==> v == 1
  {
    match v
    case 0 => Ok(Dynamic)
    case 1 => Ok(Static)
    case _ => Err(())
  }

  /** A `[char; 100]` frame name as it travels in a message. */
  type CharArray = s: seq<char> | |s| == 100 witness seq(100, _ => '\0')

  datatype TransformRequest = TransformRequest(id: nat, from: CharArray, to: CharArray, time: real)

  datatype TransformResponse = TransformResponse(id: nat, time: real, translation: Array3, rotation: Array4)

  datatype NewTransform =
    NewTransform(from: CharArray, to: CharArray, time: real, translation: Array3, rotation: Array4, kind: Byte)

  datatype StampedTransform = StampedTransform(stamp: real, translation: Vec3, rotation: UnitQuaternion)

  /** The stamped isometry the buffer stores; `PartialEq` and `Ord` look at the stamp only. */
  datatype StampedIsometry = StampedIsometry(isometry: Isometry, stamp: real)
  {
    predicate Eq(other: StampedIsometry) {
      stamp == other.stamp
    }

    /** `Ord::cmp`, which unwraps `partial_cmp` of the stamps. */
    function Cmp(other: StampedIsometry): (o: Ordering)
      ensures o == Less <==> stamp < other.stamp
      ensures o == Equal <==> Eq(other)
      ensures o == Greater <==> stamp > other.stamp
    {
      if stamp < other.stamp then Less
      else if stamp == other.stamp then Equal
      else Greater
    }
  }

  datatype Ordering = Less | Equal | Greater

  /** `Into<StampedTransform> for TransformResponse`: the time becomes the stamp, the arrays become the parts. */
  function ResponseToStampedTransform(r: TransformResponse): (s: StampedTransform)
    ensures s.stamp == r.time
    ensures s.translation == Vec3(r.translation[0], r.translation[1], r.translation[2])
    ensures s.rotation == Normalize(Quaternion(r.rotation[3], r.rotation[0], r.rotation[1], r.rotation[2]))
  {
    var p := PoseFromArrays(r.translation, r.rotation);
    StampedTransform(r.time, p.translation, p.rotation)
  }

  /** `Into<StampedIsometry> for TransformResponse`: the time becomes the stamp, the arrays the pose. */
  function ResponseToStampedIsometry(r: TransformResponse): (s: StampedIsometry)
    ensures s.stamp == r.time
    ensures s.isometry.FromParts?
    ensures TranslationArray(s.isometry.pose) == r.translation
  {
    TranslationRoundTrip(r.translation, r.rotation);
    StampedIsometry(FromParts(PoseFromArrays(r.translation, r.rotation)), r.time)
  }

  /** Both conversions of one response agree on stamp, translation and rotation. */
  lemma ConversionsAgree(r: TransformResponse)
    ensures ResponseToStampedIsometry(r).isometry.pose.translation == ResponseToStampedTransform(r).translation
    ensures ResponseToStampedIsometry(r).isometry.pose.rotation == ResponseToStampedTransform(r).rotation
    ensures ResponseToStampedIsometry(r).stamp == ResponseToStampedTransform(r).stamp
  {
  }

  /** On comparable stamps `cmp` is a total order in which Equal means `eq`. */
  lemma CmpIsTotalOrder(a: StampedIsometry, b: StampedIsometry, c: StampedIsometry)
    ensures a.Cmp(b) == Less <==> b.Cmp(a) == Greater
    ensures a.Cmp(b) == Equal <==> b.Cmp(a) == Equal
    ensures a.Cmp(b) != Greater && b.Cmp(c) != Greater ==> a.Cmp(c) != Greater
  {
  }
}
