/**
  The value types of the `schiebung` crate (core/schiebung-core-rs/src/types.rs):
  the transform kind with its byte and text forms, and the stamped isometry
  whose stamp is a signed 64-bit count of nanoseconds.
*/
module CoreRsTypes {
  import opened Wrappers
  import opened Geometry

  type Byte = x: int | 0 <= x < 0x100
  newtype Int64 = x: int | -0x8000_0000_0000_0000 <= x < 0x8000_0000_0000_0000

  /** Dynamic has discriminant 0, Static has discriminant 1. */
  datatype TransformType = Dynamic | Static

  /** `kind as u8`, the discriminant of the variant. */
  function Discriminant(kind: TransformType): (b: Byte)
    ensures b < 2
    ensures b == 0 <==> kind == Dynamic
  {
    match kind
    case Dynamic => 0
    case Static => 1
  }

  /** `TransformType::try_from(u8)`: the two discriminants decode, every other byte is refused. */
  function TryFrom(v: Byte): (r: Result<TransformType, ()>)
    ensures r.Ok? <==> v < 2
    ensures r.Ok? ==> Discriminant(r.value) == v
  {
    match v
    case 0 => Ok(Dynamic)
    case 1 => Ok(Static)
    case _ => Err(())
  }

  /** Decoding the discriminant gives the variant back. */
  lemma TryFromDiscriminant(kind: TransformType)
    ensures TryFrom(Discriminant(kind)) == Ok(kind)
  {
  }

  function StaticTransform(): (kind: TransformType)
    ensures Discriminant(kind) == 1
  {
    Static
  }

  function DynamicTransform(): (kind: TransformType)
    ensures Discriminant(kind) == 0
  {
    Dynamic
  }

  /** The `Display` text of a kind. */
  function ToString(kind: TransformType): (s: string)
    ensures kind == Static <==> s == "TransformType.STATIC"
    ensures kind == Dynamic <==> s == "TransformType.DYNAMIC"
  {
    match kind
    case Static => "TransformType.STATIC"
    case Dynamic => "TransformType.DYNAMIC"
  }

  /** The ordering `Ord::cmp` yields. */
  datatype Ordering = Less | Equal | Greater

  datatype StampedIsometry = StampedIsometry(isometry: Pose, stamp: Int64)
  {
    /** `PartialEq`: two stamped isometries are equal when their stamps are; the isometry is ignored. */
    predicate Eq(other: StampedIsometry) {
      stamp == other.stamp
    }

    /** `Ord::cmp`: the order of the stamps. */
    function Cmp(other: StampedIsometry): (o: Ordering)
      ensures o == Less <==> stamp < other.stamp
      ensures o == Equal <==> Eq(other)
      ensures o == Greater <==> stamp > other.stamp
    {
      if stamp < other.stamp then Less
      else if stamp == other.stamp then Equal
      else Greater
    }

    /** The stored stamp. */
    function Stamp(): Int64 {
      stamp
    }

    /** The translation as [x, y, z]. */
    function Translation(): Array3 {
      TranslationArray(isometry)
    }
  }

  /** `StampedIsometry::new`: translation [x, y, z], rotation [x, y, z, w], stamp in nanoseconds. */
  function New(translation: Array3, rotation: Array4, stampNs: Int64): (s: StampedIsometry)
    ensures s.stamp == stampNs
    ensures s.isometry == PoseFromArrays(translation, rotation)
  {
    StampedIsometry(PoseFromArrays(translation, rotation), stampNs)
  }

  /** The accessors give back what the constructor was given. */
  lemma NewAccessors(translation: Array3, rotation: Array4, stampNs: Int64)
    ensures New(translation, rotation, stampNs).Stamp() == stampNs
    ensures New(translation, rotation, stampNs).Translation() == translation
  {
    TranslationRoundTrip(translation, rotation);
  }

  /** `cmp` is a total order in which the two directions agree and Equal means `eq`. */
  lemma CmpIsTotalOrder(a: StampedIsometry, b: StampedIsometry, c: StampedIsometry)
    ensures a.Cmp(b) == Less <==> b.Cmp(a) == Greater
    ensures a.Cmp(b) == Equal <==> b.Cmp(a) == Equal
    ensures a.Cmp(a) == Equal
    ensures a.Cmp(b) != Greater && b.Cmp(c) != Greater ==> a.Cmp(c) != Greater
  {
  }
}
