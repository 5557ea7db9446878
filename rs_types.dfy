/**
  The value types of schiebung-core-rs/src/types.rs: the same transform kind
  as the `schiebung` crate, and a stamped isometry whose stamp is an `f64`,
  modelled as a real number (NaN is not modelled, so `partial_cmp` never fails).
*/
module RsTypes {
  import opened Wrappers
  import opened Geometry

  type Byte = x: int | 0 <= x < 0x100

  /** Dynamic has discriminant 0, Static has discriminant 1. */
  datatype TransformType = Dynamic | Static

  /** `kind as u8`, the discriminant of the variant. */
  function Discriminant(kind: TransformType): (b: Byte)
    ensures b < 2
    ensures b == 0 <==> kind == Dynamic
  {
    match kind
    case Dynamic => 0
    case Static => 1
  }

  /** `TransformType::try_from(u8)`: the two discriminants decode, every other byte is refused. */
  function TryFrom(v: Byte): (r: Result<TransformType, ()>)
    ensures r.Ok? <==> v < 2
    ensures r.Ok? ==> Discriminant(r.value) == v
  {
    match v
    case 0 => Ok(Dynamic)
    case 1 => Ok(Static)
    case _ => Err(())
  }

  function StaticTransform(): (kind: TransformType)
    ensures Discriminant(kind) == 1
  {
    Static
  }

  function DynamicTransform(): (kind: TransformType)
    ensures Discriminant(kind) == 0
  {
    Dynamic
  }

  /** The `Display` text of a kind. */
  function ToString(kind: TransformType): (s: string)
    ensures kind == Static <==> s == "TransformType.STATIC"
    ensures kind == Dynamic <==> s == "TransformType.DYNAMIC"
  {
    match kind
    case Static => "TransformType.STATIC"
    case Dynamic => "TransformType.DYNAMIC"
  }

  /** The ordering `Ord::cmp` yields. */
  datatype Ordering = Less | Equal | Greater

  datatype StampedIsometry = StampedIsometry(isometry: Pose, stamp: real)
  {
    /** `PartialEq`: two stamped isometries are equal when their stamps are; the isometry is ignored. */
    predicate Eq(other: StampedIsometry) {
      stamp == other.stamp
    }

    /** `Ord::cmp`, which unwraps `partial_cmp` of the stamps. */
    function Cmp(other: StampedIsometry): (o: Ordering)
      ensures o == Less <==> stamp < other.stamp
      ensures o == Equal <==> Eq(other)
      ensures o == Greater <==> stamp > other.stamp
    {
      if stamp < other.stamp then Less
      else if stamp == other.stamp then Equal
      else Greater
    }

    /** The stored stamp. */
    function Stamp(): real {
      stamp
    }

    /** The translation as [x, y, z]. */
    function Translation(): Array3 {
      TranslationArray(isometry)
    }
  }

  /** `StampedIsometry::new`: translation [x, y, z], rotation [x, y, z, w], stamp. */
  function New(translation: Array3, rotation: Array4, stamp: real): (s: StampedIsometry)
    ensures s.stamp == stamp
    ensures s.isometry == PoseFromArrays(translation, rotation)
  {
    StampedIsometry(PoseFromArrays(translation, rotation), stamp)
  }

  /** The accessors give back what the constructor was given. */
  lemma NewAccessors(translation: Array3, rotation: Array4, stamp: real)
    ensures New(translation, rotation, stamp).Stamp() == stamp
    ensures New(translation, rotation, stamp).Translation() == translation
  {
    TranslationRoundTrip(translation, rotation);
  }

  /** On comparable stamps `cmp` is a total order in which Equal means `eq`. */
  lemma CmpIsTotalOrder(a: StampedIsometry, b: StampedIsometry, c: StampedIsometry)
    ensures a.Cmp(b) == Less <==> b.Cmp(a) == Greater
    ensures a.Cmp(b) == Equal <==> b.Cmp(a) == Equal
    ensures a.Cmp(a) == Equal
    ensures a.Cmp(b) != Greater && b.Cmp(c) != Greater ==> a.Cmp(c) != Greater
  {
  }
}
