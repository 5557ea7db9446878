/**
  The two conversions of comms/src/lib.rs between the `schiebung` crate's
  transform type and the Cap'n Proto message enum `TransformKind`.
*/
module CommsKind {
  import CoreRsTypes

  /** The generated Cap'n Proto enum. */
  datatype TransformKind = Static | Dynamic

  /** `From<TransformType> for TransformKind`. */
  function ToKind(tt: CoreRsTypes.TransformType): (tk: TransformKind)
    ensures tk == Static <==> tt == CoreRsTypes.Static
    ensures tk == Dynamic <==> tt == CoreRsTypes.Dynamic
  {
    match tt
    case Static => Static
    case Dynamic => Dynamic
  }

  /** `From<TransformKind> for TransformType`. */
  function FromKind(tk: TransformKind): (tt: CoreRsTypes.TransformType)
    ensures tt == CoreRsTypes.Static <==> tk == Static
    ensures tt == CoreRsTypes.Dynamic <==> tk == Dynamic
  {
    match tk
    case Static => CoreRsTypes.Static
    case Dynamic => CoreRsTypes.Dynamic
  }

  /** The two conversions are mutually inverse. */
  lemma KindRoundTrips(tt: CoreRsTypes.TransformType, tk: TransformKind)
    ensures FromKind(ToKind(tt)) == tt
    ensures ToKind(FromKind(tk)) == tk
  {
  }
}
