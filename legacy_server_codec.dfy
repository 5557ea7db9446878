/** The copy of the frame-name decoding in schiebung_server/src/lib.rs. */
module LegacyServerCodec {
  import opened CoreTypes
  import ServerCodec

  /** Same `take_while` as the other server crate; it decodes every array the same way. */
  function DecodeCharArray(arr: CharArray): (name: string)
    ensures name == ServerCodec.DecodeCharArray(arr)
    ensures '\0' !in name && |name| <= 100
  {
    ServerCodec.TakeWhileNotNul(arr)
  }
}
