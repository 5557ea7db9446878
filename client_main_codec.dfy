/** The copy of the frame-name encoding in schiebung-client/src/main.rs. */
module ClientMainCodec {
  import ClientCodec

  /** Same loop as the library copy; it produces the library's encoding on every name. */
  method EncodeCharArray(input: string) returns (charArray: array<char>)
    ensures charArray.Length == ClientCodec.NameSlots
    ensures charArray[..] == ClientCodec.Encoded(input)
  {
    charArray := new char[ClientCodec.NameSlots](_ => '\0');
    var i := 0;
    while i < |input|
      invariant 0 <= i <= |input| && i <= ClientCodec.NameSlots
      invariant forall k | 0 <= k < ClientCodec.NameSlots :: charArray[k] == if k < i then input[k] else '\0'
    {
      if i < ClientCodec.NameSlots {
        charArray[i] := input[i];
      } else {
        break;
      }
      i := i + 1;
    }
    assert forall k | 0 <= k < ClientCodec.NameSlots :: charArray[..][k] == ClientCodec.Encoded(input)[k];
  }
}
