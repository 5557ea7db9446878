/** The frame-name encoding of schiebung-client/src/lib.rs. */
module ClientCodec {
  import opened CoreTypes

  /** The number of slots of an encoded name. */
  const NameSlots := 100

  /**
    The encoding of a name: its first 100 characters, then '\0' in every slot
    the name does not reach.
  */
  function Encoded(input: string): (r: CharArray)
    ensures forall i | 0 <= i < NameSlots :: r[i] == if i < |input| then input[i] else '\0'
  {
    var n := if |input| < NameSlots then |input| else NameSlots;
    input[..n] + seq(NameSlots - n, _ => '\0')
  }

  /** Characters past the 100th do not matter. */
  lemma {:induction false} EncodedTruncates(input: string)
    requires |input| > NameSlots
    ensures Encoded(input) == Encoded(input[..NameSlots])
  {
    var a, b := Encoded(input), Encoded(input[..NameSlots]);
    forall i | 0 <= i < NameSlots
      ensures a[i] == b[i]
    {
    }
  }

  /** `encode_char_array`: fills a '\0'-initialised array with the characters of the name, stopping at 100. */
  method EncodeCharArray(input: string) returns (charArray: array<char>)
    ensures charArray.Length == NameSlots
    ensures charArray[..] == Encoded(input)
  {
    charArray := new char[NameSlots](_ => '\0');
    var i := 0;
    while i < |input|
      invariant 0 <= i <= |input| && i <= NameSlots
      invariant forall k | 0 <= k < NameSlots :: charArray[k] == if k < i then input[k] else '\0'
    {
      if i < NameSlots {
        charArray[i] := input[i];
      } else {
        break;
      }
      i := i + 1;
    }
    assert forall k | 0 <= k < NameSlots :: charArray[..][k] == Encoded(input)[k];
  }
}
