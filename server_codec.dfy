/** The frame-name decoding of schiebung-server/src/lib.rs. */
module ServerCodec {
  import opened CoreTypes
  import ClientCodec

  /** `take_while(c != '\0')`: the longest prefix without '\0'. */
  function TakeWhileNotNul(s: seq<char>): (r: seq<char>)
    ensures |r| <= |s| && r == s[..|r|]
    ensures '\0' !in r
    ensures |r| < |s| ==> s[|r|] == '\0'
  {
    if |s| == 0 || s[0] == '\0' then [] else [s[0]] + TakeWhileNotNul(s[1..])
  }

  /** `decode_char_array`: the characters before the first '\0'. */
  function DecodeCharArray(arr: CharArray): (name: string)
    ensures |name| <= 100 && name == arr[..|name|]
    ensures '\0' !in name
    ensures |name| < 100 ==> arr[|name|] == '\0'
    ensures |name| == 100 <==> '\0' !in arr
  {
    var r := TakeWhileNotNul(arr);
    assert |r| < 100 ==> arr[|r|] == '\0';
    r
  }

  /** Decoding inverts the client's encoding on names of at most 100 characters without '\0'. */
  lemma DecodeEncoded(name: string)
    requires |name| <= ClientCodec.NameSlots && '\0' !in name
    ensures DecodeCharArray(ClientCodec.Encoded(name)) == name
  {
    var arr := ClientCodec.Encoded(name);
    var d := DecodeCharArray(arr);
    assert forall i | 0 <= i < |name| :: arr[i] == name[i] != '\0';
    assert |name| < 100 ==> arr[|name|] == '\0';
    assert |d| == |name|;
  }
}
