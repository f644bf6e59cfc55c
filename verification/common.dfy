/** Small shared vocabulary: optional values, bytes, and the byte/character
    conversions the transport performs in both directions. */
module Common {

  datatype Option<T> = None | Some(value: T)

  /** An element of a `Uint8Array`. */
  type Byte = b: int | 0 <= b < 0x100

  /** The string built from bytes by `String.fromCharCode`, one character per
      byte whose code is the byte's value. */
  function CharsOfBytes(bs: seq<Byte>): (s: string)
    ensures |s| == |bs|
    ensures forall k :: 0 <= k < |bs| ==> s[k] as int == bs[k]
  {
    seq(|bs|, k requires 0 <= k < |bs| => bs[k] as char)
  }

  /** The bytes stored when each character code is written into a
      `Uint8Array`, which keeps the code modulo 256. */
  function BytesOfChars(s: string): (bs: seq<Byte>)
    ensures |bs| == |s|
    ensures forall k :: 0 <= k < |s| ==> bs[k] == s[k] as int % 0x100
    ensures forall k :: 0 <= k < |s| && s[k] as int < 0x100 ==> bs[k] == s[k] as int
  {
    seq(|s|, k requires 0 <= k < |s| => s[k] as int % 0x100)
  }

  /** Bytes turned into a string and back come out unchanged. */
  lemma BytesCharsRoundTrip(bs: seq<Byte>)
    ensures BytesOfChars(CharsOfBytes(bs)) == bs
  {
    var s := CharsOfBytes(bs);
    forall k | 0 <= k < |bs|
      ensures BytesOfChars(s)[k] == bs[k]
    {
      assert s[k] as int == bs[k];
    }
  }
}
