/**
 * Byte mode payload: one 8-bit field per byte of the text (section 7.4.5 of
 * ISO/IEC 18004:2015).
 */
module EightBitModes {
  import opened Bits

  /** The value and width fields byte mode appends after the character count. */
  function EightBitPayload(s: seq<Byte>): (p: seq<Field>)
    ensures |p| == |s|
  {
    seq(|s|, k requires 0 <= k < |s| => Field(s[k], 8))
  }

  /** A reader's view of the payload: each field back to its byte. */
  function DecodeEightBit(p: seq<Field>): seq<Byte>
  {
    seq(|p|, k requires 0 <= k < |p| => Chr(p[k].value))
  }

  /** Every value is a byte, so it fits its eight bits. */
  lemma EightBitPayloadFits(s: seq<Byte>)
    ensures Fits(EightBitPayload(s))
    ensures forall k :: 0 <= k < |s| ==> EightBitPayload(s)[k].value <= 255
  {
    assert Pow2(8) == 256;
  }

  /** The payload carries exactly eight bits per byte. */
  lemma {:induction false} EightBitPayloadWidth(s: seq<Byte>)
    ensures TotalWidth(EightBitPayload(s)) == 8 * |s|
    decreases |s|
  {
    if s != [] {
      var s' := s[..|s| - 1];
      EightBitPayloadWidth(s');
      assert EightBitPayload(s)[..|s| - 1] == EightBitPayload(s');
    }
  }

  lemma EightBitRoundTrip(s: seq<Byte>)
    ensures DecodeEightBit(EightBitPayload(s)) == s
  {
  }
}
