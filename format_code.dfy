/**
 * The 32 format words of `formatInformation` derived from their five data
 * bits, as section 7.9.1 of ISO/IEC 18004:2015 prescribes: the (15,5) BCH
 * code with generator x^10 + x^8 + x^5 + x^4 + x^2 + x + 1, XOR-ed with
 * 101010000010010. A polynomial over GF(2) of degree below 15 is a 15-bit
 * vector, bit k the coefficient of x^k.
 */
module FormatCodes {
  import opened Matrix

  /** The generator polynomial x^10 + x^8 + x^5 + x^4 + x^2 + x + 1. */
  const Generator: bv15 := 0x537
  /** The pattern 101010000010010 every format word is XORed with. */
  const FormatMask: bv15 := 0x5412

  /** One step of the long division: the term x^k of `r`, when present, is cancelled by the generator times x^(k - 10). */
  function BchStep(r: bv15, k: bv15): (s: bv15)
    requires 10 <= k < 15
    ensures s & (1 << k) == 0
    ensures s >> (k + 1) == r >> (k + 1)
  {
    if r & (1 << k) != 0 then r ^ (Generator << (k - 10)) else r
  }

  /** The remainder of `m` divided by the generator: the terms x^14 down to x^10 cancelled in turn. */
  function BchRemainder(m: bv15): (r: bv15)
    ensures r < 0x400
  {
    BchStep(BchStep(BchStep(BchStep(BchStep(m, 14), 13), 12), 11), 10)
  }

  /** The format word of the data bits `d` (error correction level, then mask pattern): the data times x^10, the
      remainder as the check bits, then the XOR pattern. */
  function BchWord(d: bv15): (w: bv15)
    requires d < 32
    ensures (w ^ FormatMask) >> 10 == d
  {
    var m := d << 10;
    (m | BchRemainder(m)) ^ FormatMask
  }

  /** The coefficient of x^k as the digit the format words use. */
  function FormatDigit(w: bv15, k: bv15): char
    requires k < 15
  {
    if w & (1 << k) != 0 then '1' else '0'
  }

  /** A format word as its text, the coefficient of x^14 first. */
  function FormatText(w: bv15): (s: string)
    ensures |s| == 15
  {
    [FormatDigit(w, 14), FormatDigit(w, 13), FormatDigit(w, 12), FormatDigit(w, 11), FormatDigit(w, 10),
     FormatDigit(w, 9), FormatDigit(w, 8), FormatDigit(w, 7), FormatDigit(w, 6), FormatDigit(w, 5),
     FormatDigit(w, 4), FormatDigit(w, 3), FormatDigit(w, 2), FormatDigit(w, 1), FormatDigit(w, 0)]
  }

  /** The four format words of mask pattern 0, one per error correction level. */
  lemma MaskWords0(d: bv15)
    requires d < 32 && d & 7 == 0
    ensures FormatInformationArray[d as int] == FormatText(BchWord(d))
  {
    if d == 0 {
      assert FormatInformationArray[0] == FormatText(BchWord(0));
    } else if d == 8 {
      assert FormatInformationArray[8] == FormatText(BchWord(8));
    } else if d == 16 {
      assert FormatInformationArray[16] == FormatText(BchWord(16));
    } else {
      assert FormatInformationArray[24] == FormatText(BchWord(24));
    }
  }

  /** The four format words of mask pattern 1, one per error correction level. */
  lemma MaskWords1(d: bv15)
    requires d < 32 && d & 7 == 1
    ensures FormatInformationArray[d as int] == FormatText(BchWord(d))
  {
    if d == 1 {
      assert FormatInformationArray[1] == FormatText(BchWord(1));
    } else if d == 9 {
      assert FormatInformationArray[9] == FormatText(BchWord(9));
    } else if d == 17 {
      assert FormatInformationArray[17] == FormatText(BchWord(17));
    } else {
      assert FormatInformationArray[25] == FormatText(BchWord(25));
    }
  }

  /** The four format words of mask pattern 2, one per error correction level. */
  lemma MaskWords2(d: bv15)
    requires d < 32 && d & 7 == 2
    ensures FormatInformationArray[d as int] == FormatText(BchWord(d))
  {
    if d == 2 {
      assert FormatInformationArray[2] == FormatText(BchWord(2));
    } else if d == 10 {
      assert FormatInformationArray[10] == FormatText(BchWord(10));
    } else if d == 18 {
      assert FormatInformationArray[18] == FormatText(BchWord(18));
    } else {
      assert FormatInformationArray[26] == FormatText(BchWord(26));
    }
  }

  /** The four format words of mask pattern 3, one per error correction level. */
  lemma MaskWords3(d: bv15)
    requires d < 32 && d & 7 == 3
    ensures FormatInformationArray[d as int] == FormatText(BchWord(d))
  {
    if d == 3 {
      assert FormatInformationArray[3] == FormatText(BchWord(3));
    } else if d == 11 {
      assert FormatInformationArray[11] == FormatText(BchWord(11));
    } else if d == 19 {
      assert FormatInformationArray[19] == FormatText(BchWord(19));
    } else {
      assert FormatInformationArray[27] == FormatText(BchWord(27));
    }
  }

  /** The four format words of mask pattern 4, one per error correction level. */
  lemma MaskWords4(d: bv15)
    requires d < 32 && d & 7 == 4
    ensures FormatInformationArray[d as int] == FormatText(BchWord(d))
  {
    if d == 4 {
      assert FormatInformationArray[4] == FormatText(BchWord(4));
    } else if d == 12 {
      assert FormatInformationArray[12] == FormatText(BchWord(12));
    } else if d == 20 {
      assert FormatInformationArray[20] == FormatText(BchWord(20));
    } else {
      assert FormatInformationArray[28] == FormatText(BchWord(28));
    }
  }

  /** The four format words of mask pattern 5, one per error correction level. */
  lemma MaskWords5(d: bv15)
    requires d < 32 && d & 7 == 5
    ensures FormatInformationArray[d as int] == FormatText(BchWord(d))
  {
    if d == 5 {
      assert FormatInformationArray[5] == FormatText(BchWord(5));
    } else if d == 13 {
      assert FormatInformationArray[13] == FormatText(BchWord(13));
    } else if d == 21 {
      assert FormatInformationArray[21] == FormatText(BchWord(21));
    } else {
      assert FormatInformationArray[29] == FormatText(BchWord(29));
    }
  }

  /** The four format words of mask pattern 6, one per error correction level. */
  lemma MaskWords6(d: bv15)
    requires d < 32 && d & 7 == 6
    ensures FormatInformationArray[d as int] == FormatText(BchWord(d))
  {
    if d == 6 {
      assert FormatInformationArray[6] == FormatText(BchWord(6));
    } else if d == 14 {
      assert FormatInformationArray[14] == FormatText(BchWord(14));
    } else if d == 22 {
      assert FormatInformationArray[22] == FormatText(BchWord(22));
    } else {
      assert FormatInformationArray[30] == FormatText(BchWord(30));
    }
  }

  /** The four format words of mask pattern 7, one per error correction level. */
  lemma MaskWords7(d: bv15)
    requires d < 32 && d & 7 == 7
    ensures FormatInformationArray[d as int] == FormatText(BchWord(d))
  {
    if d == 7 {
      assert FormatInformationArray[7] == FormatText(BchWord(7));
    } else if d == 15 {
      assert FormatInformationArray[15] == FormatText(BchWord(15));
    } else if d == 23 {
      assert FormatInformationArray[23] == FormatText(BchWord(23));
    } else {
      assert FormatInformationArray[31] == FormatText(BchWord(31));
    }
  }

  /** The five data bits of a format word: the two-bit level code, then the three-bit mask number. */
  function DataBits(eccCharacter: nat, maskNumber: nat): (d: bv15)
    requires eccCharacter < 4 && maskNumber < 8
    ensures d < 32 && d as int == 8 * eccCharacter + maskNumber
  {
    (8 * eccCharacter + maskNumber) as bv15
  }

  /** Every entry of the format word table is the BCH format word of its index. */
  lemma FormatWordsAreBch(d: bv15)
    requires d < 32
    ensures FormatInformationArray[d as int] == FormatText(BchWord(d))
  {
    match d & 7
    case 0 => MaskWords0(d);
    case 1 => MaskWords1(d);
    case 2 => MaskWords2(d);
    case 3 => MaskWords3(d);
    case 4 => MaskWords4(d);
    case 5 => MaskWords5(d);
    case 6 => MaskWords6(d);
    case _ => MaskWords7(d);
  }

  /** The word `formatInformation` writes for a level and a mask pattern is the BCH format word of their data
      bits. */
  lemma FormatWordIsBch(eccCharacter: nat, maskNumber: nat)
    requires eccCharacter < 4 && maskNumber < 8
    ensures FormatValue(eccCharacter, maskNumber) == 8 * eccCharacter + maskNumber
    ensures FormatInformationArray[FormatValue(eccCharacter, maskNumber)] == FormatText(BchWord(DataBits(eccCharacter, maskNumber)))
  {
    FormatValueIndex(eccCharacter, maskNumber);
    FormatWordsAreBch(DataBits(eccCharacter, maskNumber));
  }
}
