/**
 * The capacity side of `Builder`: the table of data bits per version and
 * error-correction level, the symbol size tables, the first-fit choice of
 * a version, the total of the data bits and the terminator (sections 6.4.10,
 * 7.4.9 and Table 7 of ISO/IEC 18004:2015).
 */
module Capacity {
  import opened Results
  import opened Bits
  import opened Codewords
  import opened Exceptions
  import ErrorCorrections

  /** Versions 1..40 at level M (code 0). */
  const LevelMBits: seq<nat> := [
    128, 224, 352, 512, 688, 864, 992, 1232, 1456,
    1728, 2032, 2320, 2672, 2920, 3320, 3624, 4056, 4504, 5016,
    5352, 5712, 6256, 6880, 7312, 8000, 8496, 9024, 9544, 10136,
    10984, 11640, 12328, 13048, 13800, 14496, 15312, 15936, 16816, 17728,
    18672]

  /** Versions 1..40 at level L (code 1). */
  const LevelLBits: seq<nat> := [
    152, 272, 440, 640, 864, 1088, 1248, 1552, 1856, 2192,
    2592, 2960, 3424, 3688, 4184, 4712, 5176, 5768, 6360, 6888,
    7456, 8048, 8752, 9392, 10208, 10960, 11744, 12248, 13048, 13880,
    14744, 15640, 16568, 17528, 18448, 19472, 20528, 21616, 22496, 23648]

  /** Versions 1..40 at level H (code 2). */
  const LevelHBits: seq<nat> := [
    72, 128, 208, 288, 368, 480, 528, 688, 800, 976,
    1120, 1264, 1440, 1576, 1784, 2024, 2264, 2504, 2728, 3080,
    3248, 3536, 3712, 4112, 4304, 4768, 5024, 5288, 5608, 5960,
    6344, 6760, 7208, 7688, 7888, 8432, 8768, 9136, 9776, 10208]

  /** Versions 1..40 at level Q (code 3). */
  const LevelQBits: seq<nat> := [
    104, 176, 272, 384, 496, 608, 704, 880, 1056, 1232,
    1440, 1648, 1952, 2088, 2360, 2600, 2936, 3176, 3560, 3880,
    4096, 4544, 4912, 5312, 5744, 6032, 6464, 6968, 7288, 7880,
    8264, 8920, 9368, 9848, 10288, 10832, 11408, 12016, 12656, 13328]

  /** Remainder bits per version 0..40 (Table 1 of ISO/IEC 18004:2015). */
  const MatrixRemainBitArray: seq<nat> := [
    0, 0, 7, 7, 7, 7, 7, 0, 0, 0,
    0, 0, 0, 0, 3, 3, 3, 3, 3, 3,
    3, 4, 4, 4, 4, 4, 4, 4, 3, 3,
    3, 3, 3, 3, 3, 0, 0, 0, 0, 0,
    0]

  /** Codewords per version 0..40 (Table 1 of ISO/IEC 18004:2015). */
  const MaxCodewordsArray: seq<nat> := [
    0, 26, 44, 70, 100, 134, 172, 196, 242, 292,
    346, 404, 466, 532, 581, 655, 733, 815, 901, 991,
    1085, 1156, 1258, 1364, 1474, 1588, 1706, 1828, 1921, 2051,
    2185, 2323, 2465, 2611, 2761, 2876, 3034, 3196, 3362, 3532,
    3706]

  // ---------------------------------------------------------------------
  // Table lookups
  // ---------------------------------------------------------------------

  /** The four level tables, in the order of their level codes M = 0, L = 1, H = 2, Q = 3. */
  const Levels: seq<seq<nat>> := [LevelMBits, LevelLBits, LevelHBits, LevelQBits]

  /** Four tables of 40 versions each. */
  predicate Shaped(tables: seq<seq<nat>>)
  {
    |tables| == 4 && forall e :: 0 <= e < 4 ==> |tables[e]| == 40
  }

  lemma LevelsShaped()
    ensures Shaped(Levels)
  {
  }

  /** The flat array: 0, then the tables one after the other. */
  function Flat(tables: seq<seq<nat>>, index: int): nat
    requires Shaped(tables) && 0 <= index < 161
  {
    if index == 0 then 0 else tables[(index - 1) / 40][(index - 1) % 40]
  }

  /** Index version + 40 * ecc of the flat array is entry version - 1 of table ecc. */
  lemma FlatAt(tables: seq<seq<nat>>, version: int, ecc: int)
    requires Shaped(tables) && 1 <= version <= 40 && 0 <= ecc <= 3
    ensures Flat(tables, version + 40 * ecc) == tables[ecc][version - 1]
  {
    var index := version + 40 * ecc;
    assert (index - 1) / 40 == ecc && (index - 1) % 40 == version - 1;
  }

  /** `getMaxDataBitsByIndexFormArray`: entry `index` of the flat 161-entry array. */
  function MaxDataBitsByIndex(index: int): nat
    requires 0 <= index < 161
  {
    LevelsShaped();
    Flat(Levels, index)
  }

  /** The data bits of `version` at level code `ecc`, as `getMaxDataBits` indexes them. */
  function MaxDataBits(version: int, ecc: int): nat
    requires 0 <= version <= 40 && 0 <= ecc <= 3
  {
    MaxDataBitsByIndex(version + 40 * ecc)
  }

  predicate StrictlyIncreasing(t: seq<nat>)
  {
    forall i :: 0 <= i < |t| - 1 ==> t[i] < t[i + 1]
  }

  predicate WholeBytes(t: seq<nat>)
  {
    forall i :: 0 <= i < |t| ==> t[i] % 8 == 0
  }

  lemma LevelMIncreasing()
    ensures forall i :: 0 <= i < 39 ==> LevelMBits[i] < LevelMBits[i + 1]
  {
  }

  lemma LevelMWholeBytes()
    ensures forall i :: 0 <= i < 40 ==> LevelMBits[i] % 8 == 0
  {
  }

  lemma LevelLIncreasing()
    ensures forall i :: 0 <= i < 39 ==> LevelLBits[i] < LevelLBits[i + 1]
  {
  }

  lemma LevelLWholeBytes()
    ensures forall i :: 0 <= i < 40 ==> LevelLBits[i] % 8 == 0
  {
  }

  lemma LevelHIncreasing()
    ensures forall i :: 0 <= i < 39 ==> LevelHBits[i] < LevelHBits[i + 1]
  {
  }

  lemma LevelHWholeBytes()
    ensures forall i :: 0 <= i < 40 ==> LevelHBits[i] % 8 == 0
  {
  }

  lemma LevelQIncreasing()
    ensures forall i :: 0 <= i < 39 ==> LevelQBits[i] < LevelQBits[i + 1]
  {
  }

  lemma LevelQWholeBytes()
    ensures forall i :: 0 <= i < 40 ==> LevelQBits[i] % 8 == 0
  {
  }

  /** The flat table read at version + 40 * ecc is entry version - 1 of the level's own table. */
  lemma MaxDataBitsByLevel(version: int, ecc: int)
    requires 1 <= version <= 40 && 0 <= ecc <= 3
    ensures MaxDataBits(version, ecc) == Levels[ecc][version - 1]
  {
    LevelsShaped();
    FlatAt(Levels, version, ecc);
  }

  /** Four tables of 40 entries, each increasing and each counting whole codewords. */
  predicate Checked(tables: seq<seq<nat>>)
  {
    Shaped(tables) && forall e :: 0 <= e < 4 ==> StrictlyIncreasing(tables[e]) && WholeBytes(tables[e])
  }

  /** Each level's table increases and counts whole codewords. */
  lemma LevelsChecked()
    ensures Checked(Levels)
  {
    LevelMIncreasing();
    LevelMWholeBytes();
    LevelLIncreasing();
    LevelLWholeBytes();
    LevelHIncreasing();
    LevelHWholeBytes();
    LevelQIncreasing();
    LevelQWholeBytes();
  }

  lemma {:induction false} IncreasingApart(t: seq<nat>, i: int, j: int)
    requires StrictlyIncreasing(t) && 0 <= i < j < |t|
    ensures t[i] < t[j]
    decreases j - i
  {
    if j > i + 1 {
      IncreasingApart(t, i, j - 1);
    }
  }

  /** In checked tables a larger version reads more, and every read is whole codewords. */
  lemma FlatIncreasing(tables: seq<seq<nat>>, ecc: int, v: int, w: int)
    requires Checked(tables) && 0 <= ecc <= 3 && 1 <= v < w <= 40
    ensures Flat(tables, v + 40 * ecc) < Flat(tables, w + 40 * ecc)
    ensures Flat(tables, v + 40 * ecc) % 8 == 0 && Flat(tables, w + 40 * ecc) % 8 == 0
  {
    FlatAt(tables, v, ecc);
    FlatAt(tables, w, ecc);
    IncreasingApart(tables[ecc], v - 1, w - 1);
  }

  /** A larger version holds more data bits at the same level, and every capacity is whole codewords. */
  lemma CapacityIncreasing(ecc: int, v: int, w: int)
    requires 0 <= ecc <= 3 && 1 <= v < w <= 40
    ensures MaxDataBits(v, ecc) < MaxDataBits(w, ecc)
    ensures MaxDataBits(v, ecc) % 8 == 0 && MaxDataBits(w, ecc) % 8 == 0
  {
    LevelsChecked();
    FlatIncreasing(Levels, ecc, v, w);
  }

  /** Index 40 * ecc of the flat array is the 0 in front, or the last entry of the previous table. */
  lemma FlatVersionZero(tables: seq<seq<nat>>, ecc: int)
    requires Shaped(tables) && 0 <= ecc <= 3
    ensures Flat(tables, 40 * ecc) == if ecc == 0 then 0 else Flat(tables, 40 + 40 * (ecc - 1))
  {
  }

  /** Version 0, which `setVersion` accepts, reads 0 at level M and version 40 of the previous level otherwise. */
  lemma VersionZeroCapacity(ecc: int)
    requires 0 <= ecc <= 3
    ensures MaxDataBits(0, ecc) == if ecc == 0 then 0 else MaxDataBits(40, ecc - 1)
  {
    LevelsShaped();
    FlatVersionZero(Levels, ecc);
  }

  /** `getOneMatrixRemainBit`: the remainder bits of a version. */
  function RemainBits(version: int): (bits: nat)
    requires 0 <= version <= 40
    ensures bits <= 7
  {
    MatrixRemainBitArray[version]
  }

  /** `getMaxCodewords`: the codewords of a version. */
  function MaxCodewords(version: int): (n: nat)
    requires 0 <= version <= 40
    ensures n <= 3706
  {
    MaxCodewordsArray[version]
  }

  /** `getMaxModulesOneSide`: 17 + (version << 2). */
  function ModulesOneSide(version: nat): (side: nat)
    ensures side == 17 + 4 * version
  {
    ShlMul(version, 2);
    17 + Shl(version, 2)
  }

  /** `getByteNumber`: the modules that carry codeword or remainder bits. */
  function ByteNumber(version: int): (n: nat)
    requires 0 <= version <= 40
    ensures n == RemainBits(version) + 8 * MaxCodewords(version)
  {
    ShlMul(MaxCodewords(version), 3);
    RemainBits(version) + Shl(MaxCodewords(version), 3)
  }

  /**
   * The codeword and remainder modules fill the symbol less the function
   * patterns and format and version areas (section 6.4.10 and Table 1 of
   * ISO/IEC 18004:2015), spot-checked on the smallest and largest version.
   */
  lemma ByteNumberExamples()
    ensures ByteNumber(1) == 208 && ModulesOneSide(1) == 21
    ensures ByteNumber(40) == 29648 && ModulesOneSide(40) == 177
  {
    assert RemainBits(1) == 0 && MaxCodewords(1) == 26;
    assert RemainBits(40) == 0 && MaxCodewords(40) == 3706;
  }

  /** `checkVersion`: the versions `setVersion` accepts, 0 included. */
  predicate CheckVersion(version: int)
  {
    version <= 40 && version >= 0
  }

  // ---------------------------------------------------------------------
  // The error-correction character
  // ---------------------------------------------------------------------

  /** What the builder's level holds: a number, or a letter PHP would look up. */
  datatype EccSetting = Code(code: int) | Letter(letter: string)

  /** `getEccCharacterHash`: the level code of a letter, None for any other key (the `@` lookup gives null). */
  function EccCharacterHash(letter: string): (code: Option<int>)
    ensures code.Some? ==> ErrorCorrections.IsInErrorCorrections(code.value)
  {
    if letter == "L" || letter == "l" then Some(1)
    else if letter == "M" || letter == "m" then Some(0)
    else if letter == "Q" || letter == "q" then Some(3)
    else if letter == "H" || letter == "h" then Some(2)
    else None
  }

  /** `getEccCharacter`: a number is used as it is, a letter through the hash; a falsy result becomes 0. */
  function EccCharacter(setting: EccSetting): (ec: int)
  {
    match setting
    case Code(c) => if c == 0 then 0 else c
    case Letter(l) => match EccCharacterHash(l) case Some(c) => c case None => 0
  }

  /** The letters agree with the level constants, an accepted code is kept, and an unknown letter reads as M. */
  lemma EccCharacterMeaning(setting: EccSetting)
    ensures setting.Code? ==> EccCharacter(setting) == setting.code
    ensures setting.Letter? && setting.letter in {"L", "l"} ==> EccCharacter(setting) == ErrorCorrections.LevelLow
    ensures setting.Letter? && setting.letter in {"M", "m"} ==> EccCharacter(setting) == ErrorCorrections.LevelMedium
    ensures setting.Letter? && setting.letter in {"Q", "q"} ==> EccCharacter(setting) == ErrorCorrections.LevelQuartile
    ensures setting.Letter? && setting.letter in {"H", "h"} ==> EccCharacter(setting) == ErrorCorrections.LevelHigh
    ensures setting.Letter? && setting.letter !in {"L", "l", "M", "m", "Q", "q", "H", "h"} ==>
      EccCharacter(setting) == ErrorCorrections.LevelMedium
    ensures setting.Letter? ==> 0 <= EccCharacter(setting) <= 3
  {
  }

  // ---------------------------------------------------------------------
  // Automatic version choice
  // ---------------------------------------------------------------------

  /**
   * Version `v` holds the data bits plus its count-field widening. The
   * choice is stated over any four tables of the shape of Levels, which the
   * builder uses.
   */
  predicate VersionHolds(tables: seq<seq<nat>>, ecc: int, plus: seq<nat>, total: int, v: int)
    requires Shaped(tables) && 0 <= ecc <= 3 && |plus| == 41 && 1 <= v <= 40
  {
    Flat(tables, v + 40 * ecc) >= total + plus[v]
  }

  /** The loop of `autoVersionAndGetMaxDataBits` from version `from` on: the first version that holds the data. */
  function FirstFit(tables: seq<seq<nat>>, ecc: int, plus: seq<nat>, total: int, from: int): Option<int>
    requires Shaped(tables) && 0 <= ecc <= 3 && |plus| == 41 && 1 <= from <= 41
    decreases 41 - from
  {
    if from > 40 then None
    else if VersionHolds(tables, ecc, plus, total, from) then Some(from)
    else FirstFit(tables, ecc, plus, total, from + 1)
  }

  /** FirstFit finds the smallest version from `from` on that holds the data, and None only when none does. */
  lemma {:induction false} FirstFitIsSmallest(tables: seq<seq<nat>>, ecc: int, plus: seq<nat>, total: int, from: int)
    requires Shaped(tables) && 0 <= ecc <= 3 && |plus| == 41 && 1 <= from <= 41
    ensures match FirstFit(tables, ecc, plus, total, from)
      case Some(v) =>
        from <= v <= 40 && VersionHolds(tables, ecc, plus, total, v) &&
        forall u :: from <= u < v ==> !VersionHolds(tables, ecc, plus, total, u)
      case None =>
        forall u :: from <= u <= 40 ==> !VersionHolds(tables, ecc, plus, total, u)
    decreases 41 - from
  {
    if from <= 40 && !VersionHolds(tables, ecc, plus, total, from) {
      FirstFitIsSmallest(tables, ecc, plus, total, from + 1);
    }
  }

  // ---------------------------------------------------------------------
  // Data bits total and terminator
  // ---------------------------------------------------------------------

  /** The width of slot `i`; a missing slot reads as 0. */
  function WidthAt(dataBits: seq<nat>, i: int): nat
  {
    if 0 <= i < |dataBits| then dataBits[i] else 0
  }

  /** The widths of the slots 0..n-1 added up. */
  function DataBitsTotal(dataBits: seq<nat>, n: nat): nat
  {
    if n == 0 then 0 else DataBitsTotal(dataBits, n - 1) + WidthAt(dataBits, n - 1)
  }

  /** The total is the length of the bit stream the packer writes for the same slots. */
  lemma {:induction false} DataBitsTotalIsStreamLength(dataValue: map<int, nat>, dataBits: seq<nat>, n: nat)
    ensures DataBitsTotal(dataBits, n) == TotalWidth(PackedFields(dataValue, dataBits, n))
    ensures DataBitsTotal(dataBits, n) == |Stream(PackedFields(dataValue, dataBits, n))|
  {
    if n > 0 {
      DataBitsTotalIsStreamLength(dataValue, dataBits, n - 1);
      var fs := PackedFields(dataValue, dataBits, n);
      assert fs[..n - 1] == PackedFields(dataValue, dataBits, n - 1);
    }
  }

  /** `getDataBitsTotal`: the loop over the slots below dataCounter. */
  method GetDataBitsTotal(dataBits: seq<nat>, dataCounter: int) returns (totalDataBits: nat)
    ensures totalDataBits == DataBitsTotal(dataBits, if dataCounter < 0 then 0 else dataCounter)
  {
    var i := 0;
    totalDataBits := 0;
    while i < dataCounter
      invariant 0 <= i && (dataCounter >= 0 ==> i <= dataCounter) && (dataCounter < 0 ==> i == 0)
      invariant totalDataBits == DataBitsTotal(dataBits, i)
    {
      totalDataBits := totalDataBits + WidthAt(dataBits, i);
      i := i + 1;
    }
  }

  /** The value and width arrays after `setTerminator`. */
  datatype Terminated = Terminated(dataValue: map<int, nat>, dataBits: seq<nat>)

  /** `setTerminator`: a zero entry of 4 bits, or of the bits left, at slot dataCounter; Overflow past the capacity. */
  function SetTerminator(dataValue: map<int, nat>, dataCounter: nat, dataBits: seq<nat>, totalDataBits: int, maxDataBits: int)
    : (r: Result<Terminated, BuildError>)
    requires dataCounter <= |dataBits|
  {
    if totalDataBits <= maxDataBits - 4 then
      Success(Terminated(dataValue[dataCounter := 0], Put(dataBits, dataCounter, 4)))
    else if totalDataBits < maxDataBits then
      Success(Terminated(dataValue[dataCounter := 0], Put(dataBits, dataCounter, maxDataBits - totalDataBits)))
    else if totalDataBits > maxDataBits then
      Failure(Overflow)
    else
      Success(Terminated(dataValue, dataBits))
  }

  /**
   * The terminator rule of section 7.4.9 of ISO/IEC 18004:2015 as the
   * source applies it: Overflow exactly when the data exceeds the capacity;
   * otherwise the slots below dataCounter are untouched, the slot at
   * dataCounter holds a zero of 4 bits or of the bits left, or is left as
   * it was when the data fills the capacity exactly.
   */
  lemma TerminatorMeaning(dataValue: map<int, nat>, dataCounter: nat, dataBits: seq<nat>, totalDataBits: int, maxDataBits: int)
    requires dataCounter <= |dataBits|
    ensures SetTerminator(dataValue, dataCounter, dataBits, totalDataBits, maxDataBits).Failure? <==> totalDataBits > maxDataBits
    ensures match SetTerminator(dataValue, dataCounter, dataBits, totalDataBits, maxDataBits)
      case Failure(e) => e == Overflow
      case Success(t) =>
        (forall i :: 0 <= i < dataCounter ==> EntryAt(t.dataValue, t.dataBits, i) == EntryAt(dataValue, dataBits, i)) &&
        EntryAt(t.dataValue, t.dataBits, dataCounter) ==
          if totalDataBits <= maxDataBits - 4 then Field(0, 4)
          else if totalDataBits < maxDataBits then Field(0, maxDataBits - totalDataBits)
          else EntryAt(dataValue, dataBits, dataCounter)
  {
  }

  /**
   * With the slot at dataCounter empty, the stream after the terminator is
   * the data plus 4 bits, or exactly the capacity, and never more.
   */
  lemma TerminatedTotal(dataValue: map<int, nat>, dataCounter: nat, dataBits: seq<nat>, totalDataBits: int, maxDataBits: int)
    requires dataCounter <= |dataBits| && WidthAt(dataBits, dataCounter) == 0
    requires totalDataBits == DataBitsTotal(dataBits, dataCounter)
    ensures match SetTerminator(dataValue, dataCounter, dataBits, totalDataBits, maxDataBits)
      case Failure(_) => true
      case Success(t) =>
        DataBitsTotal(t.dataBits, dataCounter + 1) ==
          (if totalDataBits <= maxDataBits - 4 then totalDataBits + 4 else maxDataBits) &&
        DataBitsTotal(t.dataBits, dataCounter + 1) <= maxDataBits
  {
    match SetTerminator(dataValue, dataCounter, dataBits, totalDataBits, maxDataBits)
    case Failure(_) =>
    case Success(t) =>
      PrefixTotal(dataBits, t.dataBits, dataCounter);
  }

  /** Arrays that agree below n have the same total over 0..n-1. */
  lemma {:induction false} PrefixTotal(a: seq<nat>, b: seq<nat>, n: nat)
    requires forall i :: 0 <= i < n ==> WidthAt(a, i) == WidthAt(b, i)
    ensures DataBitsTotal(a, n) == DataBitsTotal(b, n)
  {
    if n > 0 {
      PrefixTotal(a, b, n - 1);
    }
  }
}
