/**
 * Mode selection and the structured-append header (clause 8 of
 * ISO/IEC 18004:2015). The manager classifies the text, creates the
 * encoder of its mode and hands it the prepared width array: a single
 * 4-bit slot for the mode indicator, preceded by the 4/4/4/8-bit header
 * slots when structured append is requested. The header values are
 * computed and then dropped; only the widths reach the encoder.
 */
module ModesManagers {
  import opened Bits
  import opened NumericModes
  import opened AlphanumericModes
  import opened EncodeModes

  const NumericModeName: string := "numeric"
  const AlphaNumericModeName: string := "alpha-numeric"
  const EightBitsModeName: string := "8bits"

  /**
   * The mode name of a text: numeric when no character lies outside 0-9
   * (so the empty text is numeric), else alphanumeric when none lies outside
   * the 45-character alphabet, else 8-bit.
   */
  function ModeName(data: seq<Byte>): string
  {
    if AllDigits(data) then NumericModeName
    else if AllAlphanumeric(data) then AlphaNumericModeName
    else EightBitsModeName
  }

  /** The encoder a mode name selects; any other name falls back to 8-bit. */
  function SwitchMode(name: string): ModeKind
  {
    if name == NumericModeName then Numeric
    else if name == AlphaNumericModeName then Alphanumeric
    else EightBit
  }

  /** The mode the older manager picks with its nested conditional. */
  function ManagerMode(data: seq<Byte>): ModeKind
  {
    if AllDigits(data) then Numeric else if AllAlphanumeric(data) then Alphanumeric else EightBit
  }

  lemma DigitsAreAlphanumeric(data: seq<Byte>)
    requires AllDigits(data)
    ensures AllAlphanumeric(data)
  {
  }

  /**
   * The selected encoder is the most compact one that can encode the text:
   * numeric exactly for digit strings, alphanumeric exactly for the other
   * texts over the alphabet, 8-bit for the rest; both managers agree.
   */
  lemma ModeSelection(data: seq<Byte>)
    ensures var kind := SwitchMode(ModeName(data));
      (kind == Numeric <==> AllDigits(data)) &&
      (kind == Alphanumeric <==> !AllDigits(data) && AllAlphanumeric(data)) &&
      (kind == EightBit <==> !AllAlphanumeric(data)) &&
      Encodable(kind, data) &&
      kind == ManagerMode(data)
  {
    if AllDigits(data) {
      DigitsAreAlphanumeric(data);
    }
  }

  /** The empty text is numeric. */
  lemma EmptyIsNumeric()
    ensures ModeName([]) == NumericModeName
  {
  }

  /** Structured append is used for a symbol count 2..16 and a position 1..16. */
  predicate CheckStructureAppend(n: int, m: int)
  {
    (n > 1 && n <= 16) && (m > 0 && m <= 16)
  }

  /** The XOR of all bytes of a text. */
  function XorAll(s: seq<Byte>): Byte
  {
    if s == [] then 0 else XorByte(XorAll(s[..|s| - 1]), s[|s| - 1])
  }

  /** The parity of a concatenation is the XOR of the parities of its parts. */
  lemma {:induction false} XorAllAppend(a: seq<Byte>, b: seq<Byte>)
    ensures XorAll(a + b) == Xor(XorAll(a), XorAll(b))
    decreases |b|
  {
    if b == [] {
      assert a + b == a;
    } else {
      var b', x := b[..|b| - 1], b[|b| - 1];
      assert (a + b)[..|a + b| - 1] == a + b';
      XorAllAppend(a, b');
      XorAssoc(XorAll(a), XorAll(b'), x);
    }
  }

  /** A text repeated twice has parity zero. */
  lemma XorAllTwice(s: seq<Byte>)
    ensures XorAll(s + s) == 0
  {
    XorAllAppend(s, s);
    XorSelf(XorAll(s));
  }

  /** The header parity: computed from the original text when it has more than one byte, else the supplied one. */
  method Parity(parity: int, originalData: seq<Byte>) returns (p: int)
    ensures |originalData| > 1 ==> p == XorAll(originalData) && 0 <= p < 256
    ensures |originalData| <= 1 ==> p == parity
  {
    p := parity;
    if |originalData| > 1 {
      p := 0;
      var i := 0;
      while i < |originalData|
        invariant 0 <= i <= |originalData|
        invariant p == XorAll(originalData[..i])
      {
        assert originalData[..i + 1][..i] == originalData[..i];
        p := XorByte(p, originalData[i]);
        i := i + 1;
      }
      assert originalData[..i] == originalData;
    }
  }

  /** The widths `prepareDataBits` returns: the header slots, then the indicator slot. */
  function PreparedBits(n: int, m: int): seq<nat>
  {
    if CheckStructureAppend(n, m) then [4, 4, 4, 8, 4] else [4]
  }

  /**
   * Builds the header and the indicator slot. The header values (3, m - 1,
   * n - 1 and the parity) are computed but never returned: `header` names
   * them only for the contract.
   */
  method PrepareDataBits(n: int, m: int, parity: int, originalData: seq<Byte>)
    returns (dataBits: seq<nat>, ghost header: map<int, int>)
    ensures dataBits == PreparedBits(n, m)
    ensures CheckStructureAppend(n, m) ==>
      header.Keys == {0, 1, 2, 3} && header[0] == 3 && header[1] == m - 1 && header[2] == n - 1 &&
      header[3] == (if |originalData| > 1 then XorAll(originalData) else parity)
    ensures !CheckStructureAppend(n, m) ==> header == map[]
  {
    var dataCounter := 0;
    var dataValue: map<int, int> := map[];
    dataBits := [];
    if CheckStructureAppend(n, m) {
      dataValue := dataValue[0 := 3];
      dataBits := dataBits + [4];
      dataValue := dataValue[1 := m - 1];
      dataBits := dataBits + [4];
      dataValue := dataValue[2 := n - 1];
      dataBits := dataBits + [4];
      var p := Parity(parity, originalData);
      dataValue := dataValue[3 := p];
      dataBits := dataBits + [8];
      dataCounter := 4;
    }
    dataBits := dataBits + [4];
    header := dataValue;
  }

  /**
   * With structured append the encoder's results leave keys 0..3 unset (read
   * as 0 by the packer) behind their widths 4, 4, 4, 8; the indicator sits at
   * index 4 and the count at index 5.
   */
  lemma HeaderValuesDropped(kind: ModeKind, data: seq<Byte>, n: int, m: int)
    requires CheckStructureAppend(n, m)
    ensures var r := EncodingOf(kind, data, PreparedBits(n, m), map[]);
      r.dataBits[..4] == [4, 4, 4, 8] &&
      (forall k :: 0 <= k < 4 ==> k !in r.dataValue && ValueOrZero(r.dataValue, k) == 0) &&
      ValueOrZero(r.dataValue, 4) == ModeIndicator(kind) && r.dataBits[4] == 4 &&
      r.codewordsNumCounter == 5
  {
    var bits := PreparedBits(n, m);
    assert bits == [4, 4, 4, 8, 4];
    var r := EncodingOf(kind, data, bits, map[]);
    EncodingHeader(kind, data, bits, map[]);
    EncodingPayloadEntries(kind, data, bits, map[]);
    assert r.dataBits[..5] == bits;
    assert r.dataBits[..4] == bits[..4];
    forall k | 0 <= k < 4
      ensures k !in r.dataValue
    {
    }
  }

  /** Without structured append the indicator takes index 0 and the count index 1. */
  lemma NoStructureAppendLayout(kind: ModeKind, data: seq<Byte>, n: int, m: int)
    requires !CheckStructureAppend(n, m)
    ensures var r := EncodingOf(kind, data, PreparedBits(n, m), map[]);
      r.dataBits[0] == 4 && ValueOrZero(r.dataValue, 0) == ModeIndicator(kind) &&
      r.codewordsNumCounter == 1 && r.dataBits[1] == CountWidth(kind) && ValueOrZero(r.dataValue, 1) == |data|
  {
    EncodingHeader(kind, data, PreparedBits(n, m), map[]);
    EncodingPayloadEntries(kind, data, PreparedBits(n, m), map[]);
    var r := EncodingOf(kind, data, PreparedBits(n, m), map[]);
    assert Entries(r, 1, 2)[0] == Field(|data|, CountWidth(kind));
  }

  /**
   * Whatever the text and the structured-append settings, the payload
   * entries the selected encoder produces decode back to the text.
   */
  lemma SelectedEncodingRoundTrip(data: seq<Byte>, n: int, m: int)
    ensures var kind, bits := SwitchMode(ModeName(data)), PreparedBits(n, m);
      var r := EncodingOf(kind, data, bits, map[]);
      |r.dataBits| >= |bits| + 1 && Decode(kind, Entries(r, |bits| + 1, |r.dataBits|)) == data
  {
    ModeSelection(data);
    EncodingCounterAndRoundTrip(SwitchMode(ModeName(data)), data, PreparedBits(n, m), map[]);
  }

  class ModesManager {
    var data: seq<Byte>
    var structureAppendN: int
    var structureAppendM: int
    var structureAppendParity: int
    var structureAppendOriginalData: seq<Byte>
    var mode: EncodeMode?

    /** Unset PHP properties are null, which compares like 0: no structured append. */
    constructor()
      ensures data == [] && mode == null
      ensures structureAppendN == 0 && structureAppendM == 0 && structureAppendParity == 0
      ensures structureAppendOriginalData == []
    {
      data, mode := [], null;
      structureAppendN, structureAppendM, structureAppendParity := 0, 0, 0;
      structureAppendOriginalData := [];
    }

    /**
     * Stores the text and runs `init`: a fresh encoder of the text's mode
     * receives the text and the prepared widths.
     */
    method SetData(data: seq<Byte>)
      modifies this
      ensures this.data == data
      ensures structureAppendN == old(structureAppendN) && structureAppendM == old(structureAppendM)
      ensures structureAppendParity == old(structureAppendParity)
      ensures structureAppendOriginalData == old(structureAppendOriginalData)
      ensures mode != null && fresh(mode) && mode.Valid()
      ensures mode.kind == SwitchMode(ModeName(data))
      ensures mode.data == data && mode.dataBits == PreparedBits(structureAppendN, structureAppendM)
      ensures mode.dataValue == map[] && mode.dataCounter == 0 && mode.codewordsNumCounter == 0
    {
      this.data := data;
      Init();
    }

    method Init()
      modifies this
      ensures data == old(data)
      ensures structureAppendN == old(structureAppendN) && structureAppendM == old(structureAppendM)
      ensures structureAppendParity == old(structureAppendParity)
      ensures structureAppendOriginalData == old(structureAppendOriginalData)
      ensures mode != null && fresh(mode) && mode.Valid()
      ensures mode.kind == SwitchMode(ModeName(data))
      ensures mode.data == data && mode.dataBits == PreparedBits(structureAppendN, structureAppendM)
      ensures mode.dataValue == map[] && mode.dataCounter == 0 && mode.codewordsNumCounter == 0
    {
      var m := new EncodeMode(SwitchMode(ModeName(data)));
      var bits, _ := PrepareDataBits(structureAppendN, structureAppendM, structureAppendParity, structureAppendOriginalData);
      m.SetDatas(data, bits);
      mode := m;
    }

    /**
     * Only stores the settings: the encoder built by an earlier `setData`
     * keeps its widths.
     */
    method SetStructureAppend(n: int, m: int, parity: int, originalData: seq<Byte>)
      modifies this
      ensures structureAppendN == n && structureAppendM == m
      ensures structureAppendParity == parity && structureAppendOriginalData == originalData
      ensures data == old(data) && mode == old(mode)
      ensures mode != null ==> unchanged(mode)
    {
      structureAppendN := n;
      structureAppendM := m;
      structureAppendParity := parity;
      structureAppendOriginalData := originalData;
    }

    method GetResults() returns (r: EncodingResults)
      requires mode != null && mode.Valid()
      modifies mode
      ensures mode.Valid() && mode.data == old(mode.data) && r == mode.Results()
      ensures r == EncodingOf(mode.kind, old(mode.data), old(mode.dataBits), old(mode.dataValue))
    {
      r := mode.GetEncodingResults();
    }
  }
}
