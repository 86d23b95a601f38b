/**
 * The encoder shared by the three modes. An encoder writes parallel arrays
 * of values and bit widths at a moving counter: first the mode indicator in
 * the slot the caller reserved, then the character count, then the payload
 * fields of its mode. The three subclasses of the source become one class
 * tagged with its mode.
 */
module EncodeModes {
  import opened Bits
  import opened NumericModes
  import opened AlphanumericModes
  import opened EightBitModes

  datatype ModeKind = Numeric | Alphanumeric | EightBit

  /** Extra count-field bits per version 0..40 for numeric and alphanumeric mode. */
  const NumericModeArray: seq<nat> := [
    0, 0, 0, 0, 0, 0, 0, 0, 0, 0,
    2, 2, 2, 2, 2, 2, 2, 2, 2, 2, 2, 2, 2, 2, 2, 2, 2,
    4, 4, 4, 4, 4, 4, 4, 4, 4, 4, 4, 4, 4, 4]

  /** Extra count-field bits per version 0..40 for byte mode. */
  const EightByteModeArray: seq<nat> := [
    0, 0, 0, 0, 0, 0, 0, 0, 0, 0,
    8, 8, 8, 8, 8, 8, 8, 8, 8, 8, 8, 8, 8, 8, 8, 8, 8,
    8, 8, 8, 8, 8, 8, 8, 8, 8, 8, 8, 8, 8, 8]

  function ModeIndicator(kind: ModeKind): nat
  {
    match kind
    case Numeric => 1
    case Alphanumeric => 2
    case EightBit => 4
  }

  /** The count-field width written by `init`, the one of versions 1 to 9. */
  function CountWidth(kind: ModeKind): nat
  {
    match kind
    case Numeric => 10
    case Alphanumeric => 9
    case EightBit => 8
  }

  function CodewordNumPlusTable(kind: ModeKind): seq<nat>
  {
    if kind == EightBit then EightByteModeArray else NumericModeArray
  }

  /** Character-count widths by version range, as Table 3 of ISO/IEC 18004:2015 lists them. */
  function StandardCountWidth(kind: ModeKind, version: nat): nat
    requires 1 <= version <= 40
  {
    match kind
    case Numeric => if version <= 9 then 10 else if version <= 26 then 12 else 14
    case Alphanumeric => if version <= 9 then 9 else if version <= 26 then 11 else 13
    case EightBit => if version <= 9 then 8 else 16
  }

  /** Both tables have 41 entries, and base width plus extra is the standard's width at every version. */
  lemma CountWidthsAreStandard(kind: ModeKind, version: nat)
    requires 1 <= version <= 40
    ensures |CodewordNumPlusTable(kind)| == 41
    ensures CountWidth(kind) + CodewordNumPlusTable(kind)[version] == StandardCountWidth(kind, version)
  {
  }

  /** The text a mode can encode: digits for numeric, the 45-character alphabet for alphanumeric. */
  predicate Encodable(kind: ModeKind, data: seq<Byte>)
  {
    match kind
    case Numeric => AllDigits(data)
    case Alphanumeric => AllAlphanumeric(data)
    case EightBit => true
  }

  function Payload(kind: ModeKind, data: seq<Byte>): seq<Field>
  {
    match kind
    case Numeric => NumericPayload(data)
    case Alphanumeric => AlphanumericPayload(data)
    case EightBit => EightBitPayload(data)
  }

  function Decode(kind: ModeKind, p: seq<Field>): seq<Byte>
  {
    match kind
    case Numeric => DecodeNumeric(p)
    case Alphanumeric => DecodeAlphanumeric(p)
    case EightBit => DecodeEightBit(p)
  }

  /** Payload fields the loop closes (advancing the counter past them). */
  function CompleteGroups(kind: ModeKind, n: nat): nat
  {
    match kind
    case Numeric => n / 3
    case Alphanumeric => n / 2
    case EightBit => n
  }

  function Widths(p: seq<Field>): (w: seq<nat>)
    ensures |w| == |p| && forall k :: 0 <= k < |p| ==> w[k] == p[k].width
  {
    seq(|p|, k requires 0 <= k < |p| => p[k].width)
  }

  /** `values` with the values of `p` stored at keys start, start + 1, ... */
  function Store(values: map<int, nat>, start: int, p: seq<Field>): map<int, nat>
  {
    if p == [] then values else Store(values, start, p[..|p| - 1])[start + |p| - 1 := p[|p| - 1].value]
  }

  lemma {:induction false} StoreKey(values: map<int, nat>, start: int, p: seq<Field>, k: int)
    ensures k in Store(values, start, p) <==> k in values || start <= k < start + |p|
    decreases |p|
  {
    if p != [] {
      StoreKey(values, start, p[..|p| - 1], k);
    }
  }

  lemma {:induction false} StoreGet(values: map<int, nat>, start: int, p: seq<Field>, k: int)
    requires k in values || start <= k < start + |p|
    ensures k in Store(values, start, p)
    ensures Store(values, start, p)[k] == if start <= k < start + |p| then p[k - start].value else values[k]
    decreases |p|
  {
    if p != [] && k != start + |p| - 1 {
      StoreGet(values, start, p[..|p| - 1], k);
    }
  }

  lemma StoreKeys(values: map<int, nat>, start: int, p: seq<Field>)
    ensures forall k :: k in Store(values, start, p) <==> k in values || start <= k < start + |p|
  {
    forall k
      ensures k in Store(values, start, p) <==> k in values || start <= k < start + |p|
    {
      StoreKey(values, start, p, k);
    }
  }

  /** PHP reads a missing array slot as null, which counts as 0. */
  function ValueOrZero(values: map<int, nat>, k: int): nat
  {
    if k in values then values[k] else 0
  }

  /** The five-element array `getEncodingResults` returns. */
  datatype EncodingResults = EncodingResults(
    codewordNumPlus: seq<nat>,
    dataValue: map<int, nat>,
    dataCounter: int,
    dataBits: seq<nat>,
    codewordsNumCounter: int)

  /**
   * What encoding `data` produces on top of the prepared `bits` and `values`:
   * the indicator overwrites the value of the last prepared slot, the count
   * takes the next slot with the mode's base count width, the payload follows.
   */
  function EncodingOf(kind: ModeKind, data: seq<Byte>, bits: seq<nat>, values: map<int, nat>): EncodingResults
  {
    var base := |bits|;
    var p := Payload(kind, data);
    EncodingResults(
      CodewordNumPlusTable(kind),
      Store(values[base - 1 := ModeIndicator(kind)][base := |data|], base + 1, p),
      base + 1 + CompleteGroups(kind, |data|),
      bits + [CountWidth(kind)] + Widths(p),
      base)
  }

  /** The (value, width) entries of results `r` at indices from..to-1, missing values read as 0. */
  function Entries(r: EncodingResults, from: nat, to: nat): (e: seq<Field>)
    requires from <= to <= |r.dataBits|
    ensures |e| == to - from
  {
    seq(to - from, k requires 0 <= k < to - from => Field(ValueOrZero(r.dataValue, from + k), r.dataBits[from + k]))
  }

  lemma PayloadFits(kind: ModeKind, data: seq<Byte>)
    ensures Fits(Payload(kind, data))
  {
    match kind
    case Numeric => NumericPayloadFits(data);
    case Alphanumeric => AlphanumericPayloadFits(data);
    case EightBit => EightBitPayloadFits(data);
  }

  /** Every mode's payload decodes back to the text. */
  lemma PayloadRoundTrip(kind: ModeKind, data: seq<Byte>)
    requires Encodable(kind, data)
    ensures Decode(kind, Payload(kind, data)) == data
  {
    match kind
    case Numeric => NumericRoundTrip(data);
    case Alphanumeric => AlphanumericRoundTrip(data);
    case EightBit => EightBitRoundTrip(data);
  }

  lemma CompleteGroupsBound(kind: ModeKind, data: seq<Byte>)
    ensures var p := Payload(kind, data);
      CompleteGroups(kind, |data|) <= |p| <= CompleteGroups(kind, |data|) + 1
  {
  }

  /** Values stored from key base + 1 and widths appended after slot base read back as the stored fields. */
  lemma StoredEntries(bits: seq<nat>, head: map<int, nat>, w: nat, p: seq<Field>, r: EncodingResults)
    requires r.dataValue == Store(head, |bits| + 1, p) && r.dataBits == bits + [w] + Widths(p)
    ensures |r.dataBits| == |bits| + 1 + |p| && r.dataBits[..|bits|] == bits
    ensures Entries(r, |bits| + 1, |r.dataBits|) == p
  {
    var base := |bits|;
    var e := Entries(r, base + 1, |r.dataBits|);
    forall k | 0 <= k < |p|
      ensures e[k] == p[k]
    {
      StoreGet(head, base + 1, p, base + 1 + k);
      assert ValueOrZero(r.dataValue, base + 1 + k) == p[k].value;
      assert r.dataBits[base + 1 + k] == p[k].width;
    }
  }

  /** The payload entries of the results are the mode's payload, one entry per field, after the count slot. */
  lemma EncodingPayloadEntries(kind: ModeKind, data: seq<Byte>, bits: seq<nat>, values: map<int, nat>)
    ensures var r, p, base := EncodingOf(kind, data, bits, values), Payload(kind, data), |bits|;
      |r.dataBits| == base + 1 + |p| && r.dataBits[..base] == bits &&
      Entries(r, base + 1, |r.dataBits|) == p
  {
    var base := |bits|;
    var head := values[base - 1 := ModeIndicator(kind)][base := |data|];
    StoredEntries(bits, head, CountWidth(kind), Payload(kind, data), EncodingOf(kind, data, bits, values));
  }


  /**
   * The header slots: the indicator in the last prepared slot, the count in
   * the next one (recorded as `codewordsNumCounter`) with the base count
   * width; a key is present exactly when it was before or is one of these
   * slots or a payload slot.
   */
  lemma EncodingHeader(kind: ModeKind, data: seq<Byte>, bits: seq<nat>, values: map<int, nat>)
    requires |bits| >= 1
    ensures var r, p, base := EncodingOf(kind, data, bits, values), Payload(kind, data), |bits|;
      |r.dataBits| == base + 1 + |p| &&
      ValueOrZero(r.dataValue, base - 1) == ModeIndicator(kind) &&
      Entries(r, base, base + 1) == [Field(|data|, CountWidth(kind))] &&
      r.codewordsNumCounter == base &&
      (forall k :: k in r.dataValue <==> k in values || base - 1 <= k <= base + |p|)
  {
    var r, p, base := EncodingOf(kind, data, bits, values), Payload(kind, data), |bits|;
    var head := values[base - 1 := ModeIndicator(kind)][base := |data|];
    HeaderEntries(values, bits, ModeIndicator(kind), |data|, CountWidth(kind), p, head, r.dataValue, r.dataBits);
    assert Entries(r, base, base + 1)[0] == Field(|data|, CountWidth(kind));
  }

  /** The header entries and the keys of a store, for any indicator, count and payload. */
  lemma HeaderEntries(values: map<int, nat>, bits: seq<nat>, mode: nat, n: nat, w: nat, p: seq<Field>,
                      head: map<int, nat>, dv: map<int, nat>, db: seq<nat>)
    requires |bits| >= 1 && head == values[|bits| - 1 := mode][|bits| := n]
    requires dv == Store(head, |bits| + 1, p)
    requires db == bits + [w] + Widths(p)
    ensures var base := |bits|;
      |db| == base + 1 + |p| && db[base] == w &&
      ValueOrZero(dv, base - 1) == mode && ValueOrZero(dv, base) == n &&
      (forall k :: k in dv <==> k in values || base - 1 <= k <= base + |p|)
  {
    var base := |bits|;
    StoreGet(head, base + 1, p, base - 1);
    StoreGet(head, base + 1, p, base);
    StoreKeys(head, base + 1, p);
    assert forall k :: k in head <==> k in values || k == base - 1 || k == base;
  }

  /**
   * The counter ends on the last entry when the last group is incomplete and
   * one past it otherwise; the payload entries decode back to the text.
   */
  lemma EncodingCounterAndRoundTrip(kind: ModeKind, data: seq<Byte>, bits: seq<nat>, values: map<int, nat>)
    requires Encodable(kind, data)
    ensures var r, base := EncodingOf(kind, data, bits, values), |bits|;
      (r.dataCounter == |r.dataBits| || r.dataCounter == |r.dataBits| - 1) &&
      |r.dataBits| >= base + 1 &&
      Decode(kind, Entries(r, base + 1, |r.dataBits|)) == data
  {
    EncodingPayloadEntries(kind, data, bits, values);
    PayloadRoundTrip(kind, data);
    CompleteGroupsBound(kind, data);
  }

  /** Appending one field at the counter keeps the arrays equal to the prefix's payload. */
  lemma AppendEntry(bits0: seq<nat>, values0: map<int, nat>, start: int, p: seq<Field>, f: Field)
    requires |bits0| == start
    ensures Store(values0, start, p)[start + |p| := f.value] == Store(values0, start, p + [f])
    ensures (bits0 + Widths(p)) + [f.width] == bits0 + Widths(p + [f])
  {
    assert (p + [f])[..|p|] == p;
  }

  /** The last stored entry replaced by `f`, seen on the results' value map and widths. */
  lemma ReplaceLastEntryAt(bits0: seq<nat>, values0: map<int, nat>, start: int, p: seq<Field>, q: seq<Field>, f: Field,
                           db: seq<nat>, dv: map<int, nat>, k: int)
    requires |bits0| == start && |p| > 0 && q == p[..|p| - 1] + [f] && k == start + |p| - 1
    requires db == bits0 + Widths(p) && dv == Store(values0, start, p)
    ensures 0 <= k < |db| && k in dv && dv[k] == p[|p| - 1].value
    ensures dv[k := f.value] == Store(values0, start, q) && db[k := f.width] == bits0 + Widths(q)
  {
    ReplaceLastEntry(bits0, values0, start, p, f);
  }

  /** Rewriting the field at the counter replaces the last payload field. */
  lemma ReplaceLastEntry(bits0: seq<nat>, values0: map<int, nat>, start: int, p: seq<Field>, f: Field)
    requires |bits0| == start && |p| > 0
    ensures start + |p| - 1 in Store(values0, start, p)
    ensures Store(values0, start, p)[start + |p| - 1] == p[|p| - 1].value
    ensures Store(values0, start, p)[start + |p| - 1 := f.value] == Store(values0, start, p[..|p| - 1] + [f])
    ensures (bits0 + Widths(p))[start + |p| - 1 := f.width] == bits0 + Widths(p[..|p| - 1] + [f])
  {
    var q := p[..|p| - 1] + [f];
    assert q[..|q| - 1] == p[..|p| - 1];
    var m := Store(values0, start, p[..|p| - 1]);
    var c, old_, new_ := start + |p| - 1, p[|p| - 1].value, f.value;
    assert m[c := old_][c := new_] == m[c := new_];
    assert (bits0 + Widths(p))[start + |p| - 1 := f.width] == bits0 + Widths(q);
  }

  lemma EightBitPayloadSnoc(s: seq<Byte>, c: Byte)
    ensures EightBitPayload(s + [c]) == EightBitPayload(s) + [Field(c, 8)]
  {
  }

  /** A digit at a multiple of three opens a 4-bit field one past the last entry. */
  lemma NumericStepOpen(bits0: seq<nat>, values0: map<int, nat>, start: int, s: seq<Byte>, d: Byte,
                        db: seq<nat>, dv: map<int, nat>, k: int)
    requires |bits0| == start && |s| % 3 == 0 && k == start + |s| / 3
    requires db == bits0 + Widths(NumericPayload(s)) && dv == Store(values0, start, NumericPayload(s))
    ensures k == |db|
    ensures dv[k := DigitValue(d)] == Store(values0, start, NumericPayload(s + [d]))
    ensures db + [4] == bits0 + Widths(NumericPayload(s + [d]))
  {
    NumericPayloadSnocNew(s, d);
    AppendEntry(bits0, values0, start, NumericPayload(s), Field(DigitValue(d), 4));
  }

  /** Any other digit turns the last entry into value * 10 + digit, 7 or 10 bits wide. */
  lemma NumericStepExtend(bits0: seq<nat>, values0: map<int, nat>, start: int, s: seq<Byte>, d: Byte,
                          db: seq<nat>, dv: map<int, nat>, k: int)
    requires |bits0| == start && |s| % 3 != 0 && k == start + |s| / 3
    requires db == bits0 + Widths(NumericPayload(s)) && dv == Store(values0, start, NumericPayload(s))
    ensures 0 <= k < |db| && k in dv
    ensures dv[k := dv[k] * 10 + DigitValue(d)] == Store(values0, start, NumericPayload(s + [d]))
    ensures db[k := if |s| % 3 == 1 then 7 else 10] == bits0 + Widths(NumericPayload(s + [d]))
  {
    var p, q := NumericPayload(s), NumericPayload(s + [d]);
    NumericPayloadSnocExtend(s, d);
    var f := Field(10 * p[|p| - 1].value + DigitValue(d), if |s| % 3 == 1 then 7 else 10);
    ReplaceLastEntryAt(bits0, values0, start, p, q, f, db, dv, k);
    assert dv[k] * 10 + DigitValue(d) == f.value;
  }

  /** A character at an even position opens a 6-bit field one past the last entry. */
  lemma AlphanumericStepOpen(bits0: seq<nat>, values0: map<int, nat>, start: int, s: seq<Byte>, c: Byte,
                             db: seq<nat>, dv: map<int, nat>, k: int)
    requires |bits0| == start && |s| % 2 == 0 && k == start + |s| / 2
    requires db == bits0 + Widths(AlphanumericPayload(s)) && dv == Store(values0, start, AlphanumericPayload(s))
    ensures k == |db|
    ensures dv[k := CharValue(c)] == Store(values0, start, AlphanumericPayload(s + [c]))
    ensures db + [6] == bits0 + Widths(AlphanumericPayload(s + [c]))
  {
    AlphanumericPayloadSnocOpen(s, c);
    AppendEntry(bits0, values0, start, AlphanumericPayload(s), Field(CharValue(c), 6));
  }

  /** A character at an odd position turns the last entry into an 11-bit pair, value * 45 + character. */
  lemma AlphanumericStepPair(bits0: seq<nat>, values0: map<int, nat>, start: int, s: seq<Byte>, c: Byte,
                             db: seq<nat>, dv: map<int, nat>, k: int)
    requires |bits0| == start && |s| % 2 == 1 && k == start + |s| / 2
    requires db == bits0 + Widths(AlphanumericPayload(s)) && dv == Store(values0, start, AlphanumericPayload(s))
    ensures 0 <= k < |db| && k in dv
    ensures dv[k := dv[k] * 45 + CharValue(c)] == Store(values0, start, AlphanumericPayload(s + [c]))
    ensures db[k := 11] == bits0 + Widths(AlphanumericPayload(s + [c]))
  {
    var p, q := AlphanumericPayload(s), AlphanumericPayload(s + [c]);
    AlphanumericPayloadSnocPair(s, c);
    var f := Field(45 * p[|p| - 1].value + CharValue(c), 11);
    ReplaceLastEntryAt(bits0, values0, start, p, q, f, db, dv, k);
    assert dv[k] * 45 + CharValue(c) == f.value;
  }


  /** After `init` and the loop: the results in terms of the arrays the loop started from. */
  lemma EncodingAfterLoop(kind: ModeKind, data: seq<Byte>, bits: seq<nat>, values: map<int, nat>,
                          bits0: seq<nat>, values0: map<int, nat>, start: int)
    requires start == |bits| + 1 && bits0 == bits + [CountWidth(kind)]
    requires values0 == values[|bits| - 1 := ModeIndicator(kind)][|bits| := |data|]
    ensures EncodingOf(kind, data, bits, values) == EncodingResults(
      CodewordNumPlusTable(kind), Store(values0, start, Payload(kind, data)),
      start + CompleteGroups(kind, |data|), bits0 + Widths(Payload(kind, data)), start - 1)
  {
  }

  class EncodeMode {
    const kind: ModeKind
    var data: seq<Byte>
    var dataBits: seq<nat>
    var dataCounter: int
    var dataValue: map<int, nat>
    var codewordNumPlus: seq<nat>
    var codewordsNumCounter: int

    ghost predicate Valid()
      reads this
    {
      codewordNumPlus == CodewordNumPlusTable(kind)
    }

    /** The array `getResults` returns. */
    function Results(): EncodingResults
      reads this
    {
      EncodingResults(codewordNumPlus, dataValue, dataCounter, dataBits, codewordsNumCounter)
    }

    /** Each subclass constructor installs its extra-width table. */
    constructor(kind: ModeKind)
      ensures Valid() && this.kind == kind
      ensures data == [] && dataBits == [] && dataValue == map[] && dataCounter == 0 && codewordsNumCounter == 0
    {
      this.kind := kind;
      codewordNumPlus := CodewordNumPlusTable(kind);
      data, dataBits, dataValue, dataCounter, codewordsNumCounter := [], [], map[], 0, 0;
    }

    method SetDatas(data: seq<Byte>, dataBits: seq<nat>)
      requires Valid()
      modifies this
      ensures Valid()
      ensures this.data == data && this.dataBits == dataBits
      ensures dataValue == old(dataValue) && dataCounter == old(dataCounter) && codewordsNumCounter == old(codewordsNumCounter)
    {
      this.data := data;
      this.dataBits := dataBits;
    }

    /** Runs the mode's encoder and returns the five results. */
    method GetEncodingResults() returns (r: EncodingResults)
      requires Valid()
      modifies this
      ensures Valid() && data == old(data)
      ensures r == Results() == EncodingOf(kind, old(data), old(dataBits), old(dataValue))
    {
      Encode();
      r := Results();
    }

    method Encode()
      requires Valid()
      modifies this
      ensures Valid() && data == old(data)
      ensures Results() == EncodingOf(kind, old(data), old(dataBits), old(dataValue))
    {
      match kind
      case Numeric => EncodeNumeric();
      case Alphanumeric => EncodeAlphanumeric();
      case EightBit => EncodeEightBit();
    }

    /**
     * The mode indicator goes to the last prepared slot, the length to the
     * next one with the given width; that slot is the count slot, and the
     * counter is left just past it.
     */
    method Init(indicator: nat, countWidth: nat)
      modifies this
      ensures data == old(data) && codewordNumPlus == old(codewordNumPlus)
      ensures dataValue == old(dataValue)[|old(dataBits)| - 1 := indicator][|old(dataBits)| := |data|]
      ensures dataBits == old(dataBits) + [countWidth]
      ensures codewordsNumCounter == |old(dataBits)| && dataCounter == |old(dataBits)| + 1
    {
      InitDataCounter();
      SetDataValue(indicator);
      IncrementDataCounter();
      SetDataValue(|data|);
      SetDataBits(countWidth);
      SaveCodewordsNumCounter();
      IncrementDataCounter();
    }

    method GetDataValue() returns (v: nat)
      requires dataCounter in dataValue
      ensures v == dataValue[dataCounter]
    {
      v := dataValue[dataCounter];
    }

    method SetDataValue(value: nat)
      modifies this
      ensures dataValue == old(dataValue)[dataCounter := value]
      ensures data == old(data) && dataBits == old(dataBits) && dataCounter == old(dataCounter)
      ensures codewordNumPlus == old(codewordNumPlus) && codewordsNumCounter == old(codewordsNumCounter)
    {
      dataValue := dataValue[dataCounter := value];
    }

    /** Writes the width slot at the counter, one past the end appending. */
    method SetDataBits(value: nat)
      requires 0 <= dataCounter <= |dataBits|
      modifies this
      ensures dataBits == if old(dataCounter) < |old(dataBits)| then old(dataBits)[old(dataCounter) := value] else old(dataBits) + [value]
      ensures data == old(data) && dataValue == old(dataValue) && dataCounter == old(dataCounter)
      ensures codewordNumPlus == old(codewordNumPlus) && codewordsNumCounter == old(codewordsNumCounter)
    {
      if dataCounter < |dataBits| {
        dataBits := dataBits[dataCounter := value];
      } else {
        dataBits := dataBits + [value];
      }
    }

    method SaveCodewordsNumCounter()
      modifies this
      ensures codewordsNumCounter == dataCounter
      ensures data == old(data) && dataBits == old(dataBits) && dataValue == old(dataValue)
      ensures dataCounter == old(dataCounter) && codewordNumPlus == old(codewordNumPlus)
    {
      codewordsNumCounter := dataCounter;
    }

    /** The counter starts on the last prepared slot. */
    method InitDataCounter()
      modifies this
      ensures dataCounter == |dataBits| - 1
      ensures data == old(data) && dataBits == old(dataBits) && dataValue == old(dataValue)
      ensures codewordNumPlus == old(codewordNumPlus) && codewordsNumCounter == old(codewordsNumCounter)
    {
      dataCounter := |dataBits| - 1;
    }

    method IncrementDataCounter()
      modifies this
      ensures dataCounter == old(dataCounter) + 1
      ensures data == old(data) && dataBits == old(dataBits) && dataValue == old(dataValue)
      ensures codewordNumPlus == old(codewordNumPlus) && codewordsNumCounter == old(codewordsNumCounter)
    {
      dataCounter := dataCounter + 1;
    }

    /** Numeric mode: indicator 1, a 10-bit count, then three digits per entry. */
    method EncodeNumeric()
      requires Valid() && kind == Numeric
      modifies this
      ensures Valid() && data == old(data)
      ensures Results() == EncodingOf(kind, old(data), old(dataBits), old(dataValue))
    {
      ghost var bits, values := dataBits, dataValue;
      Init(1, 10);
      ghost var bits0, values0 := dataBits, dataValue;
      var start := dataCounter;
      var i := 0;
      assert NumericPayload(data[..i]) == [];
      while i < |data|
        invariant 0 <= i <= |data|
        invariant codewordNumPlus == old(codewordNumPlus) && data == old(data)
        invariant codewordsNumCounter == start - 1 && |bits0| == start
        invariant dataBits == bits0 + Widths(NumericPayload(data[..i]))
        invariant dataValue == Store(values0, start, NumericPayload(data[..i]))
        invariant dataCounter == start + i / 3
      {
        NumericDigit(i, bits0, values0, start);
        i := i + 1;
      }
      assert data[..i] == data;
      EncodingAfterLoop(kind, data, bits, values, bits0, values0, start);
    }

    /** The body of the numeric loop for the digit at `i`. */
    method NumericDigit(i: nat, ghost bits0: seq<nat>, ghost values0: map<int, nat>, start: int)
      requires i < |data| && |bits0| == start
      requires dataBits == bits0 + Widths(NumericPayload(data[..i]))
      requires dataValue == Store(values0, start, NumericPayload(data[..i]))
      requires dataCounter == start + i / 3
      modifies this
      ensures data == old(data) && codewordNumPlus == old(codewordNumPlus) && codewordsNumCounter == old(codewordsNumCounter)
      ensures dataBits == bits0 + Widths(NumericPayload(data[..i + 1]))
      ensures dataValue == Store(values0, start, NumericPayload(data[..i + 1]))
      ensures dataCounter == start + (i + 1) / 3
    {
      var d := data[i];
      ghost var s := data[..i];
      assert data[..i + 1] == s + [d];
      DivSucc(i, 3);
      if i % 3 == 0 {
        NumericStepOpen(bits0, values0, start, s, d, dataBits, dataValue, dataCounter);
        SetDataValue(DigitValue(d));
        SetDataBits(4);
      } else {
        NumericStepExtend(bits0, values0, start, s, d, dataBits, dataValue, dataCounter);
        var v := GetDataValue();
        SetDataValue(v * 10 + DigitValue(d));
        if i % 3 == 1 {
          SetDataBits(7);
        } else {
          SetDataBits(10);
          IncrementDataCounter();
        }
      }
    }

    /** Alphanumeric mode: indicator 2, a 9-bit count, then two characters per entry. */
    method EncodeAlphanumeric()
      requires Valid() && kind == Alphanumeric
      modifies this
      ensures Valid() && data == old(data)
      ensures Results() == EncodingOf(kind, old(data), old(dataBits), old(dataValue))
    {
      ghost var bits, values := dataBits, dataValue;
      Init(2, 9);
      ghost var bits0, values0 := dataBits, dataValue;
      var start := dataCounter;
      var i := 0;
      assert AlphanumericPayload(data[..i]) == [];
      while i < |data|
        invariant 0 <= i <= |data|
        invariant codewordNumPlus == old(codewordNumPlus) && data == old(data)
        invariant codewordsNumCounter == start - 1 && |bits0| == start
        invariant dataBits == bits0 + Widths(AlphanumericPayload(data[..i]))
        invariant dataValue == Store(values0, start, AlphanumericPayload(data[..i]))
        invariant dataCounter == start + i / 2
      {
        AlphanumericCharacter(i, bits0, values0, start);
        i := i + 1;
      }
      assert data[..i] == data;
      EncodingAfterLoop(kind, data, bits, values, bits0, values0, start);
    }

    /** The body of the alphanumeric loop for the character at `i`. */
    method AlphanumericCharacter(i: nat, ghost bits0: seq<nat>, ghost values0: map<int, nat>, start: int)
      requires i < |data| && |bits0| == start
      requires dataBits == bits0 + Widths(AlphanumericPayload(data[..i]))
      requires dataValue == Store(values0, start, AlphanumericPayload(data[..i]))
      requires dataCounter == start + i / 2
      modifies this
      ensures data == old(data) && codewordNumPlus == old(codewordNumPlus) && codewordsNumCounter == old(codewordsNumCounter)
      ensures dataBits == bits0 + Widths(AlphanumericPayload(data[..i + 1]))
      ensures dataValue == Store(values0, start, AlphanumericPayload(data[..i + 1]))
      ensures dataCounter == start + (i + 1) / 2
    {
      var c := data[i];
      ghost var s := data[..i];
      assert data[..i + 1] == s + [c];
      DivSucc(i, 2);
      if i % 2 == 0 {
        AlphanumericStepOpen(bits0, values0, start, s, c, dataBits, dataValue, dataCounter);
        SetDataValue(CharValue(c));
        assert dataValue == Store(values0, start, AlphanumericPayload(s + [c]));
        SetDataBits(6);
      } else {
        AlphanumericStepPair(bits0, values0, start, s, c, dataBits, dataValue, dataCounter);
        var v := GetDataValue();
        SetDataValue(v * 45 + CharValue(c));
        assert dataValue == Store(values0, start, AlphanumericPayload(s + [c]));
        SetDataBits(11);
        IncrementDataCounter();
      }
    }

    /** Byte mode: indicator 4, an 8-bit count, then one entry per byte. */
    method EncodeEightBit()
      requires Valid() && kind == EightBit
      modifies this
      ensures Valid() && data == old(data)
      ensures Results() == EncodingOf(kind, old(data), old(dataBits), old(dataValue))
    {
      ghost var bits, values := dataBits, dataValue;
      Init(4, 8);
      ghost var bits0, values0 := dataBits, dataValue;
      var start := dataCounter;
      var i := 0;
      assert EightBitPayload(data[..i]) == [];
      while i < |data|
        invariant 0 <= i <= |data|
        invariant codewordNumPlus == old(codewordNumPlus) && data == old(data)
        invariant codewordsNumCounter == start - 1 && |bits0| == start
        invariant dataBits == bits0 + Widths(EightBitPayload(data[..i]))
        invariant dataValue == Store(values0, start, EightBitPayload(data[..i]))
        invariant dataCounter == start + i
      {
        var c := data[i];
        assert data[..i + 1] == data[..i] + [c];
        EightBitPayloadSnoc(data[..i], c);
        AppendEntry(bits0, values0, start, EightBitPayload(data[..i]), Field(c, 8));
        SetDataValue(c);
        SetDataBits(8);
        IncrementDataCounter();
        i := i + 1;
      }
      assert data[..i] == data;
      EncodingAfterLoop(kind, data, bits, values, bits0, values0, start);
    }
  }
}
