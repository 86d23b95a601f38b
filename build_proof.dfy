/**
 * What `create` hands the packer. Every value the encoder stored fits the
 * width recorded beside it once the count field is widened for the chosen
 * version, and after the terminator the widths add up to at most the
 * capacity, so the packer yields the data codewords of the bit stream.
 * The count fits because the capacity tables never hold more characters
 * than the widened count field can express (Table 3 and Table 7 of
 * ISO/IEC 18004:2015).
 */
module BuildProof {
  import opened Bits
  import opened Results
  import opened NumericModes
  import opened AlphanumericModes
  import opened EightBitModes
  import opened EncodeModes
  import opened Codewords
  import opened Capacity
  import opened PackingProof
  import opened ModesManagers
  import opened Builders

  // ---------------------------------------------------------------------
  // Payload density
  // ---------------------------------------------------------------------

  /** The characters of a full group: three digits, a pair, one byte. */
  function GroupSize(kind: ModeKind): nat
  {
    match kind
    case Numeric => 3
    case Alphanumeric => 2
    case EightBit => 1
  }

  /** The bits of a full group. */
  function GroupBits(kind: ModeKind): nat
  {
    match kind
    case Numeric => 10
    case Alphanumeric => 11
    case EightBit => 8
  }

  /** The first j numeric groups take at least 10 bits per 3 digits they cover. */
  lemma {:induction false} NumericPrefixWidth(s: seq<Byte>, j: nat)
    requires j <= GroupCount(|s|)
    ensures 3 * TotalWidth(NumericPayload(s)[..j]) >= 10 * (if 3 * j <= |s| then 3 * j else |s|)
  {
    if j > 0 {
      var p := NumericPayload(s);
      NumericPrefixWidth(s, j - 1);
      assert p[..j][..j - 1] == p[..j - 1];
      var g := Group(s, j - 1);
      assert |g| == GroupEnd(|s|, j - 1) - 3 * (j - 1);
      assert p[j - 1].width == GroupWidth(|g|);
    }
  }

  /** The first j alphanumeric fields take at least 11 bits per 2 characters they cover. */
  lemma {:induction false} AlphanumericPrefixWidth(s: seq<Byte>, j: nat)
    requires j <= PairCount(|s|)
    ensures 2 * TotalWidth(AlphanumericPayload(s)[..j]) >= 11 * (if 2 * j <= |s| then 2 * j else |s|)
  {
    if j > 0 {
      var p := AlphanumericPayload(s);
      AlphanumericPrefixWidth(s, j - 1);
      assert p[..j][..j - 1] == p[..j - 1];
      assert p[j - 1] == PairField(s, j - 1);
    }
  }

  /** The first j byte fields take 8 bits each. */
  lemma {:induction false} EightBitPrefixWidth(s: seq<Byte>, j: nat)
    requires j <= |s|
    ensures TotalWidth(EightBitPayload(s)[..j]) == 8 * j
  {
    if j > 0 {
      var p := EightBitPayload(s);
      EightBitPrefixWidth(s, j - 1);
      assert p[..j][..j - 1] == p[..j - 1];
    }
  }

  /** A payload takes at least the bits of full groups for its characters. */
  lemma PayloadWidthBound(kind: ModeKind, data: seq<Byte>)
    ensures GroupSize(kind) * TotalWidth(Payload(kind, data)) >= GroupBits(kind) * |data|
  {
    var p := Payload(kind, data);
    assert p[..|p|] == p;
    match kind
    case Numeric => NumericPrefixWidth(data, |p|);
    case Alphanumeric => AlphanumericPrefixWidth(data, |p|);
    case EightBit => EightBitPrefixWidth(data, |p|);
  }

  /** No payload field is empty. */
  lemma PayloadWidthsPositive(kind: ModeKind, data: seq<Byte>)
    ensures forall k :: 0 <= k < |Payload(kind, data)| ==> Payload(kind, data)[k].width > 0
  {
    var p := Payload(kind, data);
    forall k | 0 <= k < |p|
      ensures p[k].width > 0
    {
      match kind
      case Numeric => assert p[k].width == GroupWidth(|Group(data, k)|);
      case Alphanumeric => assert p[k] == PairField(data, k);
      case EightBit =>
    }
  }

  // ---------------------------------------------------------------------
  // Totals
  // ---------------------------------------------------------------------

  /** The total over a head followed by the widths of some fields adds the fields' width. */
  lemma {:induction false} TotalOfWidths(head: seq<nat>, p: seq<Field>, j: nat)
    requires j <= |p|
    ensures DataBitsTotal(head + Widths(p), |head| + j) == DataBitsTotal(head, |head|) + TotalWidth(p[..j])
  {
    if j == 0 {
      PrefixTotal(head + Widths(p), head, |head|);
    } else {
      TotalOfWidths(head, p, j - 1);
      assert p[..j][..j - 1] == p[..j - 1];
      assert WidthAt(head + Widths(p), |head| + j - 1) == p[j - 1].width;
    }
  }

  /** Widening one counted slot by d adds d to the total. */
  lemma {:induction false} TotalWidened(a: seq<nat>, k: nat, d: nat, n: nat)
    requires k < n <= |a|
    ensures DataBitsTotal(a[k := a[k] + d], n) == DataBitsTotal(a, n) + d
  {
    if n - 1 > k {
      TotalWidened(a, k, d, n - 1);
    } else {
      PrefixTotal(a[k := a[k] + d], a, k);
    }
  }

  /**
   * `create` counts every slot the encoder wrote: a last incomplete group
   * leaves the counter on a filled slot, which is stepped past. The total
   * then holds the whole payload.
   */
  lemma EncodingCounted(kind: ModeKind, data: seq<Byte>, bits: seq<nat>, values: map<int, nat>)
    requires |bits| >= 1
    ensures var r := EncodingOf(kind, data, bits, values);
      ResultsShaped(r) && CountedSlots(r) == |r.dataBits| && r.codewordNumPlus == CodewordNumPlusTable(kind) &&
      Total(r) >= TotalWidth(Payload(kind, data))
  {
    var r, p := EncodingOf(kind, data, bits, values), Payload(kind, data);
    EncodingShaped(kind, data, bits, values);
    CompleteGroupsBound(kind, data);
    PayloadWidthsPositive(kind, data);
    assert r.dataBits == (bits + [CountWidth(kind)]) + Widths(p);
    assert r.dataCounter == |bits| + 1 + CompleteGroups(kind, |data|);
    CountsAll(r, bits + [CountWidth(kind)], p, CompleteGroups(kind, |data|));
    TotalHoldsPayload(r, bits + [CountWidth(kind)], p);
  }

  /** A counter on the last of non-empty fields, or past them, counts every slot. */
  lemma CountsAll(r: EncodingResults, head: seq<nat>, p: seq<Field>, groups: nat)
    requires ResultsShaped(r) && r.dataBits == head + Widths(p) && r.dataCounter == |head| + groups
    requires groups <= |p| <= groups + 1 && forall k :: 0 <= k < |p| ==> p[k].width > 0
    ensures CountedSlots(r) == |r.dataBits|
  {
    if r.dataCounter < |r.dataBits| {
      assert r.dataBits[r.dataCounter] == p[groups].width;
    }
  }

  /** With every slot counted, the total holds the payload's width. */
  lemma TotalHoldsPayload(r: EncodingResults, head: seq<nat>, p: seq<Field>)
    requires ResultsShaped(r) && r.dataBits == head + Widths(p) && CountedSlots(r) == |r.dataBits|
    ensures Total(r) >= TotalWidth(p)
  {
    assert p[..|p|] == p;
    TotalOfWidths(head, p, |p|);
  }

  // ---------------------------------------------------------------------
  // Capacity against the count field
  // ---------------------------------------------------------------------

  /** The largest capacity of each count-width range, versions 1-9, 10-26 and 27-40, is level L's. */
  lemma LevelBounds()
    ensures forall e :: 0 <= e < 4 ==> Levels[e][8] <= 1856 && Levels[e][25] <= 10960 && Levels[e][39] <= 23648
  {
    assert LevelMBits[8] <= 1856 && LevelMBits[25] <= 10960 && LevelMBits[39] <= 23648;
    assert LevelLBits[8] <= 1856 && LevelLBits[25] <= 10960 && LevelLBits[39] <= 23648;
    assert LevelHBits[8] <= 1856 && LevelHBits[25] <= 10960 && LevelHBits[39] <= 23648;
    assert LevelQBits[8] <= 1856 && LevelQBits[25] <= 10960 && LevelQBits[39] <= 23648;
  }

  /** The capacity of a version is bounded by the largest of its count-width range, and is whole codewords. */
  lemma CapacityByRange(v: int, ecc: int)
    requires 1 <= v <= 40 && 0 <= ecc <= 3
    ensures MaxDataBits(v, ecc) <= if v <= 9 then 1856 else if v <= 26 then 10960 else 23648
    ensures MaxDataBits(v, ecc) % 8 == 0
  {
    MaxDataBitsByLevel(v, ecc);
    LevelsChecked();
    LevelBounds();
    var t := Levels[ecc];
    var top := if v <= 9 then 8 else if v <= 26 then 25 else 39;
    if v - 1 < top {
      IncreasingApart(t, v - 1, top);
    }
  }

  /**
   * Text whose payload of w bits fits the capacity of version v has a
   * length the count field, widened for v, can hold.
   */
  lemma CountFits(kind: ModeKind, v: int, ecc: int, len: nat, w: nat, plus: nat)
    requires 1 <= v <= 40 && 0 <= ecc <= 3
    requires GroupSize(kind) * w >= GroupBits(kind) * len && w <= MaxDataBits(v, ecc)
    requires |CodewordNumPlusTable(kind)| == 41 && plus == CodewordNumPlusTable(kind)[v]
    ensures len < Pow2(CountWidth(kind) + plus)
  {
    CapacityByRange(v, ecc);
    CountWidthsAreStandard(kind, v);
    assert Pow2(8) == 256 && Pow2(9) == 512 && Pow2(10) == 1024 && Pow2(11) == 2048;
    assert Pow2(12) == 4096 && Pow2(13) == 8192 && Pow2(14) == 16384 && Pow2(16) == 65536;
    match kind
    case Numeric =>
    case Alphanumeric =>
    case EightBit =>
  }

  // ---------------------------------------------------------------------
  // The fields `create` packs
  // ---------------------------------------------------------------------

  /**
   * The arrays the encoder starts from: only slots before the indicator
   * hold values, each within its width, and the indicator slot has room
   * for the largest indicator, 4.
   */
  predicate PreparedFits(bits: seq<nat>, values: map<int, nat>)
  {
    |bits| >= 1 && bits[|bits| - 1] >= 3 &&
    forall k :: k in values ==> 0 <= k < |bits| - 1 && values[k] < Pow2(bits[k])
  }

  /** What `setText` prepares, with or without structured append, is such a start. */
  lemma PreparedBitsFit(n: int, m: int)
    ensures PreparedFits(PreparedBits(n, m), map[])
  {
  }

  /**
   * The slots of the encoder's results: the prepared values before the
   * indicator, the indicator, the count, the payload, and nothing stored
   * past the last slot.
   */
  lemma EncodedSlots(kind: ModeKind, data: seq<Byte>, bits: seq<nat>, values: map<int, nat>)
    requires PreparedFits(bits, values)
    ensures var r, p, base := EncodingOf(kind, data, bits, values), Payload(kind, data), |bits|;
      |r.dataBits| == base + 1 + |p| && r.dataBits[..base] == bits && r.dataBits[base] == CountWidth(kind) &&
      ValueOrZero(r.dataValue, base - 1) == ModeIndicator(kind) && ValueOrZero(r.dataValue, base) == |data| &&
      (forall k :: 0 <= k < base - 1 ==> ValueOrZero(r.dataValue, k) == ValueOrZero(values, k)) &&
      (forall k :: base < k < |r.dataBits| ==> ValueOrZero(r.dataValue, k) == p[k - base - 1].value) &&
      (forall k :: base < k < |r.dataBits| ==> r.dataBits[k] == p[k - base - 1].width) &&
      |r.dataBits| !in r.dataValue
  {
    var r, p, base := EncodingOf(kind, data, bits, values), Payload(kind, data), |bits|;
    var head := values[base - 1 := ModeIndicator(kind)][base := |data|];
    assert r.dataValue == Store(head, base + 1, p);
    EncodingHeader(kind, data, bits, values);
    assert Entries(r, base, base + 1)[0] == Field(|data|, CountWidth(kind));
    EncodedPayload(kind, data, bits, values);
    forall k | 0 <= k < base - 1
      ensures ValueOrZero(r.dataValue, k) == ValueOrZero(values, k)
    {
      StoreBelow(head, base + 1, p, k);
    }
  }

  /** Keys below the start of a store keep the values they had. */
  lemma StoreBelow(values: map<int, nat>, start: int, p: seq<Field>, k: int)
    requires k < start
    ensures ValueOrZero(Store(values, start, p), k) == ValueOrZero(values, k)
  {
    StoreKey(values, start, p, k);
    if k in values {
      StoreGet(values, start, p, k);
    }
  }

  /** The payload slots of the encoder's results hold the payload's fields. */
  lemma EncodedPayload(kind: ModeKind, data: seq<Byte>, bits: seq<nat>, values: map<int, nat>)
    ensures var r, p, base := EncodingOf(kind, data, bits, values), Payload(kind, data), |bits|;
      (forall k :: base < k < |r.dataBits| ==> ValueOrZero(r.dataValue, k) == p[k - base - 1].value) &&
      (forall k :: base < k < |r.dataBits| ==> r.dataBits[k] == p[k - base - 1].width)
  {
    var r, p, base := EncodingOf(kind, data, bits, values), Payload(kind, data), |bits|;
    var head := values[base - 1 := ModeIndicator(kind)][base := |data|];
    StoredPayload(head, bits, CountWidth(kind), p, r.dataValue, r.dataBits);
  }

  /** Fields stored after a head of slots and a count slot read back at their slots. */
  lemma StoredPayload(head: map<int, nat>, bits: seq<nat>, w: nat, p: seq<Field>, dv: map<int, nat>, db: seq<nat>)
    requires dv == Store(head, |bits| + 1, p) && db == bits + [w] + Widths(p)
    ensures forall k :: |bits| < k < |db| ==> ValueOrZero(dv, k) == p[k - |bits| - 1].value
    ensures forall k :: |bits| < k < |db| ==> db[k] == p[k - |bits| - 1].width
  {
    forall k | |bits| < k < |db|
      ensures ValueOrZero(dv, k) == p[k - |bits| - 1].value
    {
      StoreGet(head, |bits| + 1, p, k);
    }
  }

  /**
   * Slots laid out as the encoder lays them out hold values within their
   * widths once the count slot is widened by `plus` bits, when the text's
   * length fits the widened count field.
   */
  lemma SlotFits(bits: seq<nat>, values: map<int, nat>, p: seq<Field>, dv: map<int, nat>, db: seq<nat>,
                 indicator: nat, len: nat, w: nat, plus: nat, i: int)
    requires PreparedFits(bits, values) && Fits(p) && indicator <= 4 && len < Pow2(w + plus)
    requires |db| == |bits| + 1 + |p| && db[..|bits|] == bits && db[|bits|] == w
    requires ValueOrZero(dv, |bits| - 1) == indicator && ValueOrZero(dv, |bits|) == len
    requires forall k :: 0 <= k < |bits| - 1 ==> ValueOrZero(dv, k) == ValueOrZero(values, k)
    requires forall k :: |bits| < k < |db| ==> ValueOrZero(dv, k) == p[k - |bits| - 1].value
    requires forall k :: |bits| < k < |db| ==> db[k] == p[k - |bits| - 1].width
    requires 0 <= i < |db|
    ensures ValueOrZero(dv, i) < Pow2(db[|bits| := w + plus][i])
  {
    var base := |bits|;
    if i < base - 1 {
      assert db[i] == bits[i];
    } else if i == base - 1 {
      assert db[i] == bits[i];
      Pow2Monotone(3, bits[i]);
      assert Pow2(3) == 8;
    } else if i > base {
      assert p[i - base - 1].value < Pow2(p[i - base - 1].width);
    }
  }

  /**
   * The entries 0..n after the terminator are what the packer needs:
   * each value within its width, and all of them within the data
   * codewords of a capacity of maxDataBits.
   */
  predicate PackedFit(t: Terminated, n: nat, maxDataBits: nat)
  {
    var fs := PackedFields(t.dataValue, t.dataBits, n + 1);
    Fits(fs) && TotalWidth(fs) <= 8 * Shr(maxDataBits, 3)
  }

  /** Every written slot holds a value within its width once the count slot is widened by `plus` bits. */
  predicate WrittenFit(r: EncodingResults, plus: nat)
    requires 0 <= r.codewordsNumCounter < |r.dataBits|
  {
    var k := r.codewordsNumCounter;
    forall i :: 0 <= i < |r.dataBits| ==> ValueOrZero(r.dataValue, i) < Pow2(r.dataBits[k := r.dataBits[k] + plus][i])
  }

  /**
   * Results whose every slot is counted and fits once widened: after the
   * terminator for a version of 1 to 40, every packed value fits its width
   * and the packed widths fit the data codewords.
   */
  lemma SizedFits(r: EncodingResults, version: Option<int>, ecc: int, t: Terminated)
    requires ResultsShaped(r) && 0 <= ecc <= 3 && (version.Some? ==> 0 <= version.value <= 40)
    requires CountedSlots(r) == |r.dataBits| && |r.dataBits| !in r.dataValue
    requires var s := SizedOf(r, version, ecc);
      s.version.Some? && s.version.value >= 1 && WrittenFit(r, r.codewordNumPlus[s.version.value]) &&
      SetTerminator(r.dataValue, s.dataCounter, s.dataBits, s.totalDataBits, s.maxDataBits) == Success(t)
    ensures var s := SizedOf(r, version, ecc); PackedFit(t, s.dataCounter, s.maxDataBits)
  {
    var s := SizedOf(r, version, ecc);
    var v := s.version.value;
    var k, plus := r.codewordsNumCounter, r.codewordNumPlus[v];
    SizedParts(r, version, ecc);
    assert s.dataCounter == |s.dataBits|;
    assert s.totalDataBits == DataBitsTotal(s.dataBits, |s.dataBits|) by {
      TotalWidened(r.dataBits, k, plus, |r.dataBits|);
    }
    assert s.maxDataBits % 8 == 0 by {
      CapacityByRange(v, ecc);
    }
    assert forall i :: 0 <= i < |s.dataBits| ==> ValueOrZero(r.dataValue, i) < Pow2(s.dataBits[i]);
    TerminatedFits(r.dataValue, s.dataBits, s.totalDataBits, s.maxDataBits, t);
  }

  /** The count fits its widened field when the payload, within the total, fits the chosen version's capacity. */
  lemma ChosenCountFits(kind: ModeKind, len: nat, w: nat, v: int, ecc: int, plus: seq<nat>, total: int, maxBits: int)
    requires 1 <= v <= 40 && 0 <= ecc <= 3 && plus == CodewordNumPlusTable(kind)
    requires GroupSize(kind) * w >= GroupBits(kind) * len && total >= w
    requires |plus| == 41 && maxBits == MaxDataBits(v, ecc) && total + plus[v] <= maxBits
    ensures len < Pow2(CountWidth(kind) + plus[v])
  {
    CountFits(kind, v, ecc, len, w, plus[v]);
  }

  /** Once a version is chosen, the capacity is that version's and the total is widened by its extra count bits. */
  lemma SizedCapacity(r: EncodingResults, version: Option<int>, ecc: int)
    requires ResultsShaped(r) && 0 <= ecc <= 3 && (version.Some? ==> 0 <= version.value <= 40)
    ensures var s := SizedOf(r, version, ecc);
      s.version.Some? ==>
        s.maxDataBits == MaxDataBits(s.version.value, ecc) && s.totalDataBits == Total(r) + r.codewordNumPlus[s.version.value]
  {
  }

  /** The sized arrays once a version is chosen: its capacity, the widened total and the widened count slot. */
  lemma SizedParts(r: EncodingResults, version: Option<int>, ecc: int)
    requires ResultsShaped(r) && 0 <= ecc <= 3 && (version.Some? ==> 0 <= version.value <= 40)
    ensures var s, k := SizedOf(r, version, ecc), r.codewordsNumCounter;
      s.version.Some? ==>
        s.dataCounter == CountedSlots(r) && s.maxDataBits == MaxDataBits(s.version.value, ecc) &&
        s.totalDataBits == Total(r) + r.codewordNumPlus[s.version.value] &&
        s.dataBits == r.dataBits[k := r.dataBits[k] + r.codewordNumPlus[s.version.value]]
  {
  }

  /**
   * Results as the encoder leaves them for a text of `len` characters of
   * mode `kind` whose payload takes w bits: every slot counted, the
   * payload in the total, nothing stored past the last slot, and every
   * slot within its width once the count field is widened enough to hold
   * the length.
   */
  ghost predicate Encoded(r: EncodingResults, kind: ModeKind, len: nat, w: nat)
  {
    ResultsShaped(r) && CountedSlots(r) == |r.dataBits| && r.codewordNumPlus == CodewordNumPlusTable(kind) &&
    Total(r) >= w && GroupSize(kind) * w >= GroupBits(kind) * len && |r.dataBits| !in r.dataValue &&
    forall plus: nat :: len < Pow2(CountWidth(kind) + plus) ==> WrittenFit(r, plus)
  }

  /** The encoder's results on a prepared start are such results. */
  lemma EncodingIsEncoded(kind: ModeKind, data: seq<Byte>, bits: seq<nat>, values: map<int, nat>)
    requires PreparedFits(bits, values)
    ensures Encoded(EncodingOf(kind, data, bits, values), kind, |data|, TotalWidth(Payload(kind, data)))
  {
    var r := EncodingOf(kind, data, bits, values);
    EncodingCounted(kind, data, bits, values);
    PayloadWidthBound(kind, data);
    forall plus: nat | |data| < Pow2(CountWidth(kind) + plus)
      ensures WrittenFit(r, plus)
    {
      WidenedSlotsFit(kind, data, bits, values, plus);
    }
    EncodedSlots(kind, data, bits, values);
  }

  /**
   * Such results, once the terminator is set for a version of 1 to 40:
   * every packed value fits its width and the packed widths fit the data
   * codewords.
   */
  lemma EncodedFits(r: EncodingResults, kind: ModeKind, len: nat, w: nat, version: Option<int>, ecc: int)
    requires Encoded(r, kind, len, w) && 0 <= ecc <= 3 && (version.Some? ==> 0 <= version.value <= 40)
    ensures var s := SizedOf(r, version, ecc);
      match SetTerminator(r.dataValue, s.dataCounter, s.dataBits, s.totalDataBits, s.maxDataBits)
      case Failure(_) => true
      case Success(t) => s.version.Some? && s.version.value >= 1 ==> PackedFit(t, s.dataCounter, s.maxDataBits)
  {
    var s := SizedOf(r, version, ecc);
    match SetTerminator(r.dataValue, s.dataCounter, s.dataBits, s.totalDataBits, s.maxDataBits)
    case Failure(_) =>
    case Success(t) =>
      if s.version.Some? && s.version.value >= 1 {
        assert s.totalDataBits <= s.maxDataBits;
        SizedCapacity(r, version, ecc);
        ChosenCountFits(kind, len, w, s.version.value, ecc, r.codewordNumPlus, Total(r), s.maxDataBits);
        assert WrittenFit(r, r.codewordNumPlus[s.version.value]);
        SizedFits(r, version, ecc, t);
      }
  }

  /**
   * For the encoder's results on a prepared start, once the terminator is
   * set for a version of 1 to 40: every packed value fits its width and the
   * packed widths fit the data codewords.
   */
  lemma PackedFieldsFit(kind: ModeKind, data: seq<Byte>, bits: seq<nat>, values: map<int, nat>,
                        version: Option<int>, ecc: int)
    requires PreparedFits(bits, values) && 0 <= ecc <= 3 && (version.Some? ==> 0 <= version.value <= 40)
    ensures ResultsShaped(EncodingOf(kind, data, bits, values))
    ensures var r := EncodingOf(kind, data, bits, values);
      var s := SizedOf(r, version, ecc);
      match SetTerminator(r.dataValue, s.dataCounter, s.dataBits, s.totalDataBits, s.maxDataBits)
      case Failure(_) => true
      case Success(t) => s.version.Some? && s.version.value >= 1 ==> PackedFit(t, s.dataCounter, s.maxDataBits)
  {
    EncodingIsEncoded(kind, data, bits, values);
    EncodedFits(EncodingOf(kind, data, bits, values), kind, |data|, TotalWidth(Payload(kind, data)), version, ecc);
  }

  /** With the count field widened to hold the text's length, every slot the encoder wrote fits. */
  lemma WidenedSlotsFit(kind: ModeKind, data: seq<Byte>, bits: seq<nat>, values: map<int, nat>, plus: nat)
    requires PreparedFits(bits, values) && |data| < Pow2(CountWidth(kind) + plus)
    ensures var r := EncodingOf(kind, data, bits, values);
      0 <= r.codewordsNumCounter < |r.dataBits| && WrittenFit(r, plus) && |r.dataBits| !in r.dataValue
  {
    var r, p, base := EncodingOf(kind, data, bits, values), Payload(kind, data), |bits|;
    EncodedSlots(kind, data, bits, values);
    PayloadFits(kind, data);
    forall i | 0 <= i < |r.dataBits|
      ensures ValueOrZero(r.dataValue, i) < Pow2(r.dataBits[base := r.dataBits[base] + plus][i])
    {
      SlotFits(bits, values, p, r.dataValue, r.dataBits, ModeIndicator(kind), |data|, CountWidth(kind), plus, i);
    }
  }

  /**
   * A terminator set one past the written slots keeps every entry within
   * its width, when the written ones are, and the stream within whole
   * codewords of the capacity.
   */
  lemma TerminatedFits(dv: map<int, nat>, db: seq<nat>, total: nat, maxDataBits: nat, t: Terminated)
    requires |db| !in dv && total == DataBitsTotal(db, |db|) && maxDataBits % 8 == 0
    requires forall i :: 0 <= i < |db| ==> ValueOrZero(dv, i) < Pow2(db[i])
    requires SetTerminator(dv, |db|, db, total, maxDataBits) == Success(t)
    ensures PackedFit(t, |db|, maxDataBits)
  {
    TerminatedEntriesFit(dv, db, total, maxDataBits, t);
    TerminatedWithin(dv, db, total, maxDataBits, t);
  }

  /** The terminator entry is a zero, and the written entries are as they were. */
  lemma TerminatedEntriesFit(dv: map<int, nat>, db: seq<nat>, total: nat, maxDataBits: nat, t: Terminated)
    requires |db| !in dv
    requires forall i :: 0 <= i < |db| ==> ValueOrZero(dv, i) < Pow2(db[i])
    requires SetTerminator(dv, |db|, db, total, maxDataBits) == Success(t)
    ensures Fits(PackedFields(t.dataValue, t.dataBits, |db| + 1))
  {
    var n := |db|;
    TerminatorMeaning(dv, n, db, total, maxDataBits);
    var fs := PackedFields(t.dataValue, t.dataBits, n + 1);
    forall i | 0 <= i < n + 1
      ensures fs[i].value < Pow2(fs[i].width)
    {
      if i < n {
        assert fs[i] == EntryAt(dv, db, i);
      }
    }
  }

  /** After the terminator the widths stay within the capacity, which is whole codewords. */
  lemma TerminatedWithin(dv: map<int, nat>, db: seq<nat>, total: nat, maxDataBits: nat, t: Terminated)
    requires total == DataBitsTotal(db, |db|) && maxDataBits % 8 == 0
    requires SetTerminator(dv, |db|, db, total, maxDataBits) == Success(t)
    ensures TotalWidth(PackedFields(t.dataValue, t.dataBits, |db| + 1)) <= 8 * Shr(maxDataBits, 3)
  {
    var n := |db|;
    TerminatedTotal(dv, n, db, total, maxDataBits);
    DataBitsTotalIsStreamLength(t.dataValue, t.dataBits, n + 1);
    assert 8 * Shr(maxDataBits, 3) == maxDataBits by {
      ShrDiv(maxDataBits, 3);
      assert Pow2(3) == 8;
    }
  }

  /**
   * The codewords the packer makes of entries 0..n after the terminator,
   * with a capacity of maxDataBits, are the prescribed data codewords of
   * their stream: the bytes of the entries, the terminator, zero fill and
   * the pad codewords (sections 7.4.9 and 7.4.10 of ISO/IEC 18004:2015),
   * each up to the byte its number holds.
   */
  ghost predicate PacksStream(t: Terminated, n: nat, maxDataBits: nat)
  {
    var fs, mc := PackedFields(t.dataValue, t.dataBits, n + 1), Shr(maxDataBits, 3);
    var cw := CodewordsOf(t.dataValue, n, t.dataBits, mc);
    TotalWidth(fs) <= 8 * mc && |cw| >= mc &&
    forall k :: 0 <= k < mc ==> cw[k] % 256 == DataCodewords(fs, mc)[k]
  }

  /** Entries that fit are packed into the data codewords of their stream. */
  lemma FitPacksStream(t: Terminated, n: nat, maxDataBits: nat)
    requires PackedFit(t, n, maxDataBits)
    ensures PacksStream(t, n, maxDataBits)
  {
    CodewordsMeaning(t.dataValue, t.dataBits, n, Shr(maxDataBits, 3));
  }

  /**
   * Starting from what `setText` prepares, every symbol `create` builds
   * for a version of 1 to 40 carries as its first codewords the data
   * codewords of its stream.
   */
  lemma CreatePacksDataCodewords(kind: ModeKind, data: seq<Byte>, n: int, m: int, version: Option<int>, ecc: int)
    requires 0 <= ecc <= 3 && (version.Some? ==> 0 <= version.value <= 40)
    ensures ResultsShaped(EncodingOf(kind, data, PreparedBits(n, m), map[]))
    ensures var r := EncodingOf(kind, data, PreparedBits(n, m), map[]);
      var s := SizedOf(r, version, ecc);
      match SetTerminator(r.dataValue, s.dataCounter, s.dataBits, s.totalDataBits, s.maxDataBits)
      case Failure(_) => true
      case Success(t) => s.version.Some? && s.version.value >= 1 ==> PacksStream(t, s.dataCounter, s.maxDataBits)
  {
    var bits := PreparedBits(n, m);
    PreparedBitsFit(n, m);
    PackedFieldsFit(kind, data, bits, map[], version, ecc);
    var r := EncodingOf(kind, data, bits, map[]);
    var s := SizedOf(r, version, ecc);
    match SetTerminator(r.dataValue, s.dataCounter, s.dataBits, s.totalDataBits, s.maxDataBits)
    case Failure(_) =>
    case Success(t) =>
      if s.version.Some? && s.version.value >= 1 {
        FitPacksStream(t, s.dataCounter, s.maxDataBits);
      }
  }
}
