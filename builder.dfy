/**
 * The builder: it holds the text, the version and the error-correction
 * level, and `create` runs the encoding pipeline — mode encoding, capacity
 * and version choice, terminator, codeword packing, Reed-Solomon check
 * bytes, module placement, format information and mask choice. The tables
 * the source reads from `qrv<version>_<ecc>.dat` and `rsc<n>.dat` are
 * parameters: `layouts(version, ecc)` and `rsTables(n)`.
 */
module Builders {
  import opened Bits
  import opened Results
  import opened Exceptions
  import opened EncodeModes
  import opened Codewords
  import opened Capacity
  import opened ReedSolomon
  import opened Masks
  import opened Matrix
  import opened ErrorCorrections
  import opened ModesManagers

  /** What `create` yields: the version, the module grid and the mask it is rendered with. */
  datatype Symbol = Symbol(version: nat, matrix: Grid, maskNumber: nat)

  // ---------------------------------------------------------------------
  // The steps of `create`, as functions of the encoder's results
  // ---------------------------------------------------------------------

  /** The encoder's results have the shape `create` indexes. */
  predicate ResultsShaped(r: EncodingResults)
  {
    |r.codewordNumPlus| == 41 && 0 <= r.codewordsNumCounter < |r.dataBits| && 0 <= r.dataCounter <= |r.dataBits|
  }

  /** `$dataCounter` after `create` steps past a filled slot at it. */
  function CountedSlots(r: EncodingResults): (n: nat)
    requires ResultsShaped(r)
    ensures r.dataCounter <= n <= |r.dataBits|
    ensures n > r.dataCounter <==> r.dataCounter < |r.dataBits| && r.dataBits[r.dataCounter] > 0
  {
    if r.dataCounter < |r.dataBits| && r.dataBits[r.dataCounter] > 0 then r.dataCounter + 1 else r.dataCounter
  }

  /** `getDataBitsTotal` over the counted slots. */
  function Total(r: EncodingResults): nat
    requires ResultsShaped(r)
  {
    DataBitsTotal(r.dataBits, CountedSlots(r))
  }

  /** The loop of `autoVersionAndGetMaxDataBits` over the four capacity tables. */
  function AutoFit(plus: seq<nat>, total: nat, ecc: int): (v: Option<int>)
    requires |plus| == 41 && 0 <= ecc <= 3
    ensures v.Some? ==> 1 <= v.value <= 40 && MaxDataBits(v.value, ecc) >= total + plus[v.value]
  {
    LevelsShaped();
    FirstFitIsSmallest(Levels, ecc, plus, total, 1);
    FirstFit(Levels, ecc, plus, total, 1)
  }

  /** The version recorded once `getMaxDataBits` has run: the one set, or the first that fits. */
  function ChosenVersion(r: EncodingResults, version: Option<int>, ecc: int): (v: Option<int>)
    requires ResultsShaped(r) && 0 <= ecc <= 3 && (version.Some? ==> 0 <= version.value <= 40)
    ensures v.Some? ==> 0 <= v.value <= 40
  {
    if version.Some? then version else AutoFit(r.codewordNumPlus, Total(r), ecc)
  }

  /** What `getMaxDataBits` returns: the capacity of the chosen version, 0 when none fits. */
  function MaxDataBitsFor(r: EncodingResults, version: Option<int>, ecc: int): nat
    requires ResultsShaped(r) && 0 <= ecc <= 3 && (version.Some? ==> 0 <= version.value <= 40)
  {
    match ChosenVersion(r, version, ecc)
    case Some(v) => MaxDataBits(v, ecc)
    case None => 0
  }

  /** `$codewordNumPlus[$this->getVersion()]`: with no version the lookup is null, which adds 0. */
  function PlusAt(plus: seq<nat>, version: Option<int>): nat
    requires |plus| == 41 && (version.Some? ==> 0 <= version.value <= 40)
  {
    match version
    case Some(v) => plus[v]
    case None => 0
  }

  /**
   * The version's data file and RS table have the shape of the library's
   * own files: a version of 1 to 40, a placement entry for every data
   * module, coordinates inside the side x side grid, 15 format cells inside
   * the grid, blocks that each carry data and whose data lengths add up to
   * the data codewords, and 256 table rows. Tables of any other shape are
   * rejected, even where PHP would go on and produce some symbol.
   */
  predicate TablesFit(lay: Layout, table: seq<seq<Byte>>, version: int, maxDataCodewords: nat)
    requires 0 <= version <= 40
  {
    var side, n := ModulesOneSide(version), ByteNumber(version);
    1 <= version && Covers(lay, n) && InSquare(lay, n, side) && FormatFits(lay.fiX, lay.fiY, side) &&
    WellFormedOrder(lay.order, lay.rsEccCodewords, maxDataCodewords) && |table| == 256
  }

  lemma ByteNumberPositive(version: int)
    requires 1 <= version <= 40
    ensures ByteNumber(version) > 0
  {
    assert forall v :: 1 <= v <= 40 ==> MaxCodewordsArray[v] > 0;
  }

  /** The codeword array after `prepareRsEcc`: the packed codewords, then every block's check bytes. */
  function AllCodewords(t: Terminated, n: nat, lay: Layout, table: seq<seq<Byte>>, maxDataCodewords: nat): seq<nat>
    requires |table| == 256
  {
    var cw := CodewordsOf(t.dataValue, n, t.dataBits, maxDataCodewords);
    cw + AsCodewords(Concat(BlockRemainders(cw, lay.order, lay.rsEccCodewords, table)))
  }

  /**
   * `formatInformation` and the mask `createImage` renders with: the mask
   * chosen on the placed grid selects the format word, and the mask is
   * chosen again on the grid that carries it.
   */
  function SymbolOf(content: Grid, lay: Layout, version: int, ecc: int): (s: Symbol)
    requires 1 <= version <= 40 && 0 <= ecc <= 3
    requires IsSquare(content, ModulesOneSide(version)) && FormatFits(lay.fiX, lay.fiY, ModulesOneSide(version))
    ensures s.version == version && IsSquare(s.matrix, ModulesOneSide(version)) && s.maskNumber < 8
  {
    var side, n := ModulesOneSide(version), ByteNumber(version);
    ByteNumberPositive(version);
    var mask := MaskNumberOf(content, side, n);
    FormatValueIndex(ecc, mask);
    FormatWordsShape();
    var g := Apply(content, FormatWrites(lay.fiX, lay.fiY, FormatInformationArray[FormatValue(ecc, mask)], 15));
    Symbol(version, g, MaskNumberOf(g, side, n))
  }

  /** From the terminated arrays on, for a version with a data file. */
  function Assemble(t: Terminated, n: nat, maxDataBits: nat, version: int, ecc: int, lay: Layout, table: seq<seq<Byte>>)
    : (res: Result<Symbol, BuildError>)
    requires 0 <= version <= 40 && 0 <= ecc <= 3
    ensures res.Failure? ==> res.error == MalformedTable
    ensures res.Failure? <==> !TablesFit(lay, table, version, Shr(maxDataBits, 3))
    ensures res.Success? ==> res.value.version == version && res.value.maskNumber < 8
  {
    var maxDataCodewords := Shr(maxDataBits, 3);
    if !TablesFit(lay, table, version, maxDataCodewords) then Failure(MalformedTable)
    else
      var side := ModulesOneSide(version);
      var all := AllCodewords(t, n, lay, table, maxDataCodewords);
      Success(SymbolOf(MatrixContent(all, lay, side, MaxCodewords(version), RemainBits(version)), lay, version, ecc))
  }

  /** From the terminator on: Overflow, no data file for a missing version, or the symbol. */
  function FinishOf(dataValue: map<int, nat>, n: nat, dataBits: seq<nat>, total: nat, maxDataBits: nat,
                    version: Option<int>, ecc: int, layouts: (int, int) -> Layout, rsTables: int -> seq<seq<Byte>>)
    : (res: Result<Symbol, BuildError>)
    requires n <= |dataBits| && 0 <= ecc <= 3 && (version.Some? ==> 0 <= version.value <= 40)
  {
    match SetTerminator(dataValue, n, dataBits, total, maxDataBits)
    case Failure(e) => Failure(e)
    case Success(t) =>
      match version
      case None => Failure(MalformedTable)
      case Some(v) =>
        var lay := layouts(v, ecc);
        Assemble(t, n, maxDataBits, v, ecc, lay, rsTables(lay.rsEccCodewords))
  }

  /** The arrays `create` holds once the version is fixed and the count field widened. */
  datatype Sized = Sized(dataCounter: nat, dataBits: seq<nat>, totalDataBits: nat, maxDataBits: nat, version: Option<int>)

  /**
   * Widening the count field by the chosen version's extra bits: the same
   * amount goes to the count-field slot and to the total, and every other
   * slot is left alone.
   */
  function Widened(r: EncodingResults, dataCounter: nat, total: nat, maxDataBits: nat, version: Option<int>): (s: Sized)
    requires ResultsShaped(r) && dataCounter <= |r.dataBits| && (version.Some? ==> 0 <= version.value <= 40)
    ensures s.dataCounter == dataCounter <= |s.dataBits| == |r.dataBits|
    ensures s.maxDataBits == maxDataBits && s.version == version
    ensures s.dataBits[r.codewordsNumCounter] >= r.dataBits[r.codewordsNumCounter]
    ensures s.totalDataBits + r.dataBits[r.codewordsNumCounter] == total + s.dataBits[r.codewordsNumCounter]
    ensures forall i :: 0 <= i < |r.dataBits| && i != r.codewordsNumCounter ==> s.dataBits[i] == r.dataBits[i]
  {
    var plus := PlusAt(r.codewordNumPlus, version);
    var k := r.codewordsNumCounter;
    Sized(dataCounter, r.dataBits[k := r.dataBits[k] + plus], total + plus, maxDataBits, version)
  }

  /** Counting a filled slot at the counter, choosing the version and its capacity, and widening the count field. */
  function SizedOf(r: EncodingResults, version: Option<int>, ecc: int): (s: Sized)
    requires ResultsShaped(r) && 0 <= ecc <= 3 && (version.Some? ==> 0 <= version.value <= 40)
    ensures s.dataCounter <= |s.dataBits|
    ensures s.version.Some? ==> 0 <= s.version.value <= 40
  {
    Widened(r, CountedSlots(r), Total(r), MaxDataBitsFor(r, version, ecc), ChosenVersion(r, version, ecc))
  }

  /** `create` for non-empty text, on the encoder's results `r`. */
  function Build(r: EncodingResults, version: Option<int>, ecc: int,
                 layouts: (int, int) -> Layout, rsTables: int -> seq<seq<Byte>>): (res: Result<Symbol, BuildError>)
    requires ResultsShaped(r) && 0 <= ecc <= 3 && (version.Some? ==> 0 <= version.value <= 40)
  {
    var s := SizedOf(r, version, ecc);
    FinishOf(r.dataValue, s.dataCounter, s.dataBits, s.totalDataBits, s.maxDataBits, s.version, ecc, layouts, rsTables)
  }

  // ---------------------------------------------------------------------
  // What `create` promises
  // ---------------------------------------------------------------------

  /** The encoder's results always have the shape `create` needs, and some bits to carry. */
  lemma EncodingShaped(kind: ModeKind, data: seq<Byte>, bits: seq<nat>, values: map<int, nat>)
    requires |bits| >= 1
    ensures ResultsShaped(EncodingOf(kind, data, bits, values))
    ensures Total(EncodingOf(kind, data, bits, values)) >= CountWidth(kind) > 0
  {
    var r := EncodingOf(kind, data, bits, values);
    CompleteGroupsBound(kind, data);
    assert r.dataBits[|bits|] == CountWidth(kind);
    TotalAtLeast(r.dataBits, CountedSlots(r), |bits|);
  }

  /** A sum of widths is at least each width in it. */
  lemma {:induction false} TotalAtLeast(dataBits: seq<nat>, n: nat, k: nat)
    requires k < n <= |dataBits|
    ensures DataBitsTotal(dataBits, n) >= dataBits[k]
  {
    if k < n - 1 {
      TotalAtLeast(dataBits, n - 1, k);
    }
  }

  /**
   * Overflow exactly when the bits, widened count field included, exceed
   * the capacity; the version choice and table checks never throw it.
   */
  lemma OverflowExactly(r: EncodingResults, version: Option<int>, ecc: int,
                        layouts: (int, int) -> Layout, rsTables: int -> seq<seq<Byte>>)
    requires ResultsShaped(r) && 0 <= ecc <= 3 && (version.Some? ==> 0 <= version.value <= 40)
    ensures var v := ChosenVersion(r, version, ecc);
      Build(r, version, ecc, layouts, rsTables) == Failure(Overflow) <==>
      Total(r) + PlusAt(r.codewordNumPlus, v) > MaxDataBitsFor(r, version, ecc)
  {
    var s := SizedOf(r, version, ecc);
    TerminatorMeaning(r.dataValue, s.dataCounter, s.dataBits, s.totalDataBits, s.maxDataBits);
  }

  /** A version holds the data exactly when its capacity covers the bits and its count-field widening. */
  lemma HoldsIsCapacity(plus: seq<nat>, total: nat, ecc: int, u: int)
    requires Shaped(Levels) && |plus| == 41 && 0 <= ecc <= 3 && 1 <= u <= 40
    ensures VersionHolds(Levels, ecc, plus, total, u) <==> MaxDataBits(u, ecc) >= total + plus[u]
  {
  }

  /**
   * The automatic choice is the smallest version whose capacity holds the
   * bits plus its count-field widening, and none only when no version does.
   */
  lemma AutoFitIsSmallest(plus: seq<nat>, total: nat, ecc: int)
    requires |plus| == 41 && 0 <= ecc <= 3
    ensures match AutoFit(plus, total, ecc)
      case Some(v) => forall u :: 1 <= u < v ==> MaxDataBits(u, ecc) < total + plus[u]
      case None => forall u :: 1 <= u <= 40 ==> MaxDataBits(u, ecc) < total + plus[u]
  {
    LevelsShaped();
    FirstFitIsSmallest(Levels, ecc, plus, total, 1);
    forall u | 1 <= u <= 40 {
      HoldsIsCapacity(plus, total, ecc, u);
    }
  }

  /** With no version set and no version large enough, the capacity is 0 and `create` overflows. */
  lemma NoFitOverflows(r: EncodingResults, ecc: int, layouts: (int, int) -> Layout, rsTables: int -> seq<seq<Byte>>)
    requires ResultsShaped(r) && 0 <= ecc <= 3 && Total(r) > 0
    requires AutoFit(r.codewordNumPlus, Total(r), ecc).None?
    ensures Build(r, None, ecc, layouts, rsTables) == Failure(Overflow)
  {
    OverflowExactly(r, None, ecc, layouts, rsTables);
  }

  /** Text that is set never yields DataDoesNotExists from the later steps. */
  lemma BuildNeedsNoText(r: EncodingResults, version: Option<int>, ecc: int,
                         layouts: (int, int) -> Layout, rsTables: int -> seq<seq<Byte>>)
    requires ResultsShaped(r) && 0 <= ecc <= 3 && (version.Some? ==> 0 <= version.value <= 40)
    ensures Build(r, version, ecc, layouts, rsTables) != Failure(DataDoesNotExists)
  {
    var s := SizedOf(r, version, ecc);
    TerminatorMeaning(r.dataValue, s.dataCounter, s.dataBits, s.totalDataBits, s.maxDataBits);
  }

  // ---------------------------------------------------------------------
  // Helpers of `create` that need no builder state
  // ---------------------------------------------------------------------

  /** `getMaskNumber`: a `Mask` over the grid, and its number. */
  method GetMaskNumber(matrixContent: Grid, side: nat, byteNumber: nat) returns (maskNumber: nat)
    requires IsSquare(matrixContent, side) && side > 0 && byteNumber > 0
    ensures maskNumber == MaskNumberOf(matrixContent, side, byteNumber)
  {
    var mask := new Mask(matrixContent, side, byteNumber);
    maskNumber := mask.GetNumber();
    LastMinimumUnique(mask.CurrentScores(), maskNumber);
  }

  /** `formatInformation`: the mask chosen on the grid picks the format word `(ecc << 3) | mask`. */
  method FormatInformation(matrixContent: Grid, lay: Layout, version: int, ecc: int) returns (matrix: Grid)
    requires 1 <= version <= 40 && 0 <= ecc <= 3
    requires IsSquare(matrixContent, ModulesOneSide(version)) && FormatFits(lay.fiX, lay.fiY, ModulesOneSide(version))
    ensures matrix == SymbolOf(matrixContent, lay, version, ecc).matrix
  {
    var side := ModulesOneSide(version);
    ByteNumberPositive(version);
    var maskNumber := GetMaskNumber(matrixContent, side, ByteNumber(version));
    FormatValueIndex(ecc, maskNumber);
    var value := Or(Shl(ecc, 3), maskNumber);
    matrix := WriteFormatInformation(matrixContent, side, lay.fiX, lay.fiY, value);
  }

  /** From the terminator on, as `create` runs it. */
  method Finish(dataValue: map<int, nat>, n: nat, dataBits: seq<nat>, total: nat, maxDataBits: nat,
                version: Option<int>, ecc: int, layouts: (int, int) -> Layout, rsTables: int -> seq<seq<Byte>>)
    returns (result: Result<Symbol, BuildError>)
    requires n <= |dataBits| && 0 <= ecc <= 3 && (version.Some? ==> 0 <= version.value <= 40)
    ensures result == FinishOf(dataValue, n, dataBits, total, maxDataBits, version, ecc, layouts, rsTables)
  {
    var terminated := SetTerminator(dataValue, n, dataBits, total, maxDataBits);
    if terminated.Failure? {
      return Failure(terminated.error);
    }
    if version.None? {
      return Failure(MalformedTable);
    }
    var v := version.value;
    var lay := layouts(v, ecc);
    var table := rsTables(lay.rsEccCodewords);
    var maxDataCodewords := Shr(maxDataBits, 3);
    if !TablesFit(lay, table, v, maxDataCodewords) {
      return Failure(MalformedTable);
    }
    var t := terminated.value;
    var codewords := GetCodewords(t.dataValue, n, t.dataBits, maxDataCodewords);
    CodewordsLength(t.dataValue, n, t.dataBits, maxDataCodewords);
    codewords := PrepareRsEcc(maxDataCodewords, codewords, lay.order, lay.rsEccCodewords, table);
    assert codewords == AllCodewords(t, n, lay, table, maxDataCodewords);
    var side := ModulesOneSide(v);
    var matrixContent := GetMatrixContent(codewords, lay, side, MaxCodewords(v), RemainBits(v));
    ghost var content := matrixContent;
    matrixContent := FormatInformation(matrixContent, lay, v, ecc);
    ByteNumberPositive(v);
    var maskNumber := GetMaskNumber(matrixContent, side, ByteNumber(v));
    result := Success(Symbol(v, matrixContent, maskNumber));
    assert result == Assemble(t, n, maxDataBits, v, ecc, lay, table);
  }

  // ---------------------------------------------------------------------
  // The builder object
  // ---------------------------------------------------------------------

  class Builder {
    var text: seq<Byte>
    var version: Option<int>
    const errorCorrection: ErrorCorrection
    const encodeManager: ModesManager

    /** The level is a known code, a set version is one `checkVersion` accepts, an encoder has its tables. */
    ghost predicate Valid()
      reads this, errorCorrection, encodeManager, encodeManager.mode
    {
      errorCorrection.Valid() && (version.Some? ==> CheckVersion(version.value)) &&
      (encodeManager.mode != null ==> encodeManager.mode.Valid() && |encodeManager.mode.dataBits| >= 1) &&
      (text != [] ==> encodeManager.mode != null)
    }

    /** The level code `getEccCharacter` returns. */
    function Ecc(): (ec: int)
      requires errorCorrection.Valid()
      reads errorCorrection
      ensures 0 <= ec <= 3 && ec == errorCorrection.errorCorrection
    {
      AcceptedLevelsAreTwoBitCodes(errorCorrection.errorCorrection);
      EccCharacter(Code(errorCorrection.errorCorrection))
    }

    /** No text, no version, level M, an encoder manager with no encoder yet. */
    constructor()
      ensures Valid() && fresh(errorCorrection) && fresh(encodeManager)
      ensures text == [] && version == None && errorCorrection.errorCorrection == LevelMedium
      ensures encodeManager.mode == null
    {
      text := [];
      version := None;
      encodeManager := new ModesManager();
      errorCorrection := new ErrorCorrection();
    }

    method GetText() returns (t: seq<Byte>)
      ensures t == text
    {
      t := text;
    }

    /** Stores the text and hands it to the encoder manager, which builds a fresh encoder for it. */
    method SetText(text: seq<Byte>)
      requires Valid()
      modifies this, encodeManager
      ensures Valid() && this.text == text && version == old(version)
      ensures encodeManager.data == text && fresh(encodeManager.mode)
      ensures encodeManager.structureAppendN == old(encodeManager.structureAppendN)
      ensures encodeManager.structureAppendM == old(encodeManager.structureAppendM)
      ensures encodeManager.structureAppendParity == old(encodeManager.structureAppendParity)
      ensures encodeManager.structureAppendOriginalData == old(encodeManager.structureAppendOriginalData)
      ensures encodeManager.mode.kind == SwitchMode(ModeName(text)) && encodeManager.mode.data == text
      ensures encodeManager.mode.dataBits ==
        PreparedBits(encodeManager.structureAppendN, encodeManager.structureAppendM)
      ensures encodeManager.mode.dataValue == map[]
      ensures encodeManager.mode.dataCounter == 0 && encodeManager.mode.codewordsNumCounter == 0
    {
      this.text := text;
      encodeManager.SetData(text);
    }

    method GetVersion() returns (v: Option<int>)
      ensures v == version
    {
      v := version;
    }

    /** `setVersion`: a version outside 0..40 is ignored. */
    method SetVersion(v: int)
      requires Valid()
      modifies this
      ensures Valid() && text == old(text)
      ensures version == if CheckVersion(v) then Some(v) else old(version)
    {
      if CheckVersion(v) {
        version := Some(v);
      }
    }

    method GetErrorCorrection() returns (level: int)
      requires Valid()
      ensures level == errorCorrection.errorCorrection && 0 <= level <= 3
    {
      level := errorCorrection.Get();
    }

    /** Passed on to the level holder, which ignores an unknown level. */
    method SetErrorCorrection(level: int)
      requires Valid()
      modifies errorCorrection
      ensures Valid()
      ensures errorCorrection.errorCorrection == if IsInErrorCorrections(level) then level else old(errorCorrection.errorCorrection)
    {
      errorCorrection.Set(level);
    }

    /** Passed on to the encoder manager; an encoder built earlier keeps its widths. */
    method SetStructureAppend(n: int, m: int, parity: int, originalData: seq<Byte>)
      requires Valid()
      modifies encodeManager
      ensures Valid()
      ensures encodeManager.structureAppendN == n && encodeManager.structureAppendM == m
      ensures encodeManager.structureAppendParity == parity
      ensures encodeManager.structureAppendOriginalData == originalData
      ensures encodeManager.mode == old(encodeManager.mode) && encodeManager.data == old(encodeManager.data)
    {
      encodeManager.SetStructureAppend(n, m, parity, originalData);
    }

    /** `getEccCharacter`: the level, read through the level holder. */
    method GetEccCharacter() returns (ec: int)
      requires Valid()
      ensures ec == Ecc()
    {
      var level := errorCorrection.Get();
      ec := EccCharacter(Code(level));
    }

    /**
     * `autoVersionAndGetMaxDataBits`: versions 1 to 40 of the level in
     * turn; the first whose capacity holds the bits and its count-field
     * widening is recorded and its capacity returned; 0 when none does.
     */
    method AutoVersionAndGetMaxDataBits(codewordNumPlus: seq<nat>, dataBitsTotal: nat) returns (maxDataBits: nat)
      requires Valid() && |codewordNumPlus| == 41
      modifies this
      ensures Valid() && text == old(text)
      ensures match AutoFit(codewordNumPlus, dataBitsTotal, Ecc())
        case Some(v) => version == Some(v) && maxDataBits == MaxDataBits(v, Ecc())
        case None => version == old(version) && maxDataBits == 0
    {
      LevelsShaped();
      var ecc := GetEccCharacter();
      var i := 1 + 40 * ecc;
      var j := i + 39;
      var v := 1;
      while i <= j
        invariant 1 <= v <= 41 && i == v + 40 * ecc && j == 40 + 40 * ecc
        invariant FirstFit(Levels, ecc, codewordNumPlus, dataBitsTotal, 1) == FirstFit(Levels, ecc, codewordNumPlus, dataBitsTotal, v)
        invariant version == old(version) && text == old(text)
      {
        var maxBits := MaxDataBitsByIndex(i);
        if maxBits >= dataBitsTotal + codewordNumPlus[v] {
          assert VersionHolds(Levels, ecc, codewordNumPlus, dataBitsTotal, v);
          SetVersion(v);
          return maxBits;
        }
        i, v := i + 1, v + 1;
      }
      return 0;
    }

    /** `getMaxDataBits`: the capacity of the version set, or the automatic choice when there is none. */
    method GetMaxDataBits(r: EncodingResults, dataBitsTotal: nat) returns (maxDataBits: nat)
      requires Valid() && ResultsShaped(r) && dataBitsTotal == Total(r)
      modifies this
      ensures Valid() && text == old(text)
      ensures version == ChosenVersion(r, old(version), Ecc())
      ensures maxDataBits == MaxDataBitsFor(r, old(version), Ecc())
    {
      if version.Some? {
        var ecc := GetEccCharacter();
        maxDataBits := MaxDataBitsByIndex(version.value + 40 * ecc);
      } else {
        ghost var fit := AutoFit(r.codewordNumPlus, dataBitsTotal, Ecc());
        assert ChosenVersion(r, version, Ecc()) == fit;
        maxDataBits := AutoVersionAndGetMaxDataBits(r.codewordNumPlus, dataBitsTotal);
        assert MaxDataBitsFor(r, old(version), Ecc()) == if fit.Some? then MaxDataBits(fit.value, Ecc()) else 0;
      }
    }

    /**
     * `create`, up to the image: DataDoesNotExists for empty text;
     * otherwise the encoder runs again on its current arrays, a filled
     * slot at the counter is counted, the capacity and version are fixed
     * (VersionTooLarge cannot follow, as every recorded version is at most
     * 40), the count field is widened, and the rest is `Finish`.
     */
    method Create(layouts: (int, int) -> Layout, rsTables: int -> seq<seq<Byte>>) returns (result: Result<Symbol, BuildError>)
      requires Valid()
      modifies this, encodeManager.mode
      ensures Valid() && text == old(text)
      ensures result == Failure(DataDoesNotExists) <==> old(text) == []
      ensures old(text) == [] ==> version == old(version)
      ensures old(text) != [] ==>
        var m := encodeManager.mode;
        var r := EncodingOf(m.kind, old(m.data), old(m.dataBits), old(m.dataValue));
        ResultsShaped(r) && version == ChosenVersion(r, old(version), Ecc()) &&
        result == Build(r, old(version), Ecc(), layouts, rsTables)
    {
      if |text| == 0 {
        return Failure(DataDoesNotExists);
      }
      ghost var m := encodeManager.mode;
      var r := encodeManager.GetResults();
      EncodingShaped(m.kind, old(m.data), old(m.dataBits), old(m.dataValue));
      ghost var version0 := version;
      var sized := Size(r);
      var ecc := GetEccCharacter();
      result := Finish(r.dataValue, sized.dataCounter, sized.dataBits, sized.totalDataBits, sized.maxDataBits,
                       sized.version, ecc, layouts, rsTables);
      BuildNeedsNoText(r, version0, ecc, layouts, rsTables);
    }

    /**
     * `create` between the encoder and the terminator: a filled slot at the
     * counter is counted, the capacity and version are fixed, and the
     * version's extra count bits are added to the total and to the count
     * field's slot.
     */
    method Size(r: EncodingResults) returns (sized: Sized)
      requires Valid() && ResultsShaped(r)
      modifies this
      ensures Valid() && text == old(text)
      ensures version == sized.version && sized == SizedOf(r, old(version), Ecc())
    {
      var dataCounter := r.dataCounter;
      if 0 <= dataCounter < |r.dataBits| && r.dataBits[dataCounter] > 0 {
        dataCounter := dataCounter + 1;
      }
      var totalDataBits := GetDataBitsTotal(r.dataBits, dataCounter);
      var maxDataBits := GetMaxDataBits(r, totalDataBits);
      sized := Widened(r, dataCounter, totalDataBits, maxDataBits, version);
    }
  }
}
