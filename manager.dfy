/**
 * The older revision of the modes manager. It picks the encoder with a
 * nested conditional instead of a mode name and otherwise repeats the
 * header preparation, which it shares here with the newer manager.
 */
module Managers {
  import opened Bits
  import opened EncodeModes
  import opened ModesManagers

  class Manager {
    var data: seq<Byte>
    var structureAppendN: int
    var structureAppendM: int
    var structureAppendParity: int
    var structureAppendOriginalData: seq<Byte>
    var mode: EncodeMode?

    constructor()
      ensures data == [] && mode == null
      ensures structureAppendN == 0 && structureAppendM == 0 && structureAppendParity == 0
      ensures structureAppendOriginalData == []
    {
      data, mode := [], null;
      structureAppendN, structureAppendM, structureAppendParity := 0, 0, 0;
      structureAppendOriginalData := [];
    }

    /** Stores the text and builds a fresh encoder of its mode over the prepared widths. */
    method SetData(data: seq<Byte>)
      modifies this
      ensures this.data == data
      ensures structureAppendN == old(structureAppendN) && structureAppendM == old(structureAppendM)
      ensures structureAppendParity == old(structureAppendParity)
      ensures structureAppendOriginalData == old(structureAppendOriginalData)
      ensures mode != null && fresh(mode) && mode.Valid()
      ensures mode.kind == ManagerMode(data)
      ensures mode.data == data && mode.dataBits == PreparedBits(structureAppendN, structureAppendM)
      ensures mode.dataValue == map[] && mode.dataCounter == 0 && mode.codewordsNumCounter == 0
    {
      this.data := data;
      var m := new EncodeMode(ManagerMode(data));
      var bits, _ := PrepareDataBits(structureAppendN, structureAppendM, structureAppendParity, structureAppendOriginalData);
      m.SetDatas(data, bits);
      mode := m;
    }

    method SetStructureAppend(n: int, m: int, parity: int, originalData: seq<Byte>)
      modifies this
      ensures structureAppendN == n && structureAppendM == m
      ensures structureAppendParity == parity && structureAppendOriginalData == originalData
      ensures data == old(data) && mode == old(mode)
      ensures mode != null ==> unchanged(mode)
    {
      structureAppendN := n;
      structureAppendM := m;
      structureAppendParity := parity;
      structureAppendOriginalData := originalData;
    }

    method GetResults() returns (r: EncodingResults)
      requires mode != null && mode.Valid()
      modifies mode
      ensures mode.Valid() && mode.data == old(mode.data)
      ensures r == EncodingOf(mode.kind, old(mode.data), old(mode.dataBits), old(mode.dataValue))
    {
      r := mode.GetEncodingResults();
    }
  }

  /** Both managers hand the same text and settings to the same encoder with the same widths. */
  lemma ManagersAgree(data: seq<Byte>, n: int, m: int)
    ensures ManagerMode(data) == SwitchMode(ModeName(data))
    ensures EncodingOf(ManagerMode(data), data, PreparedBits(n, m), map[]) ==
            EncodingOf(SwitchMode(ModeName(data)), data, PreparedBits(n, m), map[])
  {
    ModeSelection(data);
  }
}
