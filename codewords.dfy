/**
 * The packer of `getCodewords`: the (value, width) entries are written
 * big-endian into 8-bit codewords, the last partial codeword is shifted
 * left, and the free codewords are filled with 236, 17, 236, ... (sections
 * 7.4.9 and 7.4.10 of ISO/IEC 18004:2015).
 *
 * The source runs the same packing twice over one array. A pass clears each
 * codeword it moves to only while its index is below maxDataCodewords - 1,
 * so in the second pass the codeword at that index still holds its first
 * value and the new bits are shifted in below it. A pass also reads the
 * slot at index dataCounter; when no terminator was stored there, the slot
 * is empty and an input that fills the capacity exactly gets one more
 * codeword, 0, at index maxDataCodewords.
 */
module Codewords {
  import opened Bits
  import opened EncodeModes

  function Max(a: int, b: int): int
  {
    if a < b then b else a
  }

  /** A PHP array with keys 0..|cw| - 1; a missing key reads as 0. */
  function Get(cw: seq<nat>, k: int): nat
  {
    if 0 <= k < |cw| then cw[k] else 0
  }

  /** Assigning key `k` of such an array: an update, or an append of the next key. */
  function Put(cw: seq<nat>, k: int, v: nat): (r: seq<nat>)
    requires 0 <= k <= |cw|
    ensures |r| == Max(|cw|, k + 1)
    ensures forall j :: Get(r, j) == if j == k then v else Get(cw, j)
  {
    if k < |cw| then cw[k := v] else cw + [v]
  }

  /** The packer's running variables: the array, `$codewordsCounter` and `$remainingBits`. */
  datatype PackState = PackState(codewords: seq<nat>, counter: int, remainingBits: nat)

  /** The counter never runs past the keys, and a partly filled codeword exists. */
  predicate Writable(st: PackState)
  {
    0 <= st.counter <= |st.codewords| && 1 <= st.remainingBits <= 8 &&
    (st.remainingBits < 8 ==> st.counter < |st.codewords|)
  }

  /**
   * The inner loop for one entry: bits that still fit the current codeword
   * are shifted in; otherwise its high bits complete the codeword and the
   * rest, masked off, go on to the next.
   */
  function PlaceBits(st: PackState, buffer: nat, bufferBits: nat, maxDataCodewords: int): (r: PackState)
    requires Writable(st)
    ensures Writable(r)
    decreases bufferBits
  {
    if st.remainingBits > bufferBits then
      var cw, c := st.codewords, st.counter;
      PackState(Put(cw, c, Or(Shl(Get(cw, c), bufferBits), buffer)), c, st.remainingBits - bufferBits)
    else
      var bits := bufferBits - st.remainingBits;
      var next := AfterByte(st, Shr(buffer, bits), maxDataCodewords);
      if bits == 0 then next else PlaceBits(next, And(buffer, Pow2(bits) - 1), bits, maxDataCodewords)
  }

  /**
   * The current codeword completed with `hi`: the counter moves on, and the
   * next codeword is cleared only below maxDataCodewords - 1.
   */
  function AfterByte(st: PackState, hi: nat, maxDataCodewords: int): (r: PackState)
    requires Writable(st)
    ensures Writable(r)
  {
    var cw, c, rem := st.codewords, st.counter, st.remainingBits;
    var cw1 := Put(cw, c, Or(Shl(Get(cw, c), rem), hi));
    var cw2 := if c + 1 < maxDataCodewords - 1 then Put(cw1, c + 1, 0) else cw1;
    PackState(cw2, c + 1, 8)
  }

  /** One turn of the inner loop when the bits reach the end of the current codeword. */
  lemma PlaceBitsLong(st: PackState, v: nat, b: nat, rem: nat, bits: nat, hi: nat, lo: nat, maxDataCodewords: int)
    requires Writable(st) && st.remainingBits == rem && rem + bits == b && hi == Shr(v, bits) && lo == And(v, Pow2(bits) - 1)
    ensures var next := AfterByte(st, hi, maxDataCodewords);
      PlaceBits(st, v, b, maxDataCodewords) == if bits == 0 then next else PlaceBits(next, lo, bits, maxDataCodewords)
  {
    assert !(st.remainingBits > b) && b - st.remainingBits == bits;
  }

  lemma AfterByteIs(st: PackState, hi: nat, maxDataCodewords: int, cw1: seq<nat>, cw2: seq<nat>)
    requires Writable(st)
    requires cw1 == Put(st.codewords, st.counter, Or(Shl(Get(st.codewords, st.counter), st.remainingBits), hi))
    requires cw2 == if st.counter + 1 < maxDataCodewords - 1 then Put(cw1, st.counter + 1, 0) else cw1
    ensures AfterByte(st, hi, maxDataCodewords) == PackState(cw2, st.counter + 1, 8)
  {
  }

  /** Entry `i` as the packer reads it, `@$dataValue[$i]` and `@$dataBits[$i]`: a missing slot is (0, 0). */
  function EntryAt(dataValue: map<int, nat>, dataBits: seq<nat>, i: int): Field
  {
    Field(ValueOrZero(dataValue, i), if 0 <= i < |dataBits| then dataBits[i] else 0)
  }

  /** The state after the entries 0..n-1. */
  function PackEntries(st: PackState, dataValue: map<int, nat>, dataBits: seq<nat>, n: nat, maxDataCodewords: int): (r: PackState)
    requires Writable(st)
    ensures Writable(r)
  {
    if n == 0 then st
    else
      var e := EntryAt(dataValue, dataBits, n - 1);
      PlaceBits(PackEntries(st, dataValue, dataBits, n - 1, maxDataCodewords), e.value, e.width, maxDataCodewords)
  }

  /** The padding loop: the keys after `c` up to maxDataCodewords - 1 get 236 and 17 in turn. */
  function Pad(cw: seq<nat>, c: int, maxDataCodewords: int, flag: int): seq<nat>
    requires -1 <= c < |cw|
    decreases maxDataCodewords - c
  {
    if c < maxDataCodewords - 1 then
      Pad(Put(cw, c + 1, if flag == 1 then 236 else 17), c + 1, maxDataCodewords, -flag)
    else cw
  }

  /** A partial last codeword is shifted left; otherwise the counter steps back. Then the padding. */
  function FinishPass(st: PackState, maxDataCodewords: int): seq<nat>
    requires Writable(st)
  {
    var cw, c := st.codewords, st.counter;
    if st.remainingBits != 8 then
      Pad(Put(cw, c, Shl(Get(cw, c), st.remainingBits)), c, maxDataCodewords, 1)
    else
      Pad(cw, c - 1, maxDataCodewords, 1)
  }

  /** One packing pass over the array `cw`, which it starts by setting key 0 to 0. */
  function Pass(cw: seq<nat>, dataValue: map<int, nat>, dataBits: seq<nat>, dataCounter: nat, maxDataCodewords: int): seq<nat>
  {
    var st := PackState(Put(cw, 0, 0), 0, 8);
    FinishPass(PackEntries(st, dataValue, dataBits, dataCounter + 1, maxDataCodewords), maxDataCodewords)
  }

  /** The padding reaches key maxDataCodewords - 1 and drops nothing. */
  lemma {:induction false} PadLength(cw: seq<nat>, c: int, maxDataCodewords: int, flag: int)
    requires -1 <= c < |cw|
    ensures |Pad(cw, c, maxDataCodewords, flag)| >= Max(|cw|, maxDataCodewords)
    decreases maxDataCodewords - c
  {
    if c < maxDataCodewords - 1 {
      PadLength(Put(cw, c + 1, if flag == 1 then 236 else 17), c + 1, maxDataCodewords, -flag);
    }
  }

  /** The array `getCodewords` returns: two passes, the first over an empty array. */
  function CodewordsOf(dataValue: map<int, nat>, dataCounter: nat, dataBits: seq<nat>, maxDataCodewords: int): seq<nat>
  {
    var first := Pass([], dataValue, dataBits, dataCounter, maxDataCodewords);
    Pass(first, dataValue, dataBits, dataCounter, maxDataCodewords)
  }

  // ---------------------------------------------------------------------
  // What the packing means
  // ---------------------------------------------------------------------

  /** The entries 0..n-1 the packer consumes. */
  function PackedFields(dataValue: map<int, nat>, dataBits: seq<nat>, n: nat): (fs: seq<Field>)
    ensures |fs| == n && forall i :: 0 <= i < n ==> fs[i] == EntryAt(dataValue, dataBits, i)
  {
    seq(n, i requires 0 <= i < n => EntryAt(dataValue, dataBits, i))
  }

  /** A bit string completed with zeros to a whole number of bytes. */
  function Padded(s: BitString): (p: BitString)
    ensures |p| == 8 * ((|s| + 7) / 8) && p[..|s|] == s
  {
    s + Zeros((8 - |s| % 8) % 8)
  }

  /** Byte `k` of a bit string, its last byte left-aligned. */
  function ByteAt(s: BitString, k: nat): nat
    requires k < (|s| + 7) / 8
  {
    FromBits(Padded(s)[8 * k..8 * k + 8])
  }

  /** The pad codeword at distance `j` after the data: 236, 17, 236, ... */
  function PadByte(j: int): nat
  {
    if j % 2 == 0 then 236 else 17
  }

  /**
   * The data codewords the standard prescribes for the given entries: their
   * bits in big-endian bytes, the last byte completed with zeros, then the pad
   * codewords up to the capacity.
   */
  function DataCodewords(fields: seq<Field>, maxDataCodewords: nat): (r: seq<nat>)
    requires TotalWidth(fields) <= 8 * maxDataCodewords
    ensures |r| == maxDataCodewords
  {
    var s := Stream(fields);
    var n := (|s| + 7) / 8;
    seq(maxDataCodewords, k requires 0 <= k < maxDataCodewords => DataCodeword(s, k))
  }

  function DataCodeword(s: BitString, k: nat): nat
  {
    var n := (|s| + 7) / 8;
    if k < n then ByteAt(s, k) else PadByte(k - n)
  }

  /** The value a pass finds at key `k` when it moves there: only keys from maxDataCodewords - 1 on keep one. */
  function Stale(cw0: seq<nat>, k: int, maxDataCodewords: int): nat
  {
    if k >= maxDataCodewords - 1 then Get(cw0, k) else 0
  }

  // ---------------------------------------------------------------------
  // The loops of getCodewords
  // ---------------------------------------------------------------------

  /**
   * The inner loop of `getCodewords` for one entry (`$buffer`, `$bufferBits`):
   * its bits go into the current codeword, and into the next ones as each is
   * completed.
   */
  method PlaceBuffer(cw: seq<nat>, counter: int, remaining: nat, value: nat, width: nat, maxDataCodewords: int)
    returns (codewords: seq<nat>, codewordsCounter: int, remainingBits: nat)
    requires Writable(PackState(cw, counter, remaining))
    ensures PackState(codewords, codewordsCounter, remainingBits) == PlaceBits(PackState(cw, counter, remaining), value, width, maxDataCodewords)
  {
    codewords, codewordsCounter, remainingBits := cw, counter, remaining;
    var buffer: nat, bufferBits: nat := value, width;
    ghost var target := PlaceBits(PackState(cw, counter, remaining), value, width, maxDataCodewords);
    var flag := 1;
    while flag == 1
      invariant flag == 0 || flag == 1
      invariant Writable(PackState(codewords, codewordsCounter, remainingBits))
      invariant flag == 1 ==> PlaceBits(PackState(codewords, codewordsCounter, remainingBits), buffer, bufferBits, maxDataCodewords) == target
      invariant flag == 0 ==> PackState(codewords, codewordsCounter, remainingBits) == target
      decreases bufferBits + flag
    {
      if remainingBits > bufferBits {
        codewords := Put(codewords, codewordsCounter, Or(Shl(Get(codewords, codewordsCounter), bufferBits), buffer));
        remainingBits := remainingBits - bufferBits;
        flag := 0;
      } else {
        codewords, codewordsCounter, remainingBits, buffer, bufferBits, flag :=
          CompleteCodeword(codewords, codewordsCounter, remainingBits, buffer, bufferBits, maxDataCodewords);
      }
    }
  }

  /**
   * The `else` branch of the loop in `PlaceBuffer`: the high bits of the
   * buffer complete the current codeword, the next one is zeroed when it is
   * below maxDataCodewords - 1, and the loop stops when no bits are left.
   */
  method CompleteCodeword(cw: seq<nat>, counter: int, remaining: nat, buffer: nat, bufferBits: nat, maxDataCodewords: int)
    returns (codewords: seq<nat>, codewordsCounter: int, remainingBits: nat, rest: nat, restBits: nat, flag: int)
    requires Writable(PackState(cw, counter, remaining)) && remaining <= bufferBits
    ensures Writable(PackState(codewords, codewordsCounter, remainingBits)) && restBits < bufferBits
    ensures flag == 0 ==>
      PackState(codewords, codewordsCounter, remainingBits) == PlaceBits(PackState(cw, counter, remaining), buffer, bufferBits, maxDataCodewords)
    ensures flag == 1 ==>
      PlaceBits(PackState(codewords, codewordsCounter, remainingBits), rest, restBits, maxDataCodewords) ==
      PlaceBits(PackState(cw, counter, remaining), buffer, bufferBits, maxDataCodewords)
    ensures flag == 0 || flag == 1
  {
    ghost var st := PackState(cw, counter, remaining);
    restBits := bufferBits - remaining;
    codewords := Put(cw, counter, Or(Shl(Get(cw, counter), remaining), Shr(buffer, restBits)));
    ghost var cw1 := codewords;
    PlaceBitsLong(st, buffer, bufferBits, remaining, restBits, Shr(buffer, restBits), And(buffer, Pow2(restBits) - 1), maxDataCodewords);
    if restBits == 0 {
      rest := buffer;
      flag := 0;
    } else {
      rest := And(buffer, Pow2(restBits) - 1);
      flag := 1;
    }
    codewordsCounter := counter + 1;
    if codewordsCounter < maxDataCodewords - 1 {
      codewords := Put(codewords, codewordsCounter, 0);
    }
    remainingBits := 8;
    AfterByteIs(st, Shr(buffer, restBits), maxDataCodewords, cw1, codewords);
  }

  /** The padding loop of `getCodewords`: from key `counter` + 1 on, 236 and 17 in turn up to maxDataCodewords - 1. */
  method AddPadding(cw: seq<nat>, counter: int, maxDataCodewords: int) returns (codewords: seq<nat>)
    requires -1 <= counter < |cw|
    ensures codewords == Pad(cw, counter, maxDataCodewords, 1)
  {
    codewords := cw;
    var codewordsCounter := counter;
    if codewordsCounter < maxDataCodewords - 1 {
      var flag := 1;
      while codewordsCounter < maxDataCodewords - 1
        invariant -1 <= codewordsCounter < |codewords|
        invariant Pad(codewords, codewordsCounter, maxDataCodewords, flag) == Pad(cw, counter, maxDataCodewords, 1)
        decreases maxDataCodewords - codewordsCounter
      {
        codewordsCounter := codewordsCounter + 1;
        codewords := Put(codewords, codewordsCounter, if flag == 1 then 236 else 17);
        flag := flag * -1;
      }
    }
  }

  /**
   * One pass of `getCodewords` over the array `cw`: the entries 0..dataCounter
   * are divided into codewords, the last partial codeword shifted left, and
   * the free codewords padded.
   */
  method DivideAndPad(cw: seq<nat>, dataValue: map<int, nat>, dataBits: seq<nat>, dataCounter: nat, maxDataCodewords: int)
    returns (codewords: seq<nat>)
    ensures codewords == Pass(cw, dataValue, dataBits, dataCounter, maxDataCodewords)
  {
    var codewordsCounter, remainingBits;
    codewords, codewordsCounter, remainingBits := DivideEntries(cw, dataValue, dataBits, dataCounter, maxDataCodewords);
    codewords := FinishCodewords(codewords, codewordsCounter, remainingBits, maxDataCodewords);
  }

  /** The dividing loop of a pass: key 0 set to 0, then the entries 0..dataCounter placed in turn. */
  method DivideEntries(cw: seq<nat>, dataValue: map<int, nat>, dataBits: seq<nat>, dataCounter: nat, maxDataCodewords: int)
    returns (codewords: seq<nat>, codewordsCounter: int, remainingBits: nat)
    ensures PackState(codewords, codewordsCounter, remainingBits) ==
      PackEntries(PackState(Put(cw, 0, 0), 0, 8), dataValue, dataBits, dataCounter + 1, maxDataCodewords)
  {
    codewords := Put(cw, 0, 0);
    codewordsCounter, remainingBits := 0, 8;
    ghost var st0 := PackState(codewords, 0, 8);
    var i := 0;
    while i <= dataCounter
      invariant 0 <= i <= dataCounter + 1
      invariant Writable(PackState(codewords, codewordsCounter, remainingBits))
      invariant PackState(codewords, codewordsCounter, remainingBits) == PackEntries(st0, dataValue, dataBits, i, maxDataCodewords)
    {
      var buffer, bufferBits := ValueOrZero(dataValue, i), if i < |dataBits| then dataBits[i] else 0;
      ghost var before := PackEntries(st0, dataValue, dataBits, i, maxDataCodewords);
      assert EntryAt(dataValue, dataBits, i) == Field(buffer, bufferBits);
      assert PackEntries(st0, dataValue, dataBits, i + 1, maxDataCodewords) == PlaceBits(before, buffer, bufferBits, maxDataCodewords);
      codewords, codewordsCounter, remainingBits := PlaceBuffer(codewords, codewordsCounter, remainingBits, buffer, bufferBits, maxDataCodewords);
      i := i + 1;
    }
  }

  /** The end of a pass: the partial codeword shifted left, or the counter stepped back, then the padding. */
  method FinishCodewords(cw: seq<nat>, counter: int, remainingBits: nat, maxDataCodewords: int) returns (codewords: seq<nat>)
    requires Writable(PackState(cw, counter, remainingBits))
    ensures codewords == FinishPass(PackState(cw, counter, remainingBits), maxDataCodewords)
  {
    codewords := cw;
    var codewordsCounter := counter;
    if remainingBits != 8 {
      codewords := Put(codewords, codewordsCounter, Shl(Get(codewords, codewordsCounter), remainingBits));
    } else {
      codewordsCounter := codewordsCounter - 1;
    }
    codewords := AddPadding(codewords, codewordsCounter, maxDataCodewords);
  }

  /** `getCodewords`: the same pass run twice, the first over an empty array. */
  method GetCodewords(dataValue: map<int, nat>, dataCounter: nat, dataBits: seq<nat>, maxDataCodewords: int)
    returns (codewords: seq<nat>)
    ensures codewords == CodewordsOf(dataValue, dataCounter, dataBits, maxDataCodewords)
  {
    codewords := DivideAndPad([], dataValue, dataBits, dataCounter, maxDataCodewords);
    codewords := DivideAndPad(codewords, dataValue, dataBits, dataCounter, maxDataCodewords);
  }

  /** Whatever the entries, `getCodewords` leaves at least the maxDataCodewords keys `prepareRsEcc` reads. */
  lemma CodewordsLength(dataValue: map<int, nat>, dataCounter: nat, dataBits: seq<nat>, maxDataCodewords: int)
    ensures |CodewordsOf(dataValue, dataCounter, dataBits, maxDataCodewords)| >= maxDataCodewords
  {
    var first := Pass([], dataValue, dataBits, dataCounter, maxDataCodewords);
    PassLength(first, dataValue, dataBits, dataCounter, maxDataCodewords);
  }

  lemma PassLength(cw: seq<nat>, dataValue: map<int, nat>, dataBits: seq<nat>, dataCounter: nat, maxDataCodewords: int)
    ensures |Pass(cw, dataValue, dataBits, dataCounter, maxDataCodewords)| >= maxDataCodewords
  {
    var st := PackEntries(PackState(Put(cw, 0, 0), 0, 8), dataValue, dataBits, dataCounter + 1, maxDataCodewords);
    if st.remainingBits != 8 {
      PadLength(Put(st.codewords, st.counter, Shl(Get(st.codewords, st.counter), st.remainingBits)), st.counter, maxDataCodewords, 1);
    } else {
      PadLength(st.codewords, st.counter - 1, maxDataCodewords, 1);
    }
  }
}
