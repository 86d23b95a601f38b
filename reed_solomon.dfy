/**
 * The error-correction step of `Builder::create` (`prepareRsEcc`): the data
 * codewords are cut into blocks, and for each block the remainder of the
 * division by the generator polynomial is computed byte by byte with a
 * multiplication table, then appended after all data codewords (section
 * 7.5 of ISO/IEC 18004:2015). The table and the block lengths come from the
 * symbol's table files and are parameters here.
 */
module ReedSolomon {
  import opened Bits
  import opened Codewords

  // ---------------------------------------------------------------------
  // Byte strings
  // ---------------------------------------------------------------------

  function Min(a: int, b: int): int
  {
    if a < b then a else b
  }

  /** PHP `^` on two strings: byte by byte, as long as the shorter one. */
  function XorStrings(a: seq<Byte>, b: seq<Byte>): (r: seq<Byte>)
    ensures |r| == Min(|a|, |b|)
  {
    seq(Min(|a|, |b|), i requires 0 <= i < Min(|a|, |b|) => XorByte(a[i], b[i]))
  }

  /** `str_repeat(chr(0), n)`. */
  function ZeroBytes(n: nat): (z: seq<Byte>)
    ensures |z| == n && forall i :: 0 <= i < n ==> z[i] == 0
  {
    seq(n, i => 0)
  }

  /** The 256 rows of `rsEccCodewords` bytes that `getRSCalTableArray` reads. */
  predicate IsTable(table: seq<seq<Byte>>, r: nat)
  {
    |table| == 256 && forall f :: 0 <= f < 256 ==> |table[f]| == r
  }

  // ---------------------------------------------------------------------
  // The remainder of one block
  // ---------------------------------------------------------------------

  /**
   * One turn of the inner loop: the first byte is taken off; when it is not
   * 0, the table row it selects, padded with `d` zeros, is XORed into the
   * rest. An empty string reads as first byte 0 and stays empty.
   */
  function DivisionStep(t: seq<Byte>, table: seq<seq<Byte>>, d: nat): seq<Byte>
    requires |table| == 256
  {
    var first := if |t| > 0 then t[0] else 0;
    if first != 0 then XorStrings(t[1..], PaddedRow(table, first, d))
    else if |t| > 0 then t[1..]
    else []
  }

  /** `k` turns of the inner loop, the last turn outermost. */
  function DivisionSteps(t: seq<Byte>, table: seq<seq<Byte>>, d: nat, k: nat): seq<Byte>
    requires |table| == 256
    decreases k
  {
    if k == 0 then t else DivisionStep(DivisionSteps(t, table, d, k - 1), table, d)
  }

  /** What the loop leaves for one block of `d` data bytes: the data and `r` zeros, after `d` turns. */
  function Remainder(data: seq<Byte>, table: seq<seq<Byte>>, r: nat, d: nat): seq<Byte>
    requires |table| == 256
  {
    DivisionSteps(data + ZeroBytes(r), table, d, d)
  }

  /** Each turn takes exactly one byte off, as long as the string is no longer than the padded row plus one. */
  lemma {:induction false} StepsLength(t: seq<Byte>, table: seq<seq<Byte>>, r: nat, d: nat, k: nat)
    requires IsTable(table, r) && k <= |t| <= r + d + 1
    ensures |DivisionSteps(t, table, d, k)| == |t| - k
    decreases k
  {
    if k > 0 {
      StepsLength(t, table, r, d, k - 1);
    }
  }

  /** A block of `d` data bytes leaves exactly `r` bytes. */
  lemma RemainderLength(data: seq<Byte>, table: seq<seq<Byte>>, r: nat, d: nat)
    requires IsTable(table, r) && |data| == d
    ensures |Remainder(data, table, r, d)| == r
  {
    StepsLength(data + ZeroBytes(r), table, r, d, d);
  }

  predicate AllZero(s: seq<Byte>)
  {
    forall i :: 0 <= i < |s| ==> s[i] == 0
  }

  /** On zeros every turn takes the shift branch. */
  lemma {:induction false} StepsOnZeros(n: nat, table: seq<seq<Byte>>, d: nat, k: nat)
    requires |table| == 256 && k <= n
    ensures DivisionSteps(ZeroBytes(n), table, d, k) == ZeroBytes(n - k)
    decreases k
  {
    if k > 0 {
      StepsOnZeros(n, table, d, k - 1);
      assert DivisionStep(ZeroBytes(n - k + 1), table, d) == ZeroBytes(n - k);
    }
  }

  /** A block whose data bytes are all 0 gets `r` zero bytes, whatever the table. */
  lemma ZeroBlockRemainder(data: seq<Byte>, table: seq<seq<Byte>>, r: nat, d: nat)
    requires |table| == 256 && |data| == d && AllZero(data)
    ensures Remainder(data, table, r, d) == ZeroBytes(r)
  {
    assert data + ZeroBytes(r) == ZeroBytes(d + r);
    StepsOnZeros(d + r, table, d, d);
  }

  // ---------------------------------------------------------------------
  // Linearity
  // ---------------------------------------------------------------------

  /** A table that maps the XOR of two bytes to the XOR of their rows, as a GF(256) multiplication table does. */
  predicate Linear(table: seq<seq<Byte>>, r: nat)
    requires IsTable(table, r)
  {
    forall a: Byte, b: Byte, i {:trigger table[XorByte(a, b)][i]} :: 0 <= i < r ==>
      table[XorByte(a, b)][i] == XorByte(table[a][i], table[b][i])
  }

  lemma XorSwap(a: Byte, b: Byte, c: Byte, e: Byte)
    ensures XorByte(XorByte(a, b), XorByte(c, e)) == XorByte(XorByte(a, c), XorByte(b, e))
  {
    XorAssoc(a, b, Xor(c, e));
    XorAssoc(b, c, e);
    XorComm(b, c);
    XorAssoc(c, b, e);
    XorAssoc(a, c, Xor(b, e));
  }

  /** Row 0 of a linear table is zero, so the shift branch is the XOR branch with row 0. */
  lemma LinearRowZero(table: seq<seq<Byte>>, r: nat, i: int)
    requires IsTable(table, r) && Linear(table, r) && 0 <= i < r
    ensures table[0][i] == 0
  {
    XorSelf(0);
    assert table[XorByte(0, 0)][i] == XorByte(table[0][i], table[0][i]);
    XorSelf(table[0][i]);
  }

  /** A row padded with `d` zeros, as the inner loop XORs it in. */
  function PaddedRow(table: seq<seq<Byte>>, f: Byte, d: nat): seq<Byte>
    requires |table| == 256
  {
    table[f] + ZeroBytes(d)
  }

  lemma PaddedRowLinear(table: seq<seq<Byte>>, r: nat, d: nat, a: Byte, b: Byte, i: int)
    requires IsTable(table, r) && Linear(table, r) && 0 <= i < r + d
    ensures PaddedRow(table, XorByte(a, b), d)[i] == XorByte(PaddedRow(table, a, d)[i], PaddedRow(table, b, d)[i])
  {
    if i < r {
      assert table[XorByte(a, b)][i] == XorByte(table[a][i], table[b][i]);
    } else {
      XorSelf(0);
    }
  }

  /** With a linear table one turn is the XOR with the first byte's row, in both branches. */
  lemma StepUniform(t: seq<Byte>, table: seq<seq<Byte>>, r: nat, d: nat)
    requires IsTable(table, r) && Linear(table, r) && 1 <= |t| <= r + d + 1
    ensures DivisionStep(t, table, d) == XorStrings(t[1..], PaddedRow(table, t[0], d))
  {
    if t[0] == 0 {
      var x := XorStrings(t[1..], PaddedRow(table, 0, d));
      forall i | 0 <= i < |x|
        ensures x[i] == t[1..][i]
      {
        if i < r {
          LinearRowZero(table, r, i);
        }
      }
    }
  }

  /** One turn maps the byte-wise XOR of two strings to the XOR of their turns. */
  lemma StepLinear(t: seq<Byte>, u: seq<Byte>, table: seq<seq<Byte>>, r: nat, d: nat)
    requires IsTable(table, r) && Linear(table, r) && 1 <= |t| == |u| <= r + d + 1
    ensures DivisionStep(XorStrings(t, u), table, d) ==
      XorStrings(DivisionStep(t, table, d), DivisionStep(u, table, d))
  {
    var v := XorStrings(t, u);
    StepUniform(t, table, r, d);
    StepUniform(u, table, r, d);
    StepUniform(v, table, r, d);
    var zt, zu, zv := PaddedRow(table, t[0], d), PaddedRow(table, u[0], d), PaddedRow(table, v[0], d);
    var t1, u1, v1 := t[1..], u[1..], v[1..];
    forall i | 0 <= i < |v1|
      ensures v1[i] == XorByte(t1[i], u1[i])
    {
      assert v1[i] == v[i + 1];
    }
    forall i | 0 <= i < |v1|
      ensures zv[i] == XorByte(zt[i], zu[i])
    {
      PaddedRowLinear(table, r, d, t[0], u[0], i);
    }
    XorInterchange(t1, u1, zt, zu, v1, zv);
  }

  /** XOR-ing `x = a ^ b` with `y = c ^ e` is XOR-ing `a ^ c` with `b ^ e`, byte by byte. */
  lemma XorInterchange(a: seq<Byte>, b: seq<Byte>, c: seq<Byte>, e: seq<Byte>, x: seq<Byte>, y: seq<Byte>)
    requires |a| == |b| == |x| <= |c| == |e| == |y|
    requires forall i :: 0 <= i < |x| ==> x[i] == XorByte(a[i], b[i])
    requires forall i :: 0 <= i < |x| ==> y[i] == XorByte(c[i], e[i])
    ensures XorStrings(x, y) == XorStrings(XorStrings(a, c), XorStrings(b, e))
  {
    var left, right := XorStrings(x, y), XorStrings(XorStrings(a, c), XorStrings(b, e));
    assert |left| == |right| == |x|;
    forall i | 0 <= i < |x|
      ensures left[i] == right[i]
    {
      XorSwap(a[i], b[i], c[i], e[i]);
    }
  }

  lemma {:induction false} StepsLinear(t: seq<Byte>, u: seq<Byte>, table: seq<seq<Byte>>, r: nat, d: nat, k: nat)
    requires IsTable(table, r) && Linear(table, r) && k <= |t| == |u| <= r + d + 1
    ensures DivisionSteps(XorStrings(t, u), table, d, k) ==
      XorStrings(DivisionSteps(t, table, d, k), DivisionSteps(u, table, d, k))
    decreases k
  {
    if k > 0 {
      var pt, pu := DivisionSteps(t, table, d, k - 1), DivisionSteps(u, table, d, k - 1);
      StepsLinear(t, u, table, r, d, k - 1);
      StepsLength(t, table, r, d, k - 1);
      StepsLength(u, table, r, d, k - 1);
      StepLinear(pt, pu, table, r, d);
      calc {
        DivisionSteps(XorStrings(t, u), table, d, k);
        DivisionStep(DivisionSteps(XorStrings(t, u), table, d, k - 1), table, d);
        DivisionStep(XorStrings(pt, pu), table, d);
        XorStrings(DivisionStep(pt, table, d), DivisionStep(pu, table, d));
      }
    }
  }

  /**
   * With a linear table the remainder is linear in the data: the remainder
   * of the XOR of two blocks is the XOR of their remainders, as for the
   * polynomial division of section 7.5.2 of ISO/IEC 18004:2015.
   */
  lemma RemainderLinear(a: seq<Byte>, b: seq<Byte>, table: seq<seq<Byte>>, r: nat, d: nat)
    requires IsTable(table, r) && Linear(table, r) && |a| == |b| == d
    ensures Remainder(XorStrings(a, b), table, r, d) == XorStrings(Remainder(a, table, r, d), Remainder(b, table, r, d))
  {
    var pa, pb := a + ZeroBytes(r), b + ZeroBytes(r);
    forall i | 0 <= i < d + r
      ensures (XorStrings(a, b) + ZeroBytes(r))[i] == XorStrings(pa, pb)[i]
    {
      if i >= d {
        XorSelf(0);
      }
    }
    assert XorStrings(a, b) + ZeroBytes(r) == XorStrings(pa, pb);
    StepsLinear(pa, pb, table, r, d, d);
  }

  /** The inner loop for one block: `$rsTempTwo` is the data and `r` zeros, then `d` turns. */
  method EccBlock(data: seq<Byte>, table: seq<seq<Byte>>, r: nat, d: nat) returns (remainder: seq<Byte>)
    requires |table| == 256
    ensures remainder == Remainder(data, table, r, d)
  {
    var temp := data + ZeroBytes(r);
    var j := d;
    while j > 0
      invariant 0 <= j <= d
      invariant temp == DivisionSteps(data + ZeroBytes(r), table, d, d - j)
    {
      var first := if |temp| > 0 then temp[0] else 0;
      if first != 0 {
        temp := XorStrings(temp[1..], PaddedRow(table, first, d));
      } else {
        temp := if |temp| > 0 then temp[1..] else [];
      }
      j := j - 1;
    }
    remainder := temp;
  }

  // ---------------------------------------------------------------------
  // Blocks
  // ---------------------------------------------------------------------

  /** Where block `b`'s data starts: the data lengths (block length less `r`) of the blocks before it. */
  function BlockStart(order: seq<Byte>, r: nat, b: nat): int
    requires b <= |order|
  {
    if b == 0 then 0 else BlockStart(order, r, b - 1) + (order[b - 1] - r)
  }

  /** Every block carries data, and the data lengths add up to the data codewords. */
  predicate WellFormedOrder(order: seq<Byte>, r: nat, maxDataCodewords: nat)
  {
    (forall b :: 0 <= b < |order| ==> order[b] > r) && BlockStart(order, r, |order|) == maxDataCodewords
  }

  lemma {:induction false} BlockStartGrows(order: seq<Byte>, r: nat, b: nat, c: nat)
    requires (forall k :: 0 <= k < |order| ==> order[k] > r) && b <= c <= |order|
    ensures 0 <= BlockStart(order, r, b) <= BlockStart(order, r, c)
    ensures b < c ==> BlockStart(order, r, b) < BlockStart(order, r, c)
    decreases c
  {
    if c > 0 {
      BlockStartGrows(order, r, if b < c then b else c - 1, c - 1);
    }
  }

  /** `$rsCodewordsData`: the block length less `r`; a negative length pads and loops nothing, as 0 does. */
  function DataLength(order: seq<Byte>, r: nat, b: nat): nat
    requires b < |order|
  {
    if order[b] > r then order[b] - r else 0
  }

  /** The data of block `b`: the `chr` of its data codewords (a key past the array reads as 0). */
  function DataBlock(codewords: seq<nat>, order: seq<Byte>, r: nat, b: nat): (block: seq<Byte>)
    requires b < |order|
    ensures |block| == DataLength(order, r, b)
  {
    var start := BlockStart(order, r, b);
    seq<Byte>(DataLength(order, r, b), k requires 0 <= k < DataLength(order, r, b) => Chr(Get(codewords, start + k)))
  }

  /**
   * The first loop of `prepareRsEcc`: the data codewords go, as bytes, into
   * the block being filled, and a new block starts when it holds its data
   * length. The array ends with the empty block started last.
   */
  method SplitBlocks(codewords: seq<nat>, maxDataCodewords: nat, order: seq<Byte>, r: nat) returns (blocks: seq<seq<Byte>>)
    requires WellFormedOrder(order, r, maxDataCodewords) && maxDataCodewords <= |codewords|
    ensures |blocks| == |order| + 1 && blocks[|order|] == []
    ensures forall b :: 0 <= b < |order| ==> blocks[b] == DataBlock(codewords, order, r, b)
  {
    var i, j, b := 0, 0, 0;
    blocks := [[]];
    while i < maxDataCodewords
      invariant 0 <= b <= |order| && |blocks| == b + 1 && 0 <= j <= i <= maxDataCodewords
      invariant b < |order| ==> j < order[b] - r && i == BlockStart(order, r, b) + j
      invariant b == |order| ==> i == maxDataCodewords && j == 0
      invariant |blocks[b]| == j && forall k :: 0 <= k < j ==> blocks[b][k] == Chr(codewords[i - j + k])
      invariant forall k :: 0 <= k < b ==> blocks[k] == DataBlock(codewords, order, r, k)
    {
      BlockStartGrows(order, r, b + 1, |order|);
      blocks := blocks[b := blocks[b] + [Chr(codewords[i])]];
      j := j + 1;
      assert forall k :: 0 <= k < j ==> blocks[b][k] == Chr(codewords[i + 1 - j + k]);
      if j >= order[b] - r {
        ghost var block := DataBlock(codewords, order, r, b);
        forall k | 0 <= k < j
          ensures blocks[b][k] == block[k]
        {
          assert Get(codewords, i + 1 - j + k) == codewords[i + 1 - j + k];
        }
        assert blocks[b] == block;
        j := 0;
        b := b + 1;
        blocks := blocks + [[]];
      }
      i := i + 1;
    }
    if b < |order| {
      BlockStartGrows(order, r, b + 1, |order|);
    }
  }

  /** The check bytes of block `b`. */
  function BlockRemainder(codewords: seq<nat>, order: seq<Byte>, r: nat, table: seq<seq<Byte>>, b: nat): seq<Byte>
    requires |table| == 256 && b < |order|
  {
    Remainder(DataBlock(codewords, order, r, b), table, r, DataLength(order, r, b))
  }

  /** The check bytes of every block, in block order. */
  function BlockRemainders(codewords: seq<nat>, order: seq<Byte>, r: nat, table: seq<seq<Byte>>): (rems: seq<seq<Byte>>)
    requires |table| == 256
    ensures |rems| == |order|
  {
    seq(|order|, b requires 0 <= b < |order| => BlockRemainder(codewords, order, r, table, b))
  }

  /** Byte strings one after the other (`array_merge` of their bytes). */
  function Concat(parts: seq<seq<Byte>>): seq<Byte>
  {
    if parts == [] then [] else Concat(parts[..|parts| - 1]) + parts[|parts| - 1]
  }

  /** Bytes as entries of the codeword array. */
  function AsCodewords(s: seq<Byte>): (cw: seq<nat>)
    ensures |cw| == |s| && forall i :: 0 <= i < |s| ==> cw[i] == s[i]
  {
    seq(|s|, i requires 0 <= i < |s| => s[i] as nat)
  }

  lemma AsCodewordsAppend(a: seq<Byte>, b: seq<Byte>)
    ensures AsCodewords(a + b) == AsCodewords(a) + AsCodewords(b)
  {
  }

  /**
   * `prepareRsEcc`: after all entries of the codeword array (the data
   * codewords and whatever the packer left beyond them), the check bytes of
   * each block in block order.
   */
  method PrepareRsEcc(maxDataCodewords: nat, codewords: seq<nat>, order: seq<Byte>, r: nat, table: seq<seq<Byte>>)
    returns (result: seq<nat>)
    requires WellFormedOrder(order, r, maxDataCodewords) && maxDataCodewords <= |codewords| && |table| == 256
    ensures result == codewords + AsCodewords(Concat(BlockRemainders(codewords, order, r, table)))
  {
    var blocks := SplitBlocks(codewords, maxDataCodewords, order, r);
    result := codewords;
    ghost var rems: seq<seq<Byte>> := [];
    var b := 0;
    while b < |order|
      invariant 0 <= b <= |order| && |rems| == b
      invariant forall k :: 0 <= k < b ==> rems[k] == BlockRemainder(codewords, order, r, table, k)
      invariant result == codewords + AsCodewords(Concat(rems))
    {
      var rsCodewordsData := order[b] - r;
      var remainder := EccBlock(blocks[b], table, r, rsCodewordsData);
      assert remainder == BlockRemainder(codewords, order, r, table, b);
      AsCodewordsAppend(Concat(rems), remainder);
      assert (rems + [remainder])[..b] == rems;
      assert Concat(rems + [remainder]) == Concat(rems) + remainder;
      rems := rems + [remainder];
      result := result + AsCodewords(remainder);
      b := b + 1;
    }
    assert rems == BlockRemainders(codewords, order, r, table);
  }

  /** `b` times `r`, counted block by block. */
  function Times(r: nat, b: nat): nat
  {
    if b == 0 then 0 else Times(r, b - 1) + r
  }

  lemma {:induction false} TimesMonotone(r: nat, a: nat, b: nat)
    requires a <= b
    ensures Times(r, a) <= Times(r, b)
    decreases b
  {
    if a < b {
      TimesMonotone(r, a, b - 1);
    }
  }

  /** The part at position `c` of parts that all have `r` bytes. */
  function Chunk(s: seq<Byte>, r: nat, c: nat): seq<Byte>
    requires Times(r, c) + r <= |s|
  {
    s[Times(r, c)..Times(r, c) + r]
  }

  lemma {:induction false} ConcatLength(parts: seq<seq<Byte>>, r: nat)
    requires forall k :: 0 <= k < |parts| ==> |parts[k]| == r
    ensures |Concat(parts)| == Times(r, |parts|)
    decreases |parts|
  {
    if parts != [] {
      ConcatLength(parts[..|parts| - 1], r);
    }
  }

  /** Parts of `r` bytes each lie one after the other, part `c` at offset `c` times `r`. */
  lemma {:induction false} ConcatChunk(parts: seq<seq<Byte>>, r: nat, c: nat)
    requires forall k :: 0 <= k < |parts| ==> |parts[k]| == r
    requires c < |parts|
    ensures Times(r, c) + r <= |Concat(parts)| && Chunk(Concat(parts), r, c) == parts[c]
    decreases |parts|
  {
    var n := |parts|;
    var prev := parts[..n - 1];
    ConcatLength(prev, r);
    assert Concat(parts) == Concat(prev) + parts[n - 1];
    if c < n - 1 {
      ConcatChunk(prev, r, c);
      TimesMonotone(r, c + 1, n - 1);
    }
  }

  /** An entry range of the codeword array followed by bytes, taken inside the bytes. */
  lemma AppendedSlice(codewords: seq<nat>, ecc: seq<Byte>, result: seq<nat>, lo: nat, r: nat)
    requires result == codewords + AsCodewords(ecc) && lo + r <= |ecc|
    ensures result[|codewords| + lo..|codewords| + lo + r] == AsCodewords(ecc[lo..lo + r])
  {
  }

  /** The codeword array followed by parts of `r` bytes: the prefix is kept and part `b` sits at offset `b` times `r` after it. */
  lemma AppendedLayout(codewords: seq<nat>, parts: seq<seq<Byte>>, r: nat, result: seq<nat>)
    requires forall k :: 0 <= k < |parts| ==> |parts[k]| == r
    requires result == codewords + AsCodewords(Concat(parts))
    ensures |result| == |codewords| + Times(r, |parts|) && result[..|codewords|] == codewords
    ensures forall b :: 0 <= b < |parts| ==>
      Times(r, b) + r <= |result| - |codewords| &&
      result[|codewords| + Times(r, b)..|codewords| + Times(r, b) + r] == AsCodewords(parts[b])
  {
    ConcatLength(parts, r);
    var ecc := Concat(parts);
    forall b | 0 <= b < |parts|
      ensures Times(r, b) + r <= |result| - |codewords|
      ensures result[|codewords| + Times(r, b)..|codewords| + Times(r, b) + r] == AsCodewords(parts[b])
    {
      ConcatChunk(parts, r, b);
      AppendedSlice(codewords, ecc, result, Times(r, b), r);
    }
  }

  /** Every block's check bytes are `r` bytes long, and a block of zero data bytes gets zero check bytes. */
  lemma BlockRemaindersShape(codewords: seq<nat>, order: seq<Byte>, r: nat, table: seq<seq<Byte>>)
    requires IsTable(table, r)
    ensures forall b :: 0 <= b < |order| ==> |BlockRemainders(codewords, order, r, table)[b]| == r
    ensures forall b :: 0 <= b < |order| && AllZero(DataBlock(codewords, order, r, b)) ==>
      BlockRemainders(codewords, order, r, table)[b] == ZeroBytes(r)
  {
    forall b | 0 <= b < |order|
      ensures |BlockRemainder(codewords, order, r, table, b)| == r
      ensures AllZero(DataBlock(codewords, order, r, b)) ==> BlockRemainder(codewords, order, r, table, b) == ZeroBytes(r)
    {
      RemainderLength(DataBlock(codewords, order, r, b), table, r, DataLength(order, r, b));
      if AllZero(DataBlock(codewords, order, r, b)) {
        ZeroBlockRemainder(DataBlock(codewords, order, r, b), table, r, DataLength(order, r, b));
      }
    }
  }

  /**
   * The result of `prepareRsEcc` keeps the codeword array as its prefix and
   * then holds `r` check bytes per block, in block order; a block of zero
   * data bytes gets zero check bytes.
   */
  lemma PrepareRsEccMeaning(codewords: seq<nat>, order: seq<Byte>, r: nat, table: seq<seq<Byte>>, result: seq<nat>)
    requires IsTable(table, r)
    requires result == codewords + AsCodewords(Concat(BlockRemainders(codewords, order, r, table)))
    ensures |result| == |codewords| + Times(r, |order|) && result[..|codewords|] == codewords
    ensures forall b :: 0 <= b < |order| ==>
      Times(r, b) + r <= |result| - |codewords| &&
      result[|codewords| + Times(r, b)..|codewords| + Times(r, b) + r] == AsCodewords(BlockRemainders(codewords, order, r, table)[b])
    ensures forall b :: 0 <= b < |order| && AllZero(DataBlock(codewords, order, r, b)) ==>
      Times(r, b) + r <= |result| - |codewords| &&
      result[|codewords| + Times(r, b)..|codewords| + Times(r, b) + r] == AsCodewords(ZeroBytes(r))
  {
    var rems := BlockRemainders(codewords, order, r, table);
    BlockRemaindersShape(codewords, order, r, table);
    AppendedLayout(codewords, rems, r, result);
    AppendedZeros(codewords, rems, r, result);
  }

  /** A part of zero bytes shows up as zero codewords at its offset. */
  lemma AppendedZeros(codewords: seq<nat>, parts: seq<seq<Byte>>, r: nat, result: seq<nat>)
    requires forall k :: 0 <= k < |parts| ==> |parts[k]| == r
    requires result == codewords + AsCodewords(Concat(parts))
    ensures forall b :: 0 <= b < |parts| && parts[b] == ZeroBytes(r) ==>
      Times(r, b) + r <= |result| - |codewords| &&
      result[|codewords| + Times(r, b)..|codewords| + Times(r, b) + r] == AsCodewords(ZeroBytes(r))
  {
    AppendedLayout(codewords, parts, r, result);
  }
}
