/**
 * What one packing pass computes: the packer keeps the invariant of module
 * Packing entry by entry, and the end of the pass turns it into the data
 * codewords of sections 7.4.9 and 7.4.10 of ISO/IEC 18004:2015.
 */
module PackingProof {
  import opened Bits
  import opened EncodeModes
  import opened Codewords
  import opened Packing

  /** Running the inner loop on the array acts on its numbers as `Append` says. */
  lemma {:induction false} ArrayPlace(st: PackState, cw0: seq<nat>, p: Packed, v: nat, b: nat, maxDataCodewords: int)
    requires Writable(st) && ArrayHolds(st, cw0, p, maxDataCodewords) && v < Pow2(b)
    ensures ArrayHolds(PlaceBits(st, v, b, maxDataCodewords), cw0, Append(p, v, b), maxDataCodewords)
    decreases b
  {
    var rem := 8 - p.length;
    if rem > b {
      ArrayShort(st, cw0, p, v, b, maxDataCodewords);
      AppendShort(p, v, b);
    } else {
      var bits := b - rem;
      var hi, lo := Shr(v, bits), And(v, Pow2(bits) - 1);
      var next, q := ArrayLong(st, cw0, p, v, b, rem, bits, hi, lo, maxDataCodewords);
      if bits == 0 {
        ArrayHoldsEq(next, PlaceBits(st, v, b, maxDataCodewords), cw0, q, Append(p, v, b), maxDataCodewords);
      } else {
        ArrayPlace(next, cw0, q, lo, bits, maxDataCodewords);
        ArrayHoldsEq(PlaceBits(next, lo, bits, maxDataCodewords), PlaceBits(st, v, b, maxDataCodewords), cw0,
                     Append(q, lo, bits), Append(p, v, b), maxDataCodewords);
      }
    }
  }

  /** Placing an entry that fits its width appends its bits to the packed stream. */
  lemma PlaceHolds(st: PackState, cw0: seq<nat>, s: BitString, v: nat, b: nat, maxDataCodewords: int)
    requires Writable(st) && ArrayHolds(st, cw0, Summary(s), maxDataCodewords) && v < Pow2(b)
    ensures ArrayHolds(PlaceBits(st, v, b, maxDataCodewords), cw0, Summary(s + ToBits(v, b)), maxDataCodewords)
  {
    ArrayPlace(st, cw0, Summary(s), v, b, maxDataCodewords);
    BitsPlace(s, v, b);
  }

  /** After the entries 0..n-1 the pass holds their stream. */
  lemma {:induction false} PackHolds(cw0: seq<nat>, dataValue: map<int, nat>, dataBits: seq<nat>, n: nat, maxDataCodewords: int)
    requires |cw0| >= 1 && cw0[0] == 0 && Fits(PackedFields(dataValue, dataBits, n))
    ensures ArrayHolds(PackEntries(PackState(cw0, 0, 8), dataValue, dataBits, n, maxDataCodewords), cw0,
                       Summary(Stream(PackedFields(dataValue, dataBits, n))), maxDataCodewords)
    decreases n
  {
    var st0 := PackState(cw0, 0, 8);
    var fs := PackedFields(dataValue, dataBits, n);
    if n == 0 {
      assert Stream(fs) == [];
      assert Bytes([]) == [];
    } else {
      var fs' := PackedFields(dataValue, dataBits, n - 1);
      assert fs[..n - 1] == fs';
      assert Fits(fs') by {
        forall i | 0 <= i < n - 1
          ensures fs'[i].value < Pow2(fs'[i].width)
        {
          assert fs'[i] == fs[i];
        }
      }
      PackHolds(cw0, dataValue, dataBits, n - 1, maxDataCodewords);
      var e := EntryAt(dataValue, dataBits, n - 1);
      assert fs[n - 1] == e;
      PlaceHolds(PackEntries(st0, dataValue, dataBits, n - 1, maxDataCodewords), cw0, Stream(fs'), e.value, e.width, maxDataCodewords);
      assert Stream(fs) == Stream(fs') + ToBits(e.value, e.width);
    }
  }

  /**
   * What a pass leaves in the array `res`, given the stream `s` of its
   * entries and the array `cw0` it started from: below the capacity the data
   * codewords, each key that held a complete byte before under the stale
   * value of that key; from the capacity on the keys of `cw0`.
   */
  ghost predicate PassResult(res: seq<nat>, len: int, cw0: seq<nat>, s: BitString, maxDataCodewords: int)
  {
    var n := (|s| + 7) / 8;
    |res| == Max(len, maxDataCodewords) &&
    (forall k :: 0 <= k < maxDataCodewords ==>
       Get(res, k) == (if k < n then Stale(cw0, k, maxDataCodewords) * 256 else 0) + DataCodeword(s, k)) &&
    (forall k :: k >= maxDataCodewords ==> Get(res, k) == Get(cw0, k))
  }

  /** The end of a pass whose stream fills whole codewords. */
  lemma FinishWhole(st: PackState, cw0: seq<nat>, s: BitString, p: Packed, maxDataCodewords: int)
    requires Writable(st) && p == Summary(s) && ArrayHolds(st, cw0, p, maxDataCodewords)
    requires |s| <= 8 * maxDataCodewords && |s| % 8 == 0
    ensures PassResult(FinishPass(st, maxDataCodewords), |st.codewords|, cw0, s, maxDataCodewords)
  {
    var c := |s| / 8;
    SummaryFields(s, p);
    assert Partial(s) == 0 by { assert s[8 * c..] == []; }
    FinishArrayWhole(st, cw0, p, maxDataCodewords);
    var res := FinishPass(st, maxDataCodewords);
    forall k | 0 <= k < maxDataCodewords
      ensures Get(res, k) == (if k < c then Stale(cw0, k, maxDataCodewords) * 256 else 0) + DataCodeword(s, k)
    {
      if k < c {
        CodewordOfByte(s, k);
      }
    }
  }

  /** The end of a pass whose stream ends inside a codeword. */
  lemma FinishPartial(st: PackState, cw0: seq<nat>, s: BitString, p: Packed, maxDataCodewords: int)
    requires Writable(st) && p == Summary(s) && ArrayHolds(st, cw0, p, maxDataCodewords)
    requires |s| <= 8 * maxDataCodewords && |s| % 8 != 0
    ensures PassResult(FinishPass(st, maxDataCodewords), |st.codewords|, cw0, s, maxDataCodewords)
  {
    var c := |s| / 8;
    SummaryFields(s, p);
    FinishArrayPartial(st, cw0, p, maxDataCodewords);
    CodewordOfPartial(s);
    var res := FinishPass(st, maxDataCodewords);
    var n := (|s| + 7) / 8;
    forall k | 0 <= k < maxDataCodewords
      ensures Get(res, k) == (if k < n then Stale(cw0, k, maxDataCodewords) * 256 else 0) + DataCodeword(s, k)
    {
      if k < c {
        CodewordOfByte(s, k);
      } else if k > c {
        assert DataCodeword(s, k) == PadByte(k - n);
      }
    }
  }

  /** The end of a pass: the data codewords and the pad codewords. */
  lemma FinishMeaning(st: PackState, cw0: seq<nat>, s: BitString, maxDataCodewords: int)
    requires Writable(st) && ArrayHolds(st, cw0, Summary(s), maxDataCodewords) && |s| <= 8 * maxDataCodewords
    ensures PassResult(FinishPass(st, maxDataCodewords), |st.codewords|, cw0, s, maxDataCodewords)
  {
    if |s| % 8 == 0 {
      FinishWhole(st, cw0, s, Summary(s), maxDataCodewords);
    } else {
      FinishPartial(st, cw0, s, Summary(s), maxDataCodewords);
    }
  }

  /**
   * One pass over `cwIn`: below the capacity it yields the prescribed data
   * codewords, each under the stale value of its key; the keys from the
   * capacity on keep their values, and the array grows past the capacity
   * only when the entries fill it exactly.
   */
  lemma PassMeaning(cwIn: seq<nat>, dataValue: map<int, nat>, dataBits: seq<nat>, dataCounter: nat, maxDataCodewords: nat)
    requires Fits(PackedFields(dataValue, dataBits, dataCounter + 1))
    requires TotalWidth(PackedFields(dataValue, dataBits, dataCounter + 1)) <= 8 * maxDataCodewords
    ensures var fs := PackedFields(dataValue, dataBits, dataCounter + 1);
      var cw0, r := Put(cwIn, 0, 0), Pass(cwIn, dataValue, dataBits, dataCounter, maxDataCodewords);
      var e, n := DataCodewords(fs, maxDataCodewords), (TotalWidth(fs) + 7) / 8;
      Max(|cw0|, maxDataCodewords) <= |r| <= Max(|cw0|, maxDataCodewords + 1) &&
      (|r| > Max(|cw0|, maxDataCodewords) ==> TotalWidth(fs) == 8 * maxDataCodewords) &&
      (forall k :: 0 <= k < maxDataCodewords ==> Get(r, k) == (if k < n then Stale(cw0, k, maxDataCodewords) * 256 else 0) + e[k]) &&
      (forall k :: k >= maxDataCodewords ==> Get(r, k) == Get(cw0, k))
  {
    var fs := PackedFields(dataValue, dataBits, dataCounter + 1);
    var cw0 := Put(cwIn, 0, 0);
    var s := Stream(fs);
    PackHolds(cw0, dataValue, dataBits, dataCounter + 1, maxDataCodewords);
    var st := PackEntries(PackState(cw0, 0, 8), dataValue, dataBits, dataCounter + 1, maxDataCodewords);
    FinishMeaning(st, cw0, s, maxDataCodewords);
  }

  /** The entries 0..n are the entries 0..n-1 followed by entry n. */
  lemma PackedFieldsSnoc(dataValue: map<int, nat>, dataBits: seq<nat>, n: nat)
    ensures var fs, fs' := PackedFields(dataValue, dataBits, n + 1), PackedFields(dataValue, dataBits, n);
      var e := EntryAt(dataValue, dataBits, n);
      fs[..n] == fs' && fs[n] == e &&
      TotalWidth(fs) == TotalWidth(fs') + e.width && Stream(fs) == Stream(fs') + ToBits(e.value, e.width) &&
      (Fits(fs) ==> Fits(fs'))
  {
    var fs, fs' := PackedFields(dataValue, dataBits, n + 1), PackedFields(dataValue, dataBits, n);
    assert fs[..n] == fs';
    if Fits(fs) {
      forall i | 0 <= i < n
        ensures fs'[i].value < Pow2(fs'[i].width)
      {
        assert fs'[i] == fs[i];
      }
    }
  }

  /** Every data codeword is a byte. */
  lemma DataCodewordIsByte(s: BitString, k: nat)
    ensures DataCodeword(s, k) < 256
  {
    assert Pow2(8) == 256 by {
      assert Pow2(4) == 16 by { assert Pow2(2) == 4; }
    }
  }

  lemma LowByte(x: nat)
    requires x < 256
    ensures (257 * x) % 256 == x && x % 256 == x
  {
    DivModUnique(257 * x, 256, x, x);
  }

  /**
   * The second pass over the first pass's codewords: only key
   * maxDataCodewords - 1 (when it is not key 0) keeps its old value, which
   * then sits 256 times over the new one.
   */
  lemma SecondPassValues(first: seq<nat>, r: seq<nat>, e: seq<nat>, n: int, m: nat)
    requires |e| == m <= |r| && forall k :: 0 <= k < m ==> e[k] < 256 && Get(first, k) == e[k]
    requires forall k :: 0 <= k < m ==> Get(r, k) == (if k < n then Stale(Put(first, 0, 0), k, m) * 256 else 0) + e[k]
    ensures forall k :: 0 <= k < m ==> r[k] == (if 1 <= k == m - 1 && k < n then 257 * e[k] else e[k]) && r[k] % 256 == e[k]
  {
    forall k | 0 <= k < m
      ensures r[k] == (if 1 <= k == m - 1 && k < n then 257 * e[k] else e[k]) && r[k] % 256 == e[k]
    {
      LowByte(e[k]);
      assert Get(r, k) == r[k];
      if 1 <= k == m - 1 {
        assert Get(Put(first, 0, 0), k) == Get(first, k);
      }
    }
  }

  /**
   * What `getCodewords` returns: below maxDataCodewords the data codewords
   * of the entries 0..dataCounter, the one at maxDataCodewords - 1 with its
   * first-pass value repeated above its low byte when the data reaches it;
   * from maxDataCodewords on at most one more codeword, 0, and only when the
   * entries fill the capacity exactly.
   */
  lemma CodewordsMeaning(dataValue: map<int, nat>, dataBits: seq<nat>, dataCounter: nat, maxDataCodewords: nat)
    requires Fits(PackedFields(dataValue, dataBits, dataCounter + 1))
    requires TotalWidth(PackedFields(dataValue, dataBits, dataCounter + 1)) <= 8 * maxDataCodewords
    ensures var fs := PackedFields(dataValue, dataBits, dataCounter + 1);
      var r, e := CodewordsOf(dataValue, dataCounter, dataBits, maxDataCodewords), DataCodewords(fs, maxDataCodewords);
      var n, m := (TotalWidth(fs) + 7) / 8, maxDataCodewords;
      Max(1, m) <= |r| <= Max(1, m + 1) && (|r| > Max(1, m) ==> TotalWidth(fs) == 8 * m) &&
      (forall k :: 0 <= k < m ==> r[k] == if 1 <= k == m - 1 && k < n then 257 * e[k] else e[k]) &&
      (forall k :: 0 <= k < m ==> r[k] % 256 == e[k]) &&
      (forall k :: m <= k < |r| ==> r[k] == 0)
  {
    var fs := PackedFields(dataValue, dataBits, dataCounter + 1);
    var e, n, m := DataCodewords(fs, maxDataCodewords), (TotalWidth(fs) + 7) / 8, maxDataCodewords;
    var first := Pass([], dataValue, dataBits, dataCounter, m);
    var r := Pass(first, dataValue, dataBits, dataCounter, m);
    PassMeaning([], dataValue, dataBits, dataCounter, m);
    PassMeaning(first, dataValue, dataBits, dataCounter, m);
    var cw0, cw1 := Put([], 0, 0), Put(first, 0, 0);
    assert forall k :: Get(cw0, k) == 0;
    forall k | 0 <= k < m
      ensures e[k] < 256 && Get(first, k) == e[k]
    {
      DataCodewordIsByte(Stream(fs), k);
    }
    SecondPassValues(first, r, e, n, m);
    forall k | m <= k < |r|
      ensures r[k] == 0
    {
      assert Get(r, k) == r[k];
    }
  }

  /**
   * A pass over entries that fill the capacity exactly, the last of them of
   * width 0, writes key maxDataCodewords.
   */
  lemma PassGrows(cwIn: seq<nat>, dataValue: map<int, nat>, dataBits: seq<nat>, dataCounter: nat, maxDataCodewords: nat)
    requires Fits(PackedFields(dataValue, dataBits, dataCounter + 1)) && maxDataCodewords >= 1
    requires TotalWidth(PackedFields(dataValue, dataBits, dataCounter + 1)) == 8 * maxDataCodewords
    requires EntryAt(dataValue, dataBits, dataCounter).width == 0
    ensures |Pass(cwIn, dataValue, dataBits, dataCounter, maxDataCodewords)| > maxDataCodewords
  {
    var m := maxDataCodewords;
    var cw0 := Put(cwIn, 0, 0);
    var st0 := PackState(cw0, 0, 8);
    PackedFieldsSnoc(dataValue, dataBits, dataCounter);
    var s := Stream(PackedFields(dataValue, dataBits, dataCounter));
    PackHolds(cw0, dataValue, dataBits, dataCounter, m);
    SummaryFields(s, Summary(s));
    var st := PackEntries(st0, dataValue, dataBits, dataCounter, m);
    assert st.counter == m && st.remainingBits == 8;
    var e := EntryAt(dataValue, dataBits, dataCounter);
    var st' := PlaceBits(st, e.value, e.width, m);
    assert |st'.codewords| > m;
  }

  /**
   * Entries that fill the capacity exactly, with nothing after them but an
   * empty slot, leave one more codeword, 0, at key maxDataCodewords.
   */
  lemma ExactFillExtraCodeword(dataValue: map<int, nat>, dataBits: seq<nat>, dataCounter: nat, maxDataCodewords: nat)
    requires Fits(PackedFields(dataValue, dataBits, dataCounter + 1)) && maxDataCodewords >= 1
    requires TotalWidth(PackedFields(dataValue, dataBits, dataCounter + 1)) == 8 * maxDataCodewords
    requires EntryAt(dataValue, dataBits, dataCounter).width == 0
    ensures var r := CodewordsOf(dataValue, dataCounter, dataBits, maxDataCodewords);
      |r| == maxDataCodewords + 1 && r[maxDataCodewords] == 0
  {
    var first := Pass([], dataValue, dataBits, dataCounter, maxDataCodewords);
    PassGrows(first, dataValue, dataBits, dataCounter, maxDataCodewords);
    CodewordsMeaning(dataValue, dataBits, dataCounter, maxDataCodewords);
  }
}
