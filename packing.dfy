/**
 * The invariant of the packer of `getCodewords`, in two halves: what the
 * array holds, in numbers (the complete bytes, the partial byte and its
 * length), and how those numbers follow from the bit stream.
 */
module Packing {
  import opened Bits
  import opened Codewords

  /** The complete bytes of a bit string. */
  function Bytes(s: BitString): seq<nat>
  {
    seq(|s| / 8, k requires 0 <= k < |s| / 8 => FromBits(s[8 * k..8 * k + 8]))
  }

  /** The bits after the last complete byte, as a number. */
  function Partial(s: BitString): nat
  {
    FromBits(s[8 * (|s| / 8)..])
  }

  /** A bit stream in numbers: its complete bytes, and the value and length of the partial byte. */
  datatype Packed = Packed(bytes: seq<nat>, partial: nat, length: nat)

  function Summary(s: BitString): Packed
  {
    Packed(Bytes(s), Partial(s), |s| % 8)
  }

  /**
   * The effect on those numbers of appending the `b` low bits of `v`, in the
   * packer's own steps: shift into the partial byte, or complete it with the
   * high bits and go on with the rest.
   */
  function Append(p: Packed, v: nat, b: nat): Packed
    requires p.length < 8
    decreases b
  {
    var rem := 8 - p.length;
    if rem > b then Packed(p.bytes, Shl(p.partial, b) + v, p.length + b)
    else
      var bits := b - rem;
      var next := Packed(p.bytes + [Shl(p.partial, rem) + Shr(v, bits)], 0, 0);
      if bits == 0 then next else Append(next, And(v, Pow2(bits) - 1), bits)
  }

  /**
   * The packer's state in numbers: the complete codewords hold `p.bytes`
   * under the stale value of their key, the current one holds the partial
   * byte under its stale value, and later keys are untouched.
   */
  ghost predicate ArrayHolds(st: PackState, cw0: seq<nat>, p: Packed, maxDataCodewords: int)
  {
    var c := |p.bytes|;
    st.counter == c && p.length < 8 && st.remainingBits == 8 - p.length &&
    |cw0| <= |st.codewords| <= Max(|cw0|, c + 1) &&
    (forall k :: 0 <= k < c ==> Get(st.codewords, k) == Stale(cw0, k, maxDataCodewords) * 256 + p.bytes[k]) &&
    Get(st.codewords, c) == Shl(Stale(cw0, c, maxDataCodewords), p.length) + p.partial &&
    (forall k :: k > c ==> Get(st.codewords, k) == Get(cw0, k))
  }

  lemma DivBound(v: nat, p: nat, q: nat)
    requires q > 0 && v < p * q
    ensures v / q < p
  {
    var d := v / q;
    if d >= p {
      assert false;
    }
  }

  lemma AppendAssoc(s: BitString, x: BitString, y: BitString)
    ensures s + x + y == s + (x + y)
  {
  }

  lemma ModSmall(v: nat, p: nat)
    requires v < p
    ensures v % p == v
  {
    DivModUnique(v, p, 0, v);
  }

  lemma {:induction false} ShiftSum(stale: nat, r: nat, f: nat, b: nat)
    ensures Shl(Shl(stale, r) + f, b) == Shl(stale, r + b) + Shl(f, b)
    decreases b
  {
    if b > 0 {
      ShiftSum(stale, r, f, b - 1);
    }
  }

  lemma Shl8(x: nat)
    ensures Shl(x, 8) == x * 256
  {
    ShlMul(x, 8);
    assert Pow2(8) == 256;
  }

  /** Shifting `b` more bits into a codeword that holds `stale` above the bits `f` of length `r`. */
  lemma ShiftIn(prev: nat, stale: nat, r: nat, f: nat, v: nat, b: nat)
    requires prev == Shl(stale, r) + f && v < Pow2(b)
    ensures Or(Shl(prev, b), v) == Shl(stale, r + b) + (Shl(f, b) + v)
  {
    ShlOr(prev, b, v);
    ShiftSum(stale, r, f, b);
  }

  /** Appending the `b` bits of a value below 2^b to a bit string. */
  lemma AppendValue(x: BitString, v: nat, b: nat)
    requires v < Pow2(b)
    ensures FromBits(x + ToBits(v, b)) == Shl(FromBits(x), b) + v
  {
    FromBitsAppend(x, ToBits(v, b));
    FromBitsToBits(v, b);
    ModSmall(v, Pow2(b));
    ShlMul(FromBits(x), b);
  }

  /** Complete codewords before `c` are not affected by bits appended after them. */
  lemma EarlierBytes(s: BitString, x: BitString, c: nat)
    requires 8 * c <= |s|
    ensures forall k :: 0 <= k < c ==> (s + x)[8 * k..8 * k + 8] == s[8 * k..8 * k + 8]
  {
    forall k | 0 <= k < c
      ensures (s + x)[8 * k..8 * k + 8] == s[8 * k..8 * k + 8]
    {
      assert 8 * k + 8 <= 8 * c by { MulMonotone8(k + 1, c); }
    }
  }

  lemma MulMonotone8(a: nat, b: nat)
    requires a <= b
    ensures 8 * a <= 8 * b
  {
  }

  /** A value of `b` bits splits into its `rem` high bits and the rest, as the packer's shift and mask do. */
  lemma SplitValue(v: nat, b: nat, rem: nat, bits: nat, hi: nat, lo: nat)
    requires rem + bits == b && v < Pow2(b) && hi == Shr(v, bits) && lo == And(v, Pow2(bits) - 1)
    ensures hi < Pow2(rem) && lo < Pow2(bits)
    ensures ToBits(v, b) == ToBits(hi, rem) + ToBits(lo, bits)
  {
    Pow2Add(rem, bits);
    DivNonNegative(v, Pow2(bits));
    DivBound(v, Pow2(rem), Pow2(bits));
    ToBitsSplit(v, rem, bits);
    AndLowMask(v, bits);
    ShrDiv(v, bits);
  }

  /** The same split, seen on the stream the bits are appended to. */
  lemma SplitAppend(s: BitString, v: nat, b: nat, rem: nat, bits: nat, hi: nat, lo: nat)
    requires rem + bits == b && v < Pow2(b) && hi == Shr(v, bits) && lo == And(v, Pow2(bits) - 1)
    ensures s + ToBits(v, b) == s + ToBits(hi, rem) + ToBits(lo, bits)
  {
    SplitValue(v, b, rem, bits, hi, lo);
    AppendAssoc(s, ToBits(hi, rem), ToBits(lo, bits));
  }

  // ---------------------------------------------------------------------
  // The bit-stream half
  // ---------------------------------------------------------------------

  /** Bits that stay inside the current byte extend its partial value. */
  lemma BitsShort(s: BitString, v: nat, b: nat)
    requires v < Pow2(b) && |s| % 8 + b < 8
    ensures var p := Summary(s);
      p.length == |s| % 8 && Summary(s + ToBits(v, b)) == Packed(p.bytes, Shl(p.partial, b) + v, p.length + b)
  {
    var c, r := |s| / 8, |s| % 8;
    var t := s + ToBits(v, b);
    DivModUnique(|t|, 8, c, r + b);
    assert t[8 * c..] == s[8 * c..] + ToBits(v, b);
    AppendValue(s[8 * c..], v, b);
    EarlierBytes(s, ToBits(v, b), c);
    assert Bytes(t) == Bytes(s);
  }

  /** Bits that complete the last byte add one complete byte and leave no partial byte. */
  lemma BytesCompleted(s: BitString, x: BitString, c: nat)
    requires |s| / 8 == c && |s + x| == 8 * (c + 1)
    ensures Bytes(s + x) == Bytes(s) + [FromBits((s + x)[8 * c..8 * c + 8])]
    ensures Partial(s + x) == 0 && |s + x| % 8 == 0
  {
    var u := s + x;
    DivModUnique(|u|, 8, c + 1, 0);
    EarlierBytes(s, x, c);
    assert u[8 * (c + 1)..] == [];
  }

  /** Bits that complete the current byte append it to the complete bytes. */
  lemma BitsByte(s: BitString, hi: nat, rem: nat)
    requires hi < Pow2(rem) && rem == 8 - |s| % 8
    ensures var p := Summary(s);
      p.length == |s| % 8 && Summary(s + ToBits(hi, rem)) == Packed(p.bytes + [Shl(p.partial, rem) + hi], 0, 0)
  {
    var c := |s| / 8;
    var u := s + ToBits(hi, rem);
    BytesCompleted(s, ToBits(hi, rem), c);
    assert u[8 * c..8 * c + 8] == s[8 * c..] + ToBits(hi, rem);
    AppendValue(s[8 * c..], hi, rem);
  }

  /** `Append` when the bits stay inside the partial byte. */
  lemma AppendShort(p: Packed, v: nat, b: nat)
    requires p.length + b < 8
    ensures Append(p, v, b) == Packed(p.bytes, Shl(p.partial, b) + v, p.length + b)
  {
  }

  /** `Append` when the bits complete the partial byte: one step of its recursion. */
  lemma AppendLong(p: Packed, v: nat, b: nat, rem: nat, bits: nat, hi: nat, lo: nat)
    requires p.length < 8 && rem == 8 - p.length && rem + bits == b && hi == Shr(v, bits) && lo == And(v, Pow2(bits) - 1)
    ensures var next := Packed(p.bytes + [Shl(p.partial, rem) + hi], 0, 0);
      Append(p, v, b) == if bits == 0 then next else Append(next, lo, bits)
  {
  }

  /** Completing the partial byte, on the stream and on its numbers. */
  lemma BitsLong(s: BitString, p: Packed, v: nat, b: nat, rem: nat, bits: nat, hi: nat, lo: nat)
    requires p == Summary(s)
    requires rem == 8 - |s| % 8 && rem + bits == b && v < Pow2(b) && hi == Shr(v, bits) && lo == And(v, Pow2(bits) - 1)
    ensures hi < Pow2(rem) && lo < Pow2(bits)
    ensures var q := Packed(p.bytes + [Shl(p.partial, rem) + hi], 0, 0);
      Summary(s + ToBits(hi, rem)) == q &&
      (bits == 0 ==> Append(p, v, b) == q) &&
      (bits > 0 ==> Append(p, v, b) == Append(q, lo, bits))
    ensures Summary(s + ToBits(v, b)) == Summary(s + ToBits(hi, rem) + ToBits(lo, bits))
  {
    SplitValue(v, b, rem, bits, hi, lo);
    SplitAppend(s, v, b, rem, bits, hi, lo);
    BitsByte(s, hi, rem);
    AppendLong(p, v, b, rem, bits, hi, lo);
  }

  /** Appending bits to the stream acts on its numbers as `Append` says. */
  lemma {:induction false} BitsPlace(s: BitString, v: nat, b: nat)
    requires v < Pow2(b)
    ensures Summary(s + ToBits(v, b)) == Append(Summary(s), v, b)
    decreases b
  {
    var p := Summary(s);
    var rem := 8 - |s| % 8;
    if rem > b {
      BitsShort(s, v, b);
      AppendShort(p, v, b);
    } else {
      var bits := b - rem;
      var hi, lo := Shr(v, bits), And(v, Pow2(bits) - 1);
      BitsLong(s, p, v, b, rem, bits, hi, lo);
      var u := s + ToBits(hi, rem);
      if bits == 0 {
        assert u + ToBits(lo, bits) == u;
      } else {
        BitsPlace(u, lo, bits);
      }
    }
  }

  // ---------------------------------------------------------------------
  // The array half
  // ---------------------------------------------------------------------

  /** Shifting bits into the current codeword. */
  lemma ArrayShort(st: PackState, cw0: seq<nat>, p: Packed, v: nat, b: nat, maxDataCodewords: int)
    requires Writable(st) && ArrayHolds(st, cw0, p, maxDataCodewords) && v < Pow2(b) && p.length + b < 8
    ensures ArrayHolds(PlaceBits(st, v, b, maxDataCodewords), cw0, Packed(p.bytes, Shl(p.partial, b) + v, p.length + b), maxDataCodewords)
  {
    var c := |p.bytes|;
    ShiftIn(Get(st.codewords, c), Stale(cw0, c, maxDataCodewords), p.length, p.partial, v, b);
  }

  /** Completing the current codeword and moving to the next. */
  lemma ArrayByte(st: PackState, cw0: seq<nat>, p: Packed, hi: nat, rem: nat, maxDataCodewords: int)
    requires Writable(st) && ArrayHolds(st, cw0, p, maxDataCodewords) && rem == 8 - p.length && hi < Pow2(rem)
    ensures ArrayHolds(AfterByte(st, hi, maxDataCodewords), cw0, Packed(p.bytes + [Shl(p.partial, rem) + hi], 0, 0), maxDataCodewords)
  {
    var c, r := |p.bytes|, p.length;
    var stale := Stale(cw0, c, maxDataCodewords);
    ShiftIn(Get(st.codewords, c), stale, r, p.partial, hi, rem);
    assert r + (8 - r) == 8;
    Shl8(stale);
  }

  /** Completing the current codeword: the value splits into the bits that fill it and the rest. */
  lemma ArrayLongHolds(st: PackState, cw0: seq<nat>, p: Packed, v: nat, b: nat, rem: nat, bits: nat, hi: nat, lo: nat, maxDataCodewords: int)
    requires Writable(st) && ArrayHolds(st, cw0, p, maxDataCodewords) && v < Pow2(b)
    requires rem == 8 - p.length && rem + bits == b && hi == Shr(v, bits) && lo == And(v, Pow2(bits) - 1)
    ensures lo < Pow2(bits) && Writable(AfterByte(st, hi, maxDataCodewords))
    ensures ArrayHolds(AfterByte(st, hi, maxDataCodewords), cw0, Packed(p.bytes + [Shl(p.partial, rem) + hi], 0, 0), maxDataCodewords)
  {
    SplitValue(v, b, rem, bits, hi, lo);
    ArrayByte(st, cw0, p, hi, rem, maxDataCodewords);
  }

  /** Completing the current codeword, on the array and on its numbers. */
  lemma ArrayLong(st: PackState, cw0: seq<nat>, p: Packed, v: nat, b: nat, rem: nat, bits: nat, hi: nat, lo: nat, maxDataCodewords: int)
    returns (next: PackState, q: Packed)
    requires Writable(st) && ArrayHolds(st, cw0, p, maxDataCodewords) && v < Pow2(b)
    requires rem == 8 - p.length && rem + bits == b && hi == Shr(v, bits) && lo == And(v, Pow2(bits) - 1)
    ensures lo < Pow2(bits) && Writable(next) && ArrayHolds(next, cw0, q, maxDataCodewords)
    ensures PlaceBits(st, v, b, maxDataCodewords) == if bits == 0 then next else PlaceBits(next, lo, bits, maxDataCodewords)
    ensures Append(p, v, b) == if bits == 0 then q else Append(q, lo, bits)
  {
    next, q := AfterByte(st, hi, maxDataCodewords), Packed(p.bytes + [Shl(p.partial, rem) + hi], 0, 0);
    ArrayLongHolds(st, cw0, p, v, b, rem, bits, hi, lo, maxDataCodewords);
    PlaceBitsLong(st, v, b, rem, bits, hi, lo, maxDataCodewords);
    AppendLong(p, v, b, rem, bits, hi, lo);
  }

  lemma ArrayHoldsEq(st: PackState, st': PackState, cw0: seq<nat>, p: Packed, p': Packed, maxDataCodewords: int)
    requires st == st' && p == p' && ArrayHolds(st, cw0, p, maxDataCodewords)
    ensures ArrayHolds(st', cw0, p', maxDataCodewords)
  {
  }

  // ---------------------------------------------------------------------
  // The end of a pass
  // ---------------------------------------------------------------------

  /** The pad value written at distance `j`, when the flag starts at `flag`. */
  function PadValue(j: int, flag: int): nat
  {
    if (j % 2 == 0) == (flag == 1) then 236 else 17
  }

  lemma {:induction false} PadFills(cw: seq<nat>, c: int, maxDataCodewords: int, flag: int)
    requires -1 <= c < |cw| && (flag == 1 || flag == -1)
    ensures var r := Pad(cw, c, maxDataCodewords, flag);
      |r| == (if c < maxDataCodewords - 1 then Max(|cw|, maxDataCodewords) else |cw|) &&
      forall k :: Get(r, k) == if c < k < maxDataCodewords then PadValue(k - c - 1, flag) else Get(cw, k)
    decreases maxDataCodewords - c
  {
    if c < maxDataCodewords - 1 {
      var cw' := Put(cw, c + 1, if flag == 1 then 236 else 17);
      PadFills(cw', c + 1, maxDataCodewords, -flag);
      var r := Pad(cw, c, maxDataCodewords, flag);
      forall k
        ensures Get(r, k) == if c < k < maxDataCodewords then PadValue(k - c - 1, flag) else Get(cw, k)
      {
        if c + 1 < k < maxDataCodewords {
          assert (k - c - 1) % 2 == 0 <==> (k - (c + 1) - 1) % 2 == 1;
        }
      }
    }
  }

  /** The end of a pass whose bits end inside a codeword: it is shifted left, the rest padded. */
  lemma FinishArrayPartial(st: PackState, cw0: seq<nat>, p: Packed, maxDataCodewords: int)
    requires Writable(st) && ArrayHolds(st, cw0, p, maxDataCodewords) && p.length > 0 && |p.bytes| < maxDataCodewords
    ensures var res, c := FinishPass(st, maxDataCodewords), |p.bytes|;
      |res| == Max(|st.codewords|, maxDataCodewords) &&
      (forall k :: 0 <= k < c ==> Get(res, k) == Stale(cw0, k, maxDataCodewords) * 256 + p.bytes[k]) &&
      Get(res, c) == Stale(cw0, c, maxDataCodewords) * 256 + Shl(p.partial, 8 - p.length) &&
      (forall k :: c < k < maxDataCodewords ==> Get(res, k) == PadByte(k - c - 1)) &&
      (forall k :: k >= maxDataCodewords ==> Get(res, k) == Get(cw0, k))
  {
    var c, r := |p.bytes|, p.length;
    var stale := Stale(cw0, c, maxDataCodewords);
    var cw' := Put(st.codewords, c, Shl(Get(st.codewords, c), 8 - r));
    ShiftSum(stale, r, p.partial, 8 - r);
    assert r + (8 - r) == 8;
    Shl8(stale);
    PadFills(cw', c, maxDataCodewords, 1);
  }

  /** The end of a pass whose bits fill whole codewords: the counter steps back, the rest is padded. */
  lemma FinishArrayWhole(st: PackState, cw0: seq<nat>, p: Packed, maxDataCodewords: int)
    requires Writable(st) && ArrayHolds(st, cw0, p, maxDataCodewords) && p.length == 0 && p.partial == 0
    requires |p.bytes| <= maxDataCodewords
    ensures var res, c := FinishPass(st, maxDataCodewords), |p.bytes|;
      |res| == Max(|st.codewords|, maxDataCodewords) &&
      (forall k :: 0 <= k < c ==> Get(res, k) == Stale(cw0, k, maxDataCodewords) * 256 + p.bytes[k]) &&
      (forall k :: c <= k < maxDataCodewords ==> Get(res, k) == PadByte(k - c)) &&
      (forall k :: k >= maxDataCodewords ==> Get(res, k) == Get(cw0, k))
  {
    PadFills(st.codewords, |p.bytes| - 1, maxDataCodewords, 1);
  }

  /** The fields of a stream's summary. */
  lemma SummaryFields(s: BitString, p: Packed)
    requires p == Summary(s)
    ensures p.bytes == Bytes(s) && |p.bytes| == |s| / 8 && p.partial == Partial(s) && p.length == |s| % 8
  {
  }

  /** The data codeword of a complete byte of a stream is that byte. */
  lemma CodewordOfByte(s: BitString, k: nat)
    requires k < |s| / 8
    ensures DataCodeword(s, k) == Bytes(s)[k]
  {
    assert 8 * k + 8 <= |s|;
    assert Padded(s)[8 * k..8 * k + 8] == s[8 * k..8 * k + 8];
  }

  /** The last, partial byte of a stream, filled with zeros. */
  lemma PaddedLastByte(s: BitString)
    requires |s| % 8 != 0
    ensures (|s| + 7) / 8 == |s| / 8 + 1
    ensures Padded(s)[8 * (|s| / 8)..8 * (|s| / 8) + 8] == s[8 * (|s| / 8)..] + Zeros(8 - |s| % 8)
  {
    var c, r := |s| / 8, |s| % 8;
    DivModUnique(|s| + 7, 8, c + 1, r - 1);
    DivModUnique(8 - r, 8, 0, 8 - r);
    assert Padded(s) == s + Zeros(8 - r);
  }

  /** The data codeword of the last, partial byte of a stream is that byte filled with zeros. */
  lemma CodewordOfPartial(s: BitString)
    requires |s| % 8 != 0
    ensures (|s| + 7) / 8 == |s| / 8 + 1 && DataCodeword(s, |s| / 8) == Shl(Partial(s), 8 - |s| % 8)
  {
    var c, r := |s| / 8, |s| % 8;
    var x := s[8 * c..];
    PaddedLastByte(s);
    FromBitsAppend(x, Zeros(8 - r));
    FromBitsZeros(8 - r);
    ShlMul(FromBits(x), 8 - r);
  }
}
