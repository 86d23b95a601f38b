/**
 * Numeric mode payload: the digits are cut into groups of three from the
 * left, each group written as its decimal value in 10 bits; a last group of
 * two digits takes 7 bits and a last single digit 4 bits (section 7.4.3 of
 * ISO/IEC 18004:2015).
 */
module NumericModes {
  import opened Bits

  predicate IsDigit(b: Byte)
  {
    48 <= b <= 57
  }

  predicate AllDigits(s: seq<Byte>)
  {
    forall i :: 0 <= i < |s| ==> IsDigit(s[i])
  }

  /** The numeric value of one character; a byte that is not a digit counts as 0. */
  function DigitValue(b: Byte): (v: nat)
    ensures v < 10
  {
    if IsDigit(b) then b - 48 else 0
  }

  /** The value of a run of digits, read left to right as the encoder accumulates it. */
  function DecimalValue(g: seq<Byte>): nat
  {
    if g == [] then 0 else 10 * DecimalValue(g[..|g| - 1]) + DigitValue(g[|g| - 1])
  }

  lemma {:induction false} DecimalValueBound(g: seq<Byte>)
    ensures DecimalValue(g) < Pow10(|g|)
  {
    if g != [] {
      DecimalValueBound(g[..|g| - 1]);
    }
  }

  function Pow10(n: nat): nat
  {
    if n == 0 then 1 else 10 * Pow10(n - 1)
  }

  /** Bits for a group of one, two or three digits. */
  function GroupWidth(len: nat): nat
  {
    if len == 1 then 4 else if len == 2 then 7 else 10
  }

  function GroupCount(n: nat): nat
  {
    (n + 2) / 3
  }

  function GroupEnd(n: nat, k: nat): nat
  {
    if 3 * k + 3 <= n then 3 * k + 3 else n
  }

  function Group(s: seq<Byte>, k: nat): (g: seq<Byte>)
    requires k < GroupCount(|s|)
    ensures 1 <= |g| <= 3
  {
    s[3 * k..GroupEnd(|s|, k)]
  }

  /** The value and width fields numeric mode appends after the character count. */
  function NumericPayload(s: seq<Byte>): (p: seq<Field>)
    ensures |p| == GroupCount(|s|)
  {
    seq(GroupCount(|s|), k requires 0 <= k < GroupCount(|s|) =>
      Field(DecimalValue(Group(s, k)), GroupWidth(|Group(s, k)|)))
  }

  /** Every group value fits its width: 9 < 2^4, 99 < 2^7, 999 < 2^10. */
  lemma NumericPayloadFits(s: seq<Byte>)
    ensures Fits(NumericPayload(s))
  {
    var p := NumericPayload(s);
    forall k | 0 <= k < |p|
      ensures p[k].value < Pow2(p[k].width)
    {
      var g := Group(s, k);
      DecimalValueBound(g);
      assert Pow2(4) == 16 && Pow2(7) == 128 && Pow2(10) == 1024;
    }
  }

  /** A complete group is not touched by the digits after it. */
  lemma NumericPayloadSnocKeeps(s: seq<Byte>, d: Byte, k: nat)
    requires 3 * k + 3 <= |s|
    ensures NumericPayload(s + [d])[k] == NumericPayload(s)[k]
  {
    var t := s + [d];
    assert Group(t, k) == Group(s, k);
  }

  lemma NumericPayloadSnocNew(s: seq<Byte>, d: Byte)
    requires |s| % 3 == 0
    ensures var p := NumericPayload(s);
      |p| == |s| / 3 && NumericPayload(s + [d]) == p + [Field(DigitValue(d), 4)]
  {
    var t := s + [d];
    var p, q := NumericPayload(s), NumericPayload(t);
    forall k | 0 <= k < |q|
      ensures q[k] == (p + [Field(DigitValue(d), 4)])[k]
    {
      if k < |p| {
        NumericPayloadSnocKeeps(s, d, k);
      } else {
        assert k == |s| / 3 == |p|;
        assert Group(t, k) == [d];
        assert [d][..0] == [];
        assert DecimalValue([d]) == DigitValue(d);
        assert q[k] == Field(DigitValue(d), 4);
      }
    }
  }

  /** A digit after an incomplete last group joins that group. */
  lemma LastGroupExtend(s: seq<Byte>, d: Byte)
    requires |s| % 3 != 0
    ensures GroupCount(|s|) == |s| / 3 + 1 == GroupCount(|s| + 1)
    ensures |Group(s, |s| / 3)| == |s| % 3 && Group(s + [d], |s| / 3) == Group(s, |s| / 3) + [d]
  {
    var m, r := |s| / 3, |s| % 3;
    DivModUnique(|s| + 2, 3, m + 1, r - 1);
    DivModUnique(|s| + 3, 3, m + 1, r);
    assert GroupEnd(|s| + 1, m) == |s| + 1 && GroupEnd(|s|, m) == |s|;
  }

  lemma NumericPayloadSnocExtend(s: seq<Byte>, d: Byte)
    requires |s| % 3 != 0
    ensures var p := NumericPayload(s);
      |p| == |s| / 3 + 1 &&
      NumericPayload(s + [d]) == p[..|p| - 1] + [Field(10 * p[|p| - 1].value + DigitValue(d), if |s| % 3 == 1 then 7 else 10)]
  {
    var t := s + [d];
    var p, q := NumericPayload(s), NumericPayload(t);
    var m := |s| / 3;
    LastGroupExtend(s, d);
    var f := Field(10 * p[m].value + DigitValue(d), if |s| % 3 == 1 then 7 else 10);
    forall k | 0 <= k < |q|
      ensures q[k] == (p[..m] + [f])[k]
    {
      if k < m {
        NumericPayloadSnocKeeps(s, d, k);
      } else {
        var g := Group(s, m);
        assert (g + [d])[..|g|] == g;
      }
    }
  }

  /**
   * How one more digit changes the payload: it opens a new group of width 4,
   * or extends the last group to 7 or 10 bits, its value times ten plus the digit.
   */
  lemma NumericPayloadSnoc(s: seq<Byte>, d: Byte)
    ensures var p, q := NumericPayload(s), NumericPayload(s + [d]);
      if |s| % 3 == 0 then |p| == |s| / 3 && q == p + [Field(DigitValue(d), 4)]
      else |p| == |s| / 3 + 1 && q == p[..|p| - 1] + [Field(10 * p[|p| - 1].value + DigitValue(d), if |s| % 3 == 1 then 7 else 10)]
  {
    if |s| % 3 == 0 {
      NumericPayloadSnocNew(s, d);
    } else {
      NumericPayloadSnocExtend(s, d);
    }
  }

  /** The decimal digits of `v`, zero-padded on the left to `len` digits. */
  function Digits(v: nat, len: nat): (s: seq<Byte>)
    ensures |s| == len && AllDigits(s)
  {
    if len == 0 then [] else Digits(v / 10, len - 1) + [48 + v % 10]
  }

  /** The number of digits a group of the given width holds. */
  function DigitCount(width: nat): nat
  {
    if width == 4 then 1 else if width == 7 then 2 else 3
  }

  /** A reader's view of the payload: each field back to its digits. */
  function DecodeNumeric(p: seq<Field>): seq<Byte>
  {
    if p == [] then []
    else DecodeNumeric(p[..|p| - 1]) + Digits(p[|p| - 1].value, DigitCount(p[|p| - 1].width))
  }

  lemma {:induction false} DigitsOfDecimalValue(g: seq<Byte>)
    requires AllDigits(g)
    ensures Digits(DecimalValue(g), |g|) == g
  {
    if g != [] {
      var init := g[..|g| - 1];
      DigitsOfDecimalValue(init);
      var v := DecimalValue(g);
      assert v / 10 == DecimalValue(init) && v % 10 == g[|g| - 1] - 48;
      assert g == init + [g[|g| - 1]];
    }
  }

  /** The first `m` groups of `s` are the groups of its first `3m` digits. */
  lemma NumericPayloadPrefix(s: seq<Byte>, m: nat)
    requires m < GroupCount(|s|)
    ensures NumericPayload(s)[..m] == NumericPayload(s[..3 * m])
  {
    var s' := s[..3 * m];
    var p, p' := NumericPayload(s), NumericPayload(s');
    forall k | 0 <= k < m
      ensures p'[k] == p[k]
    {
      assert Group(s', k) == Group(s, k);
    }
  }

  lemma LastGroupDigits(s: seq<Byte>, g: seq<Byte>, f: Field)
    requires 1 <= |g| <= 3 && AllDigits(g)
    requires f == Field(DecimalValue(g), GroupWidth(|g|))
    ensures Digits(f.value, DigitCount(f.width)) == g
  {
    DigitsOfDecimalValue(g);
  }

  /** Decoding the payload gives back the digits: numeric mode loses nothing. */
  lemma {:induction false} NumericRoundTrip(s: seq<Byte>)
    requires AllDigits(s)
    ensures DecodeNumeric(NumericPayload(s)) == s
    decreases |s|
  {
    var p := NumericPayload(s);
    if |p| > 0 {
      var m := |p| - 1;
      var s' := s[..3 * m];
      NumericPayloadPrefix(s, m);
      NumericRoundTrip(s');
      var g := Group(s, m);
      LastGroupDigits(s, g, p[m]);
      RoundTripStep(p, s', g);
      LastGroupSplit(s, m);
    }
  }

  /** Decoding a payload is decoding all but its last field, then the last field's digits. */
  lemma RoundTripStep(p: seq<Field>, init: seq<Byte>, g: seq<Byte>)
    requires |p| > 0 && DecodeNumeric(p[..|p| - 1]) == init
    requires Digits(p[|p| - 1].value, DigitCount(p[|p| - 1].width)) == g
    ensures DecodeNumeric(p) == init + g
  {
  }

  /** The last group runs to the end of the digits. */
  lemma LastGroupSplit(s: seq<Byte>, m: nat)
    requires m + 1 == GroupCount(|s|)
    ensures s == s[..3 * m] + Group(s, m)
  {
    assert GroupEnd(|s|, m) == |s|;
    assert s == s[..3 * m] + s[3 * m..];
  }

  /** The payload of "12345": 123 in ten bits, then 45 in seven. */
  lemma Payload12345(s: seq<Byte>)
    requires s == [49, 50, 51, 52, 53]
    ensures NumericPayload(s) == [Field(123, 10), Field(45, 7)]
  {
    assert Group(s, 0) == [49, 50, 51];
    assert Group(s, 1) == [52, 53];
    assert DecimalValue([49, 50, 51]) == 123 by {
      assert [49, 50, 51][..2] == [49, 50];
      assert [49, 50][..1] == [49];
      assert [49][..0] == [];
    }
    assert DecimalValue([52, 53]) == 45 by {
      assert [52, 53][..1] == [52];
      assert [52][..0] == [];
    }
  }
}
