/**
 * Alphanumeric mode payload over the 45-character alphabet
 * `0-9A-Z $%*+-./:`: characters are taken in pairs, a pair written as
 * 45 * first + second in 11 bits, an odd last character as its own value in
 * 6 bits (section 7.4.4 of ISO/IEC 18004:2015).
 */
module AlphanumericModes {
  import opened Bits

  /** The character of value `v`: '0'..'9', 'A'..'Z', then ' ', '$', '%', '*', '+', '-', '.', '/', ':'. */
  function AlphabetChar(v: nat): Byte
    requires v < 45
  {
    if v < 10 then 48 + v
    else if v < 36 then 55 + v
    else if v == 36 then 32
    else if v == 37 then 36
    else if v == 38 then 37
    else if v == 39 then 42
    else if v == 40 then 43
    else if v == 41 then 45
    else if v == 42 then 46
    else if v == 43 then 47
    else 58
  }

  predicate IsAlphanumeric(b: Byte)
  {
    48 <= b <= 57 || 65 <= b <= 90 || b in {32, 36, 37, 42, 43, 45, 46, 47, 58}
  }

  predicate AllAlphanumeric(s: seq<Byte>)
  {
    forall i :: 0 <= i < |s| ==> IsAlphanumeric(s[i])
  }

  /**
   * The alphanumeric character hash: the value of a character of the
   * alphabet. A byte outside the alphabet has no entry; its missing value
   * counts as 0.
   */
  function CharValue(b: Byte): (v: nat)
    ensures v < 45
    ensures IsAlphanumeric(b) ==> AlphabetChar(v) == b
  {
    if b <= 57 && b >= 48 then b - 48
    else if 65 <= b <= 90 then b - 55
    else if b == 32 then 36
    else if b == 36 then 37
    else if b == 37 then 38
    else if b == 42 then 39
    else if b == 43 then 40
    else if b == 45 then 41
    else if b == 46 then 42
    else if b == 47 then 43
    else if b == 58 then 44
    else 0
  }

  /** The hash is a bijection from the 45 characters onto 0..44. */
  lemma CharValueBijection(i: nat)
    requires i < 45
    ensures IsAlphanumeric(AlphabetChar(i)) && CharValue(AlphabetChar(i)) == i
  {
    if i >= 36 {
      assert i == 36 || i == 37 || i == 38 || i == 39 || i == 40 || i == 41 || i == 42 || i == 43 || i == 44;
    }
  }

  lemma CharValueInjective(a: Byte, b: Byte)
    requires IsAlphanumeric(a) && IsAlphanumeric(b) && CharValue(a) == CharValue(b)
    ensures a == b
  {
    assert AlphabetChar(CharValue(a)) == a && AlphabetChar(CharValue(b)) == b;
  }

  function PairCount(n: nat): nat
  {
    (n + 1) / 2
  }

  function PairField(s: seq<Byte>, k: nat): Field
    requires k < PairCount(|s|)
  {
    if 2 * k + 1 < |s| then Field(45 * CharValue(s[2 * k]) + CharValue(s[2 * k + 1]), 11)
    else Field(CharValue(s[2 * k]), 6)
  }

  /** The value and width fields alphanumeric mode appends after the character count. */
  function AlphanumericPayload(s: seq<Byte>): (p: seq<Field>)
    ensures |p| == PairCount(|s|)
  {
    seq(PairCount(|s|), k requires 0 <= k < PairCount(|s|) => PairField(s, k))
  }

  /** Every value fits its width: 44 * 45 + 44 = 2024 < 2^11 and 44 < 2^6. */
  lemma AlphanumericPayloadFits(s: seq<Byte>)
    ensures Fits(AlphanumericPayload(s))
    ensures forall k :: 0 <= k < |AlphanumericPayload(s)| ==> AlphanumericPayload(s)[k].value <= 2024
  {
    assert Pow2(6) == 64 && Pow2(11) == 2048;
  }

  /** A complete pair is not touched by the characters after it. */
  lemma AlphanumericPayloadSnocKeeps(s: seq<Byte>, c: Byte, k: nat)
    requires 2 * k + 2 <= |s|
    ensures AlphanumericPayload(s + [c])[k] == AlphanumericPayload(s)[k]
  {
    assert (s + [c])[2 * k] == s[2 * k] && (s + [c])[2 * k + 1] == s[2 * k + 1];
  }

  lemma AlphanumericPayloadSnocOpen(s: seq<Byte>, c: Byte)
    requires |s| % 2 == 0
    ensures var p := AlphanumericPayload(s);
      |p| == |s| / 2 && AlphanumericPayload(s + [c]) == p + [Field(CharValue(c), 6)]
  {
    var t := s + [c];
    var p, q := AlphanumericPayload(s), AlphanumericPayload(t);
    forall k | 0 <= k < |q|
      ensures q[k] == (p + [Field(CharValue(c), 6)])[k]
    {
      if k < |p| {
        AlphanumericPayloadSnocKeeps(s, c, k);
      } else {
        assert q[k] == PairField(t, k);
      }
    }
  }

  lemma AlphanumericPayloadSnocPair(s: seq<Byte>, c: Byte)
    requires |s| % 2 == 1
    ensures var p := AlphanumericPayload(s);
      |p| == |s| / 2 + 1 &&
      AlphanumericPayload(s + [c]) == p[..|p| - 1] + [Field(45 * p[|p| - 1].value + CharValue(c), 11)]
  {
    var t := s + [c];
    var p, q := AlphanumericPayload(s), AlphanumericPayload(t);
    var m := |s| / 2;
    forall k | 0 <= k < |q|
      ensures q[k] == (p[..m] + [Field(45 * p[m].value + CharValue(c), 11)])[k]
    {
      if k < m {
        AlphanumericPayloadSnocKeeps(s, c, k);
      } else {
        assert q[k] == PairField(t, k) && p[m] == PairField(s, m);
      }
    }
  }

  /**
   * How one more character changes the payload: at an even position it opens
   * a 6-bit field; at an odd one it turns the last field into an 11-bit pair.
   */
  lemma AlphanumericPayloadSnoc(s: seq<Byte>, c: Byte)
    ensures var p, q := AlphanumericPayload(s), AlphanumericPayload(s + [c]);
      if |s| % 2 == 0 then |p| == |s| / 2 && q == p + [Field(CharValue(c), 6)]
      else |p| == |s| / 2 + 1 && q == p[..|p| - 1] + [Field(45 * p[|p| - 1].value + CharValue(c), 11)]
  {
    if |s| % 2 == 0 {
      AlphanumericPayloadSnocOpen(s, c);
    } else {
      AlphanumericPayloadSnocPair(s, c);
    }
  }

  /** The character of a value, or NUL for a value outside the alphabet. */
  function Letter(v: nat): Byte
  {
    if v < 45 then AlphabetChar(v) else 0
  }

  /** A reader's view of the payload: 11-bit fields back to two characters, 6-bit fields to one. */
  function DecodeAlphanumeric(p: seq<Field>): seq<Byte>
  {
    if p == [] then []
    else
      var f := p[|p| - 1];
      DecodeAlphanumeric(p[..|p| - 1]) + (if f.width == 11 then [Letter(f.value / 45), Letter(f.value % 45)] else [Letter(f.value)])
  }

  lemma AlphanumericPayloadPrefix(s: seq<Byte>, m: nat)
    requires m < PairCount(|s|)
    ensures AlphanumericPayload(s)[..m] == AlphanumericPayload(s[..2 * m])
  {
    var s' := s[..2 * m];
    var p, p' := AlphanumericPayload(s), AlphanumericPayload(s');
    forall k | 0 <= k < m
      ensures p'[k] == p[k]
    {
      assert s'[2 * k] == s[2 * k] && s'[2 * k + 1] == s[2 * k + 1];
    }
  }

  lemma LastPairLetters(s: seq<Byte>, m: nat)
    requires AllAlphanumeric(s) && m + 1 == PairCount(|s|)
    ensures var f := PairField(s, m);
      (if f.width == 11 then [Letter(f.value / 45), Letter(f.value % 45)] else [Letter(f.value)]) == s[2 * m..]
  {
    var f := PairField(s, m);
    if 2 * m + 1 < |s| {
      var a, b := CharValue(s[2 * m]), CharValue(s[2 * m + 1]);
      DivModUnique(45 * a + b, 45, a, b);
    }
  }

  /** Decoding the payload gives back the text: alphanumeric mode loses nothing. */
  lemma {:induction false} AlphanumericRoundTrip(s: seq<Byte>)
    requires AllAlphanumeric(s)
    ensures DecodeAlphanumeric(AlphanumericPayload(s)) == s
    decreases |s|
  {
    var p := AlphanumericPayload(s);
    if |p| > 0 {
      var m := |p| - 1;
      var s' := s[..2 * m];
      AlphanumericPayloadPrefix(s, m);
      AlphanumericRoundTrip(s');
      LastPairLetters(s, m);
      assert s == s' + s[2 * m..];
    }
  }

  /** The payload of "HELLO": HE = 17 * 45 + 14, LL = 21 * 45 + 21, and O alone. */
  lemma PayloadHello(s: seq<Byte>)
    requires s == [72, 69, 76, 76, 79]
    ensures AlphanumericPayload(s) == [Field(779, 11), Field(966, 11), Field(24, 6)]
  {
    assert PairField(s, 0) == Field(779, 11);
    assert PairField(s, 1) == Field(966, 11);
    assert PairField(s, 2) == Field(24, 6);
  }
}
