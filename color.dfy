/**
 * An RGB colour with components in 0..255, settable from components, from a
 * `['r', 'g', 'b']` array or from a CSS-style hexadecimal string.
 */
module Colors {
  import opened Results

  datatype ColorError = IncorrectRGBValues | InvalidHexValue

  /** The `['r' => .., 'g' => .., 'b' => ..]` array of `toArray` and `setFromArray`. */
  datatype RgbArray = RgbArray(r: int, g: int, b: int)

  predicate CheckValue(value: int)
  {
    0 <= value <= 255
  }

  predicate CheckRgbValues(red: int, green: int, blue: int)
  {
    CheckValue(red) && CheckValue(green) && CheckValue(blue)
  }

  /** `str_replace("#", "", hex)`: every '#' removed, the rest kept in order. */
  function StripHashes(hex: string): (s: string)
    ensures '#' !in s && |s| <= |hex|
    ensures '#' !in hex ==> s == hex
  {
    if hex == [] then []
    else (if hex[0] == '#' then [] else [hex[0]]) + StripHashes(hex[1..])
  }

  predicate IsHexValid(hex: string)
  {
    var s := StripHashes(hex);
    |s| == 3 || |s| == 6
  }

  predicate IsHexDigit(c: char)
  {
    '0' <= c <= '9' || 'a' <= c <= 'f' || 'A' <= c <= 'F'
  }

  function DigitValue(c: char): (d: nat)
    requires IsHexDigit(c)
    ensures d < 16
  {
    if '0' <= c <= '9' then c as int - '0' as int
    else if 'a' <= c <= 'f' then c as int - 'a' as int + 10
    else c as int - 'A' as int + 10
  }

  function Pow16(n: nat): nat
  {
    if n == 0 then 1 else 16 * Pow16(n - 1)
  }

  /** PHP `hexdec`: reads the hexadecimal digits of `s` and skips every other character. */
  function HexDec(s: string): nat
  {
    if s == [] then 0
    else if IsHexDigit(s[|s| - 1]) then 16 * HexDec(s[..|s| - 1]) + DigitValue(s[|s| - 1])
    else HexDec(s[..|s| - 1])
  }

  lemma {:induction false} HexDecBound(s: string)
    ensures HexDec(s) < Pow16(|s|)
  {
    if s != [] {
      HexDecBound(s[..|s| - 1]);
    }
  }

  /** Two hexadecimal digits read as one byte. */
  lemma HexDecPair(a: char, b: char)
    requires IsHexDigit(a) && IsHexDigit(b)
    ensures HexDec([a, b]) == 16 * DigitValue(a) + DigitValue(b)
  {
    assert [a, b][..1] == [a];
    assert [a][..0] == [];
    assert HexDec([a]) == 16 * HexDec([]) + DigitValue(a);
  }

  /** The two characters `hexdec` reads for component `k` (0 red, 1 green, 2 blue). */
  function ComponentText(s: string, k: nat): string
    requires (|s| == 3 || |s| == 6) && k < 3
  {
    if |s| == 3 then [s[k], s[k]] else s[2 * k..2 * k + 2]
  }

  /**
   * The colour a hexadecimal string stands for. A string of valid length always
   * yields components in range: two characters read by `hexdec` are below 256.
   */
  function HexToRgb(hex: string): (r: Result<RgbArray, ColorError>)
    ensures r.Success? <==> IsHexValid(hex)
    ensures r.Failure? ==> r.error == InvalidHexValue
    ensures r.Success? ==> CheckRgbValues(r.value.r, r.value.g, r.value.b)
  {
    if !IsHexValid(hex) then Failure(InvalidHexValue)
    else
      var s := StripHashes(hex);
      var red, green, blue := HexDec(ComponentText(s, 0)), HexDec(ComponentText(s, 1)), HexDec(ComponentText(s, 2));
      HexDecBound(ComponentText(s, 0));
      HexDecBound(ComponentText(s, 1));
      HexDecBound(ComponentText(s, 2));
      Success(RgbArray(red, green, blue))
  }

  /** A six-digit colour reads its components two digits each, most significant first. */
  lemma SixDigitComponents(hex: string)
    requires var s := StripHashes(hex); |s| == 6 && forall i :: 0 <= i < 6 ==> IsHexDigit(s[i])
    ensures var s := StripHashes(hex);
      HexToRgb(hex) == Success(RgbArray(
        16 * DigitValue(s[0]) + DigitValue(s[1]),
        16 * DigitValue(s[2]) + DigitValue(s[3]),
        16 * DigitValue(s[4]) + DigitValue(s[5])))
  {
    var s := StripHashes(hex);
    assert ComponentText(s, 0) == [s[0], s[1]];
    assert ComponentText(s, 1) == [s[2], s[3]];
    assert ComponentText(s, 2) == [s[4], s[5]];
    HexDecPair(s[0], s[1]);
    HexDecPair(s[2], s[3]);
    HexDecPair(s[4], s[5]);
  }

  /** A three-digit colour doubles each digit: "#abc" is "#aabbcc". */
  lemma ThreeDigitComponents(hex: string)
    requires var s := StripHashes(hex); |s| == 3 && forall i :: 0 <= i < 3 ==> IsHexDigit(s[i])
    ensures var s := StripHashes(hex);
      HexToRgb(hex) == Success(RgbArray(17 * DigitValue(s[0]), 17 * DigitValue(s[1]), 17 * DigitValue(s[2])))
  {
    var s := StripHashes(hex);
    HexDecPair(s[0], s[0]);
    HexDecPair(s[1], s[1]);
    HexDecPair(s[2], s[2]);
  }

  /** A leading '#' is dropped; the rest of a '#'-free string is kept. */
  lemma StripLeadingHash(s: string)
    requires '#' !in s
    ensures StripHashes(['#'] + s) == s
  {
    assert (['#'] + s)[1..] == s;
  }

  /** A '#' and six hex digits. */
  lemma HashSixDigits(hex: string, c0: char, c1: char, c2: char, c3: char, c4: char, c5: char)
    requires hex == ['#', c0, c1, c2, c3, c4, c5]
    requires IsHexDigit(c0) && IsHexDigit(c1) && IsHexDigit(c2) && IsHexDigit(c3) && IsHexDigit(c4) && IsHexDigit(c5)
    ensures HexToRgb(hex) == Success(RgbArray(
      16 * DigitValue(c0) + DigitValue(c1), 16 * DigitValue(c2) + DigitValue(c3), 16 * DigitValue(c4) + DigitValue(c5)))
  {
    var s := [c0, c1, c2, c3, c4, c5];
    assert hex == ['#'] + s;
    assert '#' !in s;
    StripLeadingHash(s);
    assert StripHashes(hex) == s;
    SixDigitComponents(hex);
  }

  /** The colour of the library's own example, "#bada55". */
  lemma BadassHex(hex: string)
    requires hex == "#bada55"
    ensures HexToRgb(hex) == Success(RgbArray(186, 218, 85))
  {
    HashSixDigits(hex, 'b', 'a', 'd', 'a', '5', '5');
  }

  /** "#hashtag" has seven characters after the '#': rejected. */
  lemma HashtagIsNotHex(hex: string)
    requires hex == "#hashtag"
    ensures HexToRgb(hex) == Failure(InvalidHexValue)
  {
    var s := hex[1..];
    assert '#' !in s;
    StripLeadingHash(s);
    assert hex == ['#'] + s;
  }

  class Color {
    var red: int
    var green: int
    var blue: int

    ghost predicate Valid()
      reads this
    {
      CheckRgbValues(red, green, blue)
    }

    function ToArray(): RgbArray
      reads this
    {
      RgbArray(red, green, blue)
    }

    /** `new Color` with its default components: black. */
    constructor()
      ensures Valid() && ToArray() == RgbArray(0, 0, 0)
    {
      red, green, blue := 0, 0, 0;
    }

    /** Out-of-range components throw before any component changes. */
    method SetValues(r: int, g: int, b: int) returns (outcome: Outcome<ColorError>)
      requires Valid()
      modifies this
      ensures Valid()
      ensures outcome == if CheckRgbValues(r, g, b) then Pass else Fail(IncorrectRGBValues)
      ensures ToArray() == if outcome.Pass? then RgbArray(r, g, b) else old(ToArray())
    {
      if !CheckRgbValues(r, g, b) {
        return Fail(IncorrectRGBValues);
      }
      red, green, blue := r, g, b;
      outcome := Pass;
    }

    /** Setting from an array and reading `toArray` back gives the same array. */
    method SetFromArray(color: RgbArray) returns (outcome: Outcome<ColorError>)
      requires Valid()
      modifies this
      ensures Valid()
      ensures outcome.Pass? <==> CheckRgbValues(color.r, color.g, color.b)
      ensures ToArray() == if outcome.Pass? then color else old(ToArray())
    {
      outcome := SetValues(color.r, color.g, color.b);
    }

    method Rgb(r: int, g: int, b: int) returns (outcome: Outcome<ColorError>)
      requires Valid()
      modifies this
      ensures Valid()
      ensures outcome.Pass? <==> CheckRgbValues(r, g, b)
      ensures ToArray() == if outcome.Pass? then RgbArray(r, g, b) else old(ToArray())
    {
      outcome := SetValues(r, g, b);
    }

    method Black()
      requires Valid()
      modifies this
      ensures Valid() && ToArray() == RgbArray(0, 0, 0)
    {
      var _ := SetValues(0, 0, 0);
    }

    method White()
      requires Valid()
      modifies this
      ensures Valid() && ToArray() == RgbArray(255, 255, 255)
    {
      var _ := SetValues(255, 255, 255);
    }

    /** A string of the wrong length throws; any string of the right length is accepted. */
    method Hex(hex: string) returns (outcome: Outcome<ColorError>)
      requires Valid()
      modifies this
      ensures Valid()
      ensures outcome == if IsHexValid(hex) then Pass else Fail(InvalidHexValue)
      ensures ToArray() == if outcome.Pass? then HexToRgb(hex).value else old(ToArray())
    {
      if !IsHexValid(hex) {
        return Fail(InvalidHexValue);
      }
      var s := StripHashes(hex);
      var r, g, b;
      if |s| == 3 {
        r := HexDec([s[0], s[0]]);
        g := HexDec([s[1], s[1]]);
        b := HexDec([s[2], s[2]]);
      } else {
        r := HexDec(s[0..2]);
        g := HexDec(s[2..4]);
        b := HexDec(s[4..6]);
      }
      assert HexToRgb(hex).value == RgbArray(r, g, b);
      outcome := SetValues(r, g, b);
    }
  }

  /**
   * `new Color($red, $green, $blue)`: the constructor passes its arguments
   * to `setValues`, so out-of-range components throw and no colour exists.
   */
  method NewColor(r: int, g: int, b: int) returns (outcome: Outcome<ColorError>, color: Color?)
    ensures outcome == if CheckRgbValues(r, g, b) then Pass else Fail(IncorrectRGBValues)
    ensures outcome.Pass? ==> color != null && fresh(color) && color.Valid() && color.ToArray() == RgbArray(r, g, b)
    ensures outcome.Fail? ==> color == null
  {
    color := new Color();
    outcome := color.SetValues(r, g, b);
    if outcome.Fail? {
      color := null;
    }
  }
}
