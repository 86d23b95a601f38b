/**
 * The output image type: one of png, gif, jpeg and wbmp. Users may write
 * "jpg", which is stored as "jpeg" and given back as the extension "jpg".
 */
module ImageTypes {
  import opened Results

  datatype ImageTypeError = InvalidImageType | InvalidFileExtension | ImageFunctionUnknown

  const ImageTypePng: string := "png"
  const ImageTypeGif: string := "gif"
  const ImageTypeJpeg: string := "jpeg"
  const ImageTypeWbmp: string := "wbmp"

  const AvailableTypes: seq<string> := [ImageTypePng, ImageTypeGif, ImageTypeJpeg, ImageTypeWbmp]

  /** PHP `empty` on a string: the empty string and "0". */
  predicate IsEmpty(s: string)
  {
    s == "" || s == "0"
  }

  function StartsWith(s: string, prefix: string): bool
  {
    |prefix| <= |s| && s[..|prefix|] == prefix
  }

  /**
   * `str_replace` with one search string: scans left to right and replaces
   * every non-overlapping occurrence, never rescanning replaced text.
   */
  function ReplaceAll(s: string, search: string, replace: string): string
    requires search != []
    decreases |s|
  {
    if |s| < |search| then s
    else if StartsWith(s, search) then replace + ReplaceAll(s[|search|..], search, replace)
    else [s[0]] + ReplaceAll(s[1..], search, replace)
  }

  /** Replacing a string by itself changes nothing: the `wbmp => wbmp` pair is inert. */
  lemma {:induction false} ReplaceByItself(s: string, search: string)
    requires search != []
    ensures ReplaceAll(s, search, search) == s
    decreases |s|
  {
    if |s| < |search| {
    } else if StartsWith(s, search) {
      ReplaceByItself(s[|search|..], search);
      assert s == search + s[|search|..];
    } else {
      ReplaceByItself(s[1..], search);
      assert s == [s[0]] + s[1..];
    }
  }

  /**
   * The `convert` helper: the replacement pairs `jpg => jpeg` and
   * `wbmp => wbmp` applied in order, or their flipped pairs in reverse.
   */
  function Convert(t: string, reverse: bool): string
  {
    if reverse then ReplaceAll(ReplaceAll(t, "jpeg", "jpg"), "wbmp", "wbmp")
    else ReplaceAll(ReplaceAll(t, "jpg", "jpeg"), "wbmp", "wbmp")
  }

  /** The type name a user's type is stored as. */
  function Normalise(t: string): string
  {
    ReplaceAll(t, "jpg", "jpeg")
  }

  lemma ConvertForward(t: string)
    ensures Convert(t, false) == Normalise(t)
  {
    ReplaceByItself(Normalise(t), "wbmp");
  }

  predicate IsInAvailableImageTypes(t: string)
  {
    Convert(t, false) in AvailableTypes
  }

  /** Text without a 'j' has no "jpg" to replace. */
  lemma {:induction false} NormaliseWithoutJ(t: string)
    requires 'j' !in t
    ensures Normalise(t) == t
    decreases |t|
  {
    if |t| >= 3 {
      assert t[..3][0] == t[0] != 'j';
      NormaliseWithoutJ(t[1..]);
      assert t == [t[0]] + t[1..];
    }
  }

  /** A 'j' in the input survives normalisation. */
  lemma {:induction false} NormaliseKeepsJ(t: string)
    requires 'j' in t
    ensures 'j' in Normalise(t)
    decreases |t|
  {
    if |t| < 3 {
    } else if StartsWith(t, "jpg") {
      assert Normalise(t)[0] == 'j';
    } else if t[0] == 'j' {
      assert Normalise(t)[0] == 'j';
    } else {
      assert 'j' in t[1..] by {
        var k :| 0 <= k < |t| && t[k] == 'j';
        assert t[1..][k - 1] == 'j';
      }
      NormaliseKeepsJ(t[1..]);
      assert Normalise(t) == [t[0]] + Normalise(t[1..]);
    }
  }

  lemma {:induction false} NormaliseLength(t: string)
    ensures |Normalise(t)| >= |t|
    decreases |t|
  {
    if |t| >= 3 {
      if StartsWith(t, "jpg") {
        NormaliseLength(t[3..]);
      } else {
        NormaliseLength(t[1..]);
      }
    }
  }

  /** A type name without 'j' is stored only when given exactly. */
  lemma NormalisedToPlainName(t: string, name: string)
    requires 'j' !in name && Normalise(t) == name
    ensures t == name
  {
    if 'j' in t {
      NormaliseKeepsJ(t);
    } else {
      NormaliseWithoutJ(t);
    }
  }

  /** Only "jpg" and "jpeg" are stored as "jpeg". */
  lemma NormalisedToJpeg(t: string)
    requires Normalise(t) == "jpeg"
    ensures t == "jpg" || t == "jpeg"
  {
    NormaliseLength(t);
    assert |t| <= 4;
    if |t| < 3 {
      assert t == "jpeg";
    } else if StartsWith(t, "jpg") {
      var rest := t[3..];
      assert Normalise(t) == "jpeg" + Normalise(rest);
      NormaliseLength(rest);
      assert |rest| == 0;
      assert t == "jpg";
    } else {
      assert Normalise(t) == [t[0]] + Normalise(t[1..]);
      assert Normalise(t[1..]) == "jpeg"[1..] == "peg";
      assert 'j' !in "peg";
      NormalisedToPlainName(t[1..], "peg");
      assert t == [t[0]] + "peg";
    }
  }

  /** `isAvailable` accepts exactly png, gif, jpg, jpeg and wbmp. */
  lemma AvailableTypesAre(t: string)
    ensures IsInAvailableImageTypes(t) <==> t in ["png", "gif", "jpg", "jpeg", "wbmp"]
  {
    ConvertForward(t);
    var n := Normalise(t);
    if n == "png" || n == "gif" || n == "wbmp" {
      assert 'j' !in n;
      NormalisedToPlainName(t, n);
    } else if n == "jpeg" {
      NormalisedToJpeg(t);
    }
    if t == "png" {
      assert 'j' !in t;
      NormaliseWithoutJ(t);
    } else if t == "gif" {
      assert 'j' !in t;
      NormaliseWithoutJ(t);
    } else if t == "wbmp" {
      assert 'j' !in t;
      NormaliseWithoutJ(t);
    } else if t == "jpeg" {
      assert t[..3] == "jpe" != "jpg";
      assert Normalise(t) == [t[0]] + Normalise(t[1..]);
      assert t[1..] == "peg" && 'j' !in "peg";
      NormaliseWithoutJ("peg");
    } else if t == "jpg" {
      assert StartsWith(t, "jpg");
      assert Normalise(t) == "jpeg" + Normalise(t[3..]);
    }
  }

  /** Reading the stored type back as an extension, and converting it again, restores it. */
  lemma ExtensionRoundTrip(selected: string)
    requires selected in AvailableTypes
    ensures Convert(selected, true) == (if selected == "jpeg" then "jpg" else selected)
    ensures Convert(Convert(selected, true), false) == selected
  {
    var r := Convert(selected, true);
    if selected == "jpeg" {
      assert StartsWith(selected, "jpeg");
      assert ReplaceAll(selected, "jpeg", "jpg") == "jpg" + ReplaceAll(selected[4..], "jpeg", "jpg");
      ReplaceByItself("jpg", "wbmp");
      ConvertForward("jpg");
      assert StartsWith("jpg", "jpg");
      assert Normalise("jpg") == "jpeg" + Normalise("jpg"[3..]);
    } else {
      assert 'j' !in selected;
      NoJpegWithoutJ(selected);
      ReplaceByItself(selected, "wbmp");
      ConvertForward(selected);
      NormaliseWithoutJ(selected);
    }
  }

  lemma {:induction false} NoJpegWithoutJ(t: string)
    requires 'j' !in t
    ensures ReplaceAll(t, "jpeg", "jpg") == t
    decreases |t|
  {
    if |t| >= 4 {
      assert t[..4][0] == t[0] != 'j';
      NoJpegWithoutJ(t[1..]);
      assert t == [t[0]] + t[1..];
    }
  }

  /** The text after the last occurrence of `c`, or all of `s` when there is none. */
  function AfterLast(s: string, c: char): (r: string)
    ensures |r| <= |s| && c !in r
    ensures forall x :: x in r ==> x in s
    ensures c !in s ==> r == s
  {
    if s == [] then []
    else if s[|s| - 1] == c then []
    else AfterLast(s[..|s| - 1], c) + [s[|s| - 1]]
  }

  /**
   * `pathinfo($filename, PATHINFO_EXTENSION)`: the text after the last dot of
   * the last path component, or "" when that component has no dot.
   */
  function ExtensionOf(filename: string): (ext: string)
    ensures '.' !in ext && '/' !in ext
  {
    var base := AfterLast(filename, '/');
    if '.' in base then AfterLast(base, '.') else ""
  }

  class ImageType {
    var selected: string

    ghost predicate Valid()
      reads this
    {
      selected in AvailableTypes
    }

    /** `new ImageType`: the empty type stands for the default, png. */
    constructor()
      ensures Valid() && selected == ImageTypePng
    {
      var t := ImageTypePng;
      assert 'j' !in t;
      NormaliseWithoutJ(t);
      ConvertForward(t);
      selected := Convert(t, false);
    }

    /** An empty type means png; a type that is not available throws and keeps the old type. */
    method Set(t: string) returns (outcome: Outcome<ImageTypeError>)
      requires Valid()
      modifies this
      ensures Valid()
      ensures var chosen := if IsEmpty(t) then ImageTypePng else t;
        outcome == (if IsInAvailableImageTypes(chosen) then Pass else Fail(InvalidImageType))
        && selected == (if outcome.Pass? then Convert(chosen, false) else old(selected))
    {
      var chosen := if IsEmpty(t) then ImageTypePng else t;
      if !IsInAvailableImageTypes(chosen) {
        return Fail(InvalidImageType);
      }
      selected := Convert(chosen, false);
      outcome := Pass;
    }

    /** The type named by a file's extension; no extension, or an unknown one, throws. */
    method SetTypeFromFilename(filename: string) returns (outcome: Outcome<ImageTypeError>)
      requires Valid()
      modifies this
      ensures Valid()
      ensures var ext := ExtensionOf(filename);
        outcome == (if !IsEmpty(ext) && IsInAvailableImageTypes(ext) then Pass else Fail(InvalidFileExtension))
        && selected == (if outcome.Pass? then Convert(ext, false) else old(selected))
    {
      var extension := ExtensionOf(filename);
      if IsEmpty(extension) {
        return Fail(InvalidFileExtension);
      }
      outcome := SetTypeFromExtension(extension);
    }

    method SetTypeFromExtension(extension: string) returns (outcome: Outcome<ImageTypeError>)
      requires Valid()
      modifies this
      ensures Valid()
      ensures outcome == (if IsInAvailableImageTypes(extension) then Pass else Fail(InvalidFileExtension))
      ensures selected == (if outcome.Pass? && !IsEmpty(extension) then Convert(extension, false)
                           else if outcome.Pass? then ImageTypePng else old(selected))
    {
      if !IsInAvailableImageTypes(extension) {
        return Fail(InvalidFileExtension);
      }
      var result := Set(extension);
      if IsEmpty(extension) {
        assert Convert(ImageTypePng, false) == ImageTypePng by {
          assert 'j' !in ImageTypePng;
          NormaliseWithoutJ(ImageTypePng);
          ConvertForward(ImageTypePng);
        }
      }
      outcome := Pass;
    }

    function GetExtension(): string
      reads this
    {
      Convert(selected, true)
    }

    /** The GD function named after the type, when the environment provides it. */
    method GetFunctionName(functionExists: string -> bool) returns (r: Result<string, ImageTypeError>)
      ensures r == if functionExists("image" + selected) then Success("image" + selected) else Failure(ImageFunctionUnknown)
    {
      var name := "image" + selected;
      if !functionExists(name) {
        return Failure(ImageFunctionUnknown);
      }
      r := Success(name);
    }

    function GetHeaderAttributes(): string
      reads this
    {
      "Content-Type: image/" + Convert(selected, false)
    }
  }

  /** The header names the stored type itself. */
  lemma HeaderNamesSelectedType(selected: string)
    requires selected in AvailableTypes
    ensures "Content-Type: image/" + Convert(selected, false) == "Content-Type: image/" + selected
  {
    ExtensionRoundTrip(selected);
  }

  /**
   * `new ImageType($selected)`: the constructor passes its argument to the
   * same setter as `set`, so an empty type means png and a type that is not
   * available throws and no object exists.
   */
  method NewImageType(t: string) returns (outcome: Outcome<ImageTypeError>, imageType: ImageType?)
    ensures var chosen := if IsEmpty(t) then ImageTypePng else t;
      outcome == (if IsInAvailableImageTypes(chosen) then Pass else Fail(InvalidImageType))
    ensures outcome.Pass? ==>
      imageType != null && fresh(imageType) && imageType.Valid() &&
      imageType.selected == Convert(if IsEmpty(t) then ImageTypePng else t, false)
    ensures outcome.Fail? ==> imageType == null
  {
    imageType := new ImageType();
    outcome := imageType.Set(t);
    if outcome.Fail? {
      imageType := null;
    }
  }
}
