/** The whitelist of image containers the pipeline is willing to re-encode. */
module ImageFormat {
  import opened Wrappers
  import opened Text
  import opened NodePath

  /** Extensions accepted after lower-casing; the comparison is exact. */
  const SupportedImageFormats: seq<string> := [".jpg", ".jpeg", ".png", ".webp", ".tiff", ".tif"]

  /** `isSupportedImageFormat(filePath)`: the lower-cased extension is listed. */
  predicate IsSupportedImageFormat(path: string) {
    ToLowerCase(Extname(path)) in SupportedImageFormats
  }

  /** Two strings are equal up to the case of ASCII letters in the first. */
  predicate MatchesIgnoringCase(e: string, f: string) {
    |e| == |f| && forall i :: 0 <= i < |e| ==> e[i] == f[i] || e[i] == AsciiUpperChar(f[i])
  }

  /** Characters of the listed extensions: '.' and lower-case ASCII letters other than 'k'. */
  predicate PlainExtChar(c: char) {
    c == '.' || (IsAsciiLower(c) && c != 'k')
  }

  /**
   * For a target made of '.' and lower-case letters other than 'k', full
   * lower-casing hits the target exactly when the input spells it in any mix
   * of ASCII case; no other character lower-cases onto such a target.
   */
  lemma {:induction false} LowerEqualsIffMatches(e: string, f: string)
    requires forall i :: 0 <= i < |f| ==> PlainExtChar(f[i])
    ensures ToLowerCase(e) == f <==> MatchesIgnoringCase(e, f)
  {
    if e == [] {
    } else if f == [] {
      assert |ToLowerCase(e)| >= 1;
    } else {
      var c := e[0];
      var l := LowerChar(c);
      LowerEqualsIffMatches(e[1..], f[1..]);
      assert ToLowerCase(e) == l + ToLowerCase(e[1..]);
      if ToLowerCase(e) == f {
        assert forall i :: 0 <= i < |l| ==> l[i] == f[i];
        assert forall i :: 0 <= i < |l| ==> PlainExtChar(l[i]);
        assert PlainExtChar(l[|l| - 1]);
        if c == CapitalIWithDot {
          assert false;
        }
        assert ToLowerCase(e[1..]) == f[1..];
        assert MatchesIgnoringCase(e, f) by {
          forall i | 0 <= i < |e|
            ensures e[i] == f[i] || e[i] == AsciiUpperChar(f[i])
          {
            if i > 0 {
              assert e[i] == e[1..][i - 1];
            }
          }
        }
      }
      if MatchesIgnoringCase(e, f) {
        assert MatchesIgnoringCase(e[1..], f[1..]) by {
          forall i | 0 <= i < |e[1..]|
            ensures e[1..][i] == f[1..][i] || e[1..][i] == AsciiUpperChar(f[1..][i])
          {
            assert e[1..][i] == e[i + 1];
          }
        }
        assert l == [f[0]];
        assert f == [f[0]] + f[1..];
      }
    }
  }

  /**
   * The gate as a reference check: the path's extension spells one of the six
   * listed extensions, ignoring ASCII case.
   */
  lemma SupportedIffListedIgnoringCase(path: string)
    ensures IsSupportedImageFormat(path) <==>
      exists k :: 0 <= k < |SupportedImageFormats| && MatchesIgnoringCase(Extname(path), SupportedImageFormats[k])
  {
    var e := Extname(path);
    forall k | 0 <= k < |SupportedImageFormats|
      ensures ToLowerCase(e) == SupportedImageFormats[k] <==> MatchesIgnoringCase(e, SupportedImageFormats[k])
    {
      var f := SupportedImageFormats[k];
      assert forall i :: 0 <= i < |f| ==> PlainExtChar(f[i]);
      LowerEqualsIffMatches(e, f);
    }
  }

  /** Upper-casing the ASCII letters of a path never changes the verdict. */
  lemma SupportIsCaseInsensitive(path: string)
    ensures IsSupportedImageFormat(AsciiUpper(path)) == IsSupportedImageFormat(path)
  {
    var e := Extname(path);
    var u := AsciiUpper(path);
    ExtnameOfAsciiUpper(path);
    assert Extname(u) == AsciiUpper(e);
    LowerOfUpper(e);
    assert ToLowerCase(Extname(u)) == ToLowerCase(e);
  }

  /** The encoders the pipeline selects by extension. */
  datatype Encoder = Jpeg | Png | Webp | Tiff

  /** The branch chain that picks the output encoder from the lower-cased extension. */
  function EncoderFor(path: string): (enc: Option<Encoder>)
    ensures enc.Some? <==> IsSupportedImageFormat(path)
  {
    var ext := ToLowerCase(Extname(path));
    if ext == ".jpg" || ext == ".jpeg" then Some(Jpeg)
    else if ext == ".png" then Some(Png)
    else if ext == ".webp" then Some(Webp)
    else if ext == ".tiff" || ext == ".tif" then Some(Tiff)
    else None
  }

  /**
   * For a plain file name (a dot-free stem and one extension), the verdict
   * depends on the extension alone.
   */
  lemma SupportDependsOnExtension(stem: string, ext: string)
    requires stem != [] && Lacks(stem, '.')
    requires ext != [] && ext[0] == '.' && Lacks(ext[1..], '.')
    requires Lacks(stem + ext, '/')
    ensures IsSupportedImageFormat(stem + ext) <==> ToLowerCase(ext) in SupportedImageFormats
  {
    ExtnameOfStem(stem, ext);
  }

  /**
   * A dot file, such as ".jpg" or ".png", has no extension, so it is not an
   * image, whatever follows the dot.
   */
  lemma DotFileIsNotAnImage(e: string)
    requires Lacks(e, '.') && Lacks(e, '/')
    ensures !IsSupportedImageFormat("." + e)
  {
    var name := "." + e;
    assert name[1..] == e;
    assert Lacks(name, '/') by {
      forall i | 0 <= i < |name|
        ensures name[i] != '/'
      {
        if i > 0 {
          assert name[i] == e[i - 1];
        }
      }
    }
    DotFileHasNoExtension(name);
    assert ToLowerCase("") == "";
  }

  /** No listed extension has an 'm' as its third character. */
  lemma NotListed(e: string)
    requires |e| >= 3 && e[2] == 'm'
    ensures e !in SupportedImageFormats
  {
  }
}
