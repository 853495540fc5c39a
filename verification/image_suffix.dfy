/** `IsImage`: a case-insensitive whitelist of image file suffixes. */
module ImageSuffix {
  import opened GoStrings

  const ImageSuffixes: seq<string> := ["jpg", "jpeg", "png", "gif", "bmp", "webp"]

  /** `s` spells the lower-case ASCII word `w` up to case: each rune is the letter itself,
      its upper-case form, or one of the two non-ASCII runes that lower-case to 'i' and 'k'. */
  predicate SpellsIgnoringCase(s: string, w: string)
  {
    && |s| == |w|
    && forall i :: 0 <= i < |s| ==>
         || s[i] == w[i]
         || s[i] as int == w[i] as int - 32
         || (w[i] == 'i' && s[i] == '\U{0130}')
         || (w[i] == 'k' && s[i] == '\U{212A}')
  }

  predicate LowerAscii(w: string)
  {
    forall i :: 0 <= i < |w| ==> 'a' <= w[i] <= 'z'
  }

  /** A suffix is an image suffix when its lower-case form is on the whitelist. */
  function IsImage(suffix: string): (b: bool)
    ensures b ==> 3 <= |suffix| <= 4
  {
    ToLower(suffix) in ImageSuffixes
  }

  /** Lower-casing gives a lower-case ASCII word exactly when the text spells it up to case. */
  lemma LowerIsWord(s: string, w: string)
    requires LowerAscii(w)
    ensures ToLower(s) == w <==> SpellsIgnoringCase(s, w)
  {
    if SpellsIgnoringCase(s, w) {
      forall i | 0 <= i < |s|
        ensures ToLower(s)[i] == w[i]
      {
        assert ToLower(s)[i] == LowerRune(s[i]);
      }
    }
    if ToLower(s) == w {
      forall i | 0 <= i < |s|
        ensures || s[i] == w[i]
                || s[i] as int == w[i] as int - 32
                || (w[i] == 'i' && s[i] == '\U{0130}')
                || (w[i] == 'k' && s[i] == '\U{212A}')
      {
        assert LowerRune(s[i]) == w[i];
      }
    }
  }

  /** The accepted suffixes are exactly the whitelisted words written in any mix of case. */
  lemma AcceptedSuffixes(s: string)
    ensures IsImage(s) <==> exists w :: w in ImageSuffixes && SpellsIgnoringCase(s, w)
  {
    forall w | w in ImageSuffixes
      ensures ToLower(s) == w <==> SpellsIgnoringCase(s, w)
    {
      LowerIsWord(s, w);
    }
  }

  /** The decision ignores case: a suffix and its lower-case form are judged alike. */
  lemma CaseInsensitive(s: string)
    ensures IsImage(s) == IsImage(ToLower(s))
  {
    LowerIdempotent(s);
  }

  lemma AcceptedExamples()
    ensures IsImage("jpg") && IsImage("JPG") && IsImage("WebP") && IsImage("g\U{0130}f")
  {
    assert ToLower("jpg") == "jpg";
    assert ToLower("JPG") == "jpg";
    assert ToLower("WebP") == "webp";
    assert ToLower("g\U{0130}f") == "gif";
  }

  lemma RejectedExamples()
    ensures !IsImage("") && !IsImage("tiff") && !IsImage(".png") && !IsImage("pgn")
  {
    assert ToLower("tiff")[0] == 't';
    assert ToLower("pgn") == "pgn";
    assert ToLower(".png") == ".png";
  }
}
