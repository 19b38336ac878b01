/**
  The image-file test of `fetchImages` (script.js:29-33): the name is
  lower-cased, the regular expression `/\.[^.]+$/` picks out its extension
  (a dot followed by one or more non-dot characters up to the end of the
  name), and the name is an image when that extension is one of five.
 */
module Extensions {
  import opened Options
  import opened Strings

  /** The recognised extensions, lower-case and with their dot (script.js:29). */
  const ImageExtensions: seq<string> := [".jpg", ".jpeg", ".png", ".gif", ".webp"]

  /** The position of the last dot of `s`, if it has one. */
  function LastDot(s: string): (r: Option<nat>)
    ensures r.None? ==> forall j :: 0 <= j < |s| ==> s[j] != '.'
    ensures r.Some? ==> r.value < |s| && s[r.value] == '.'
    ensures r.Some? ==> forall j :: r.value < j < |s| ==> s[j] != '.'
  {
    if |s| == 0 then None
    else if s[|s| - 1] == '.' then Some(|s| - 1)
    else LastDot(s[..|s| - 1])
  }

  /**
    The regular expression `/\.[^.]+$/` matches `s` starting at `i`: a dot
    at `i`, at least one character after it, and no dot in what follows.
   */
  predicate MatchesAt(s: string, i: int)
  {
    0 <= i < |s| - 1 && s[i] == '.' && forall j :: i < j < |s| ==> s[j] != '.'
  }

  /** The text `match(/\.[^.]+$/)` returns for `s`, dot included, or `None` when it does not match. */
  function Extension(s: string): (r: Option<string>)
    ensures r.Some? ==> |r.value| <= |s| && MatchesAt(s, |s| - |r.value|) && r.value == s[|s| - |r.value|..]
    ensures r.None? ==> forall i :: !MatchesAt(s, i)
  {
    match LastDot(s)
    case None => None
    case Some(i) => if i + 1 < |s| then Some(s[i..]) else None
  }

  /** The expression can match at one place only, so the leftmost match is the only one. */
  lemma MatchIsUnique(s: string, i: int, j: int)
    requires MatchesAt(s, i) && MatchesAt(s, j)
    ensures i == j
  {
  }

  /**
    A name is an image file when its lower-cased extension is recognised
    (script.js:31-34): equivalently, the expression matches the lower-cased
    name somewhere and the text from there on is one of the five.
   */
  predicate IsImageName(name: string)
    ensures IsImageName(name) <==> exists i :: MatchesAt(Lower(name), i) && Lower(name)[i..] in ImageExtensions
  {
    var l := Lower(name);
    match Extension(l)
    case None => false
    case Some(e) =>
      assert MatchesAt(l, |l| - |e|) && l[|l| - |e|..] == e;
      e in ImageExtensions
  }

  /** Where the expression matches, `Extension` returns exactly the matched text. */
  lemma ExtensionAt(s: string, i: int)
    requires MatchesAt(s, i)
    ensures Extension(s) == Some(s[i..])
  {
    var e := Extension(s);
    MatchIsUnique(s, i, |s| - |e.value|);
  }

  /** Lower-casing never moves, creates or removes a dot, so the expression matches at the same places. */
  lemma MatchesAtLower(s: string, i: int)
    ensures MatchesAt(Lower(s), i) <==> MatchesAt(s, i)
  {
  }

  /** Lower-casing finds the same extension, lower-cased. */
  lemma ExtensionOfLower(s: string)
    ensures Extension(Lower(s)) == Extension(s).Map(Lower)
  {
    var l := Lower(s);
    forall i
      ensures MatchesAt(l, i) <==> MatchesAt(s, i)
    {
      MatchesAtLower(s, i);
    }
    if Extension(s).Some? {
      var i := |s| - |Extension(s).value|;
      LowerSuffix(s, i);
      ExtensionAt(l, i);
    }
  }

  /**
    The test ignores case: a name is an image exactly when it has an
    extension whose lower-case form is recognised, however it is spelled.
   */
  lemma ImageNameIgnoresCase(name: string)
    ensures IsImageName(name) <==> Extension(name).Some? && Lower(Extension(name).value) in ImageExtensions
    ensures IsImageName(name) <==> IsImageName(Lower(name))
  {
    ExtensionOfLower(name);
    ExtensionOfLower(Lower(name));
    assert Lower(Lower(name)) == Lower(name);
  }

  /** A name with no dot at all is never an image (script.js:32-33). */
  lemma NoDotIsNotImage(name: string)
    requires forall j :: 0 <= j < |name| ==> name[j] != '.'
    ensures !IsImageName(name)
  {
    var l := Lower(name);
    assert forall i :: !MatchesAt(l, i);
  }

  /** A name ending in a dot has nothing after its last dot and is never an image (script.js:32-33). */
  lemma TrailingDotIsNotImage(name: string)
    requires |name| > 0 && name[|name| - 1] == '.'
    ensures !IsImageName(name)
  {
    var l := Lower(name);
    assert l[|l| - 1] == '.';
    assert forall i :: !MatchesAt(l, i);
  }

  /** Every image name contains a dot. */
  lemma ImageNameHasDot(name: string)
    requires IsImageName(name)
    ensures exists j :: 0 <= j < |name| && name[j] == '.'
  {
    if forall j :: 0 <= j < |name| ==> name[j] != '.' {
      NoDotIsNotImage(name);
    }
  }

  /** A base without dots followed by `.jpg` is an image name. */
  lemma JpegName(base: string)
    requires forall j :: 0 <= j < |base| ==> base[j] != '.'
    ensures IsImageName(base + ".jpg")
  {
    JpegExtension(base);
    assert ".jpg" == ImageExtensions[0];
  }

  /** The extension of a dot-free base followed by `.jpg`, lower-cased, is `.jpg`. */
  lemma JpegExtension(base: string)
    requires forall j :: 0 <= j < |base| ==> base[j] != '.'
    ensures Extension(Lower(base + ".jpg")) == Some(".jpg")
  {
    var s := base + ".jpg";
    assert MatchesAt(s, |base|) by {
      assert s[|base|..] == ".jpg";
    }
    MatchesAtLower(s, |base|);
    ExtensionAt(Lower(s), |base|);
    assert Lower(s)[|base|..] == ".jpg" by {
      LowerSuffix(s, |base|);
      assert s[|base|..] == ".jpg";
      LowerOfNoCapitals(".jpg");
    }
  }

  /** Only the last extension counts: `a.jpg.txt` is not an image. */
  lemma InnerExtensionIgnored()
    ensures !IsImageName("a.jpg.txt")
  {
    assert Lower("a.jpg.txt") == "a.jpg.txt";
    ExtensionAt("a.jpg.txt", 5);
  }

  /** The test ignores case: `IMG.JPG` is an image. */
  lemma UpperCaseAccepted()
    ensures IsImageName("IMG.JPG")
  {
    assert Lower("IMG.JPG") == "img.jpg";
    ExtensionAt("img.jpg", 3);
  }
}
