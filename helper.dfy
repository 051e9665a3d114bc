/**
 * The file-name helpers of GifMotion/Helper.cs: the extension of a path and
 * whether it names an image. A C# `string` that may be null is an
 * `Option<string>`, with `None` for null.
 */
module Helper {
  import opened Wrappers

  /** The extensions `IsImage` accepts, in the order the table lists them. */
  const ImageFileExtensions: seq<string> := ["jpg", "jpeg", "png", "apng", "gif", "bmp", "ico", "tif", "tiff"]

  /** `string.LastIndexOf(char)`: the position of the last `c` in `s`, or -1 when there is none. */
  function LastIndexOf(s: string, c: char): (pos: int)
    ensures -1 <= pos < |s|
    ensures pos == -1 <==> c !in s
    ensures 0 <= pos ==> s[pos] == c
    ensures forall j :: pos < j < |s| ==> s[j] != c
  {
    LastIndexBefore(s, c, |s|)
  }

  /** The position of the last `c` among the first `n` characters of `s`, or -1. */
  function LastIndexBefore(s: string, c: char, n: nat): (pos: int)
    requires n <= |s|
    ensures -1 <= pos < n
    ensures 0 <= pos ==> s[pos] == c
    ensures forall j :: pos < j < n ==> s[j] != c
    decreases n
  {
    if n == 0 then -1
    else if s[n - 1] == c then n - 1
    else LastIndexBefore(s, c, n - 1)
  }

  /**
   * The text after the last '.' of `filePath`; null for a null or empty
   * path and for a path without a '.'.
   */
  function GetFilenameExtension(filePath: Option<string>): (ext: Option<string>)
    ensures ext.Some? ==> filePath.Some? && '.' !in ext.value && |ext.value| < |filePath.value|
    ensures ext.Some? ==> var path := filePath.value;
      path[|path| - |ext.value| - 1] == '.' && path[|path| - |ext.value|..] == ext.value
  {
    if filePath.Some? && |filePath.value| > 0 then
      var pos := LastIndexOf(filePath.value, '.');
      if pos >= 0 then
        var ext := filePath.value[pos + 1..];
        assert |filePath.value| - |ext| - 1 == pos;
        assert forall k :: 0 <= k < |ext| ==> ext[k] == filePath.value[pos + 1 + k];
        Some(ext)
      else None
    else None
  }

  /**
   * A path has an extension exactly when it is not null and contains a '.':
   * a null or empty path and a path without '.' have none.
   */
  lemma ExtensionExistsIffDot(filePath: Option<string>)
    ensures GetFilenameExtension(filePath).Some? <==> filePath.Some? && '.' in filePath.value
  {
  }

  /**
   * An extension is what follows the last '.': the path splits into a
   * prefix, a '.' and the extension, and the extension holds no '.'.
   */
  lemma ExtensionAfterLastDot(path: string)
    requires GetFilenameExtension(Some(path)).Some?
    ensures var ext := GetFilenameExtension(Some(path)).value;
      && '.' !in ext
      && exists prefix :: path == prefix + "." + ext
  {
    var pos := LastIndexOf(path, '.');
    var ext := path[pos + 1..];
    assert path == path[..pos] + "." + ext;
  }

  /**
   * The converse: whatever precedes the last '.', the text after it is the
   * extension, so every dot-free text is the extension of some path.
   */
  lemma {:induction false} ExtensionOfJoin(prefix: string, ext: string)
    requires '.' !in ext
    ensures GetFilenameExtension(Some(prefix + "." + ext)) == Some(ext)
  {
    var path := prefix + "." + ext;
    assert path[|prefix|] == '.';
    assert path[|prefix| + 1..] == ext;
  }

  /** A path ending in '.' has the empty extension. */
  lemma TrailingDotExample()
    ensures GetFilenameExtension(Some("photo.")) == Some("")
  {
    ExtensionOfJoin("photo", "");
  }

  /** The text after the last '.' is the extension even when it holds a '/'. */
  lemma SlashAfterDotExample()
    ensures GetFilenameExtension(Some("a.b/c")) == Some("b/c")
  {
    ExtensionOfJoin("a", "b/c");
  }

  /** Only the last of several dots counts. */
  lemma LastDotExample()
    ensures GetFilenameExtension(Some("archive.tar.gz")) == Some("gz")
  {
    ExtensionOfJoin("archive.tar", "gz");
  }

  /** ASCII upper-case letters fold to lower case; every other character is left as it is. */
  function ToLower(c: char): (l: char)
    ensures 'A' <= c <= 'Z' ==> l as int == c as int + 32
    ensures !('A' <= c <= 'Z') ==> l == c
    ensures !('A' <= l <= 'Z')
  {
    if 'A' <= c <= 'Z' then (c as int + 32) as char else c
  }

  /** `s` with every character folded by `ToLower`. */
  function Lowered(s: string): (l: string)
    ensures |l| == |s|
    ensures forall i :: 0 <= i < |s| ==> l[i] == ToLower(s[i])
  {
    if |s| == 0 then "" else Lowered(s[..|s| - 1]) + [ToLower(s[|s| - 1])]
  }

  /**
   * `string.Equals` with a case-insensitive comparison, folding ASCII
   * letters only: the two strings are equal once both are folded.
   */
  function EqualsIgnoreCase(a: string, b: string): (r: bool)
    ensures r <==> Lowered(a) == Lowered(b)
  {
    var r := |a| == |b| && forall i :: 0 <= i < |a| ==> ToLower(a[i]) == ToLower(b[i]);
    assert r ==> Lowered(a) == Lowered(b);
    r
  }

  /** Case-insensitive equality is an equivalence relation that contains plain equality. */
  lemma EqualsIgnoreCaseEquivalence(a: string, b: string, c: string)
    ensures EqualsIgnoreCase(a, a)
    ensures EqualsIgnoreCase(a, b) ==> EqualsIgnoreCase(b, a)
    ensures EqualsIgnoreCase(a, b) && EqualsIgnoreCase(b, c) ==> EqualsIgnoreCase(a, c)
  {
  }

  /** LINQ's `extensions.Any(x => ext.Equals(x, ...IgnoreCase))`, entry by entry from the front. */
  function AnyMatches(ext: string, extensions: seq<string>): (b: bool)
    ensures b <==> exists i :: 0 <= i < |extensions| && EqualsIgnoreCase(ext, extensions[i])
  {
    if |extensions| == 0 then false
    else if EqualsIgnoreCase(ext, extensions[0]) then true
    else
      var rest := AnyMatches(ext, extensions[1..]);
      assert forall i :: 1 <= i < |extensions| ==> extensions[i] == extensions[1..][i - 1];
      rest
  }

  /** Whether `filePath` has a non-empty extension that one of `extensions` equals, ignoring case. */
  function CheckExtension(filePath: Option<string>, extensions: seq<string>): (b: bool)
    ensures b <==> var ext := GetFilenameExtension(filePath);
      && ext.Some? && ext.value != ""
      && exists i :: 0 <= i < |extensions| && EqualsIgnoreCase(ext.value, extensions[i])
  {
    var ext := GetFilenameExtension(filePath);
    ext.Some? && |ext.value| > 0 && AnyMatches(ext.value, extensions)
  }

  /**
   * `CheckExtension` is true exactly when the path has a non-empty
   * extension and some entry equals it ignoring case: a null or empty
   * path, a path without '.', and a path ending in '.' never pass.
   */
  lemma CheckExtensionIff(filePath: Option<string>, extensions: seq<string>)
    ensures CheckExtension(filePath, extensions) <==>
      && filePath.Some? && '.' in filePath.value
      && var ext := GetFilenameExtension(filePath).value;
         && ext != ""
         && exists i :: 0 <= i < |extensions| && EqualsIgnoreCase(ext, extensions[i])
  {
    ExtensionExistsIffDot(filePath);
  }

  /**
   * `filePath` is not null, contains a '.', and its extension is non-empty
   * and, folded to lower case, one of the table's entries.
   */
  predicate ImageExtension(filePath: Option<string>)
  {
    && filePath.Some? && '.' in filePath.value
    && var ext := GetFilenameExtension(filePath);
       && ext.Some? && ext.value != ""
       && exists i :: 0 <= i < |ImageFileExtensions| && Lowered(ext.value) == ImageFileExtensions[i]
  }

  /** Whether `filePath` names an image, judged by its extension alone. */
  function IsImage(filePath: Option<string>): (b: bool)
    ensures b ==> ImageExtension(filePath)
  {
    ImageExtensionListed(filePath);
    CheckExtension(filePath, ImageFileExtensions)
  }

  /** An extension that passes the table's check is, folded, one of its entries. */
  lemma ImageExtensionListed(filePath: Option<string>)
    ensures CheckExtension(filePath, ImageFileExtensions) ==> ImageExtension(filePath)
  {
    if CheckExtension(filePath, ImageFileExtensions) {
      ExtensionExistsIffDot(filePath);
      var ext := GetFilenameExtension(filePath).value;
      var i :| 0 <= i < |ImageFileExtensions| && EqualsIgnoreCase(ext, ImageFileExtensions[i]);
      ListedExtensionsLowered(i);
    }
  }

  /** Every entry of the table is already folded to lower case and holds no '.'. */
  lemma ListedExtensionsLowered(i: int)
    requires 0 <= i < |ImageFileExtensions|
    ensures Lowered(ImageFileExtensions[i]) == ImageFileExtensions[i]
    ensures ImageFileExtensions[i] != "" && '.' !in ImageFileExtensions[i]
  {
    var e := ImageFileExtensions[i];
    assert forall j :: 0 <= j < |e| ==> 'a' <= e[j] <= 'z';
    assert Lowered(e) == e;
  }

  /**
   * Conversely, any path whose extension is one of the table's entries, in
   * any case, names an image.
   */
  lemma ListedExtensionIsImage(prefix: string, ext: string, i: int)
    requires 0 <= i < |ImageFileExtensions|
    requires Lowered(ext) == ImageFileExtensions[i]
    ensures IsImage(Some(prefix + "." + ext))
  {
    ListedExtensionsLowered(i);
    assert '.' !in ext;
    ExtensionOfJoin(prefix, ext);
    assert EqualsIgnoreCase(ext, ImageFileExtensions[i]);
  }

  /** The extension of "x.JPG" is "JPG". */
  lemma UpperCaseJpgExtension()
    ensures GetFilenameExtension(Some("x.JPG")) == Some("JPG")
  {
    ExtensionOfJoin("x", "JPG");
    assert "x" + "." + "JPG" == "x.JPG";
  }

  /** "JPG" matches the table's "jpg" once case is ignored. */
  lemma UpperCaseJpgListed()
    ensures AnyMatches("JPG", ImageFileExtensions)
  {
    assert ToLower('J') == 'j' && ToLower('P') == 'p' && ToLower('G') == 'g';
    assert EqualsIgnoreCase("JPG", ImageFileExtensions[0]);
  }

  /** An image path is recognised whatever the case of its extension. */
  lemma IsImageExample()
    ensures IsImage(Some("x.JPG"))
  {
    UpperCaseJpgExtension();
    UpperCaseJpgListed();
  }

  /** A compressed archive is not an image: only its last extension, "gz", is looked up. */
  lemma IsNotImageExample()
    ensures !IsImage(Some("x.tar.gz"))
  {
    GzExtension();
    GzNotListed();
  }

  /** The extension of "x.tar.gz" is "gz". */
  lemma GzExtension()
    ensures GetFilenameExtension(Some("x.tar.gz")) == Some("gz")
  {
    ExtensionOfJoin("x.tar", "gz");
    assert "x.tar" + "." + "gz" == "x.tar.gz";
  }

  /** "gz", folded, is none of the table's entries: no entry has two characters. */
  lemma GzNotListed()
    ensures forall i :: 0 <= i < |ImageFileExtensions| ==> Lowered("gz") != ImageFileExtensions[i]
  {
    assert |Lowered("gz")| == 2;
    forall i | 0 <= i < |ImageFileExtensions|
      ensures |ImageFileExtensions[i]| != 2
    {
    }
  }

  /** A path ending in '.' is not an image. */
  lemma TrailingDotNotImage()
    ensures !IsImage(Some("x."))
  {
    ExtensionOfJoin("x", "");
  }
}
