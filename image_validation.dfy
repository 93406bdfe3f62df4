/**
 * The checks an image upload passes before it is stored: its `type` must name a folder, user or bookmark
 * image, and its file name must end in a png, jpg, jpeg or gif extension. Both are case-insensitive
 * regular-expression tests for a whole word.
 */
module ImageValidation {
  import opened Wrappers
  import opened Text

  /** `\w` without the `u` flag: ASCII letters, digits and `_`. */
  predicate IsWordChar(c: char)
  {
    'a' <= c <= 'z' || 'A' <= c <= 'Z' || '0' <= c <= '9' || c == '_'
  }

  /** `\b` before position i: a word character on exactly one side, where outside the string counts as none. */
  predicate Boundary(s: string, i: nat)
    requires i <= |s|
  {
    (0 < i && IsWordChar(s[i - 1])) != (i < |s| && IsWordChar(s[i]))
  }

  /** `\bword\b` matches s at p, the letters of `word` in any ASCII case. */
  predicate WordAt(s: string, p: nat, word: string)
  {
    p + |word| <= |s| && Boundary(s, p) && SameIgnoringCase(s[p..p + |word|], word) && Boundary(s, p + |word|)
  }

  /** Some alternative of `\b(?:w0|w1|...)\b` matches s at p. */
  predicate SomeWordAt(s: string, p: nat, words: seq<string>)
  {
    exists k :: 0 <= k < |words| && WordAt(s, p, words[k])
  }

  /** `\b(?:w0|w1|...)\b` matches somewhere in s. */
  predicate HasWord(s: string, words: seq<string>)
  {
    exists q :: 0 <= q <= |s| && SomeWordAt(s, q, words)
  }

  /** The engine tries the alternatives at p in order, k onwards. */
  function AlternativeFrom(s: string, p: nat, words: seq<string>, k: nat): (r: bool)
    requires k <= |words|
    ensures r <==> exists i :: k <= i < |words| && WordAt(s, p, words[i])
    decreases |words| - k
  {
    k < |words| && (WordAt(s, p, words[k]) || AlternativeFrom(s, p, words, k + 1))
  }

  /** `test` from position p on: the engine tries each start position in turn. */
  function TestFrom(s: string, words: seq<string>, p: nat): (r: bool)
    requires p <= |s|
    ensures r <==> exists q :: p <= q <= |s| && SomeWordAt(s, q, words)
    decreases |s| - p
  {
    assert AlternativeFrom(s, p, words, 0) <==> SomeWordAt(s, p, words);
    if AlternativeFrom(s, p, words, 0) then true
    else if p == |s| then false
    else
      assert forall q :: p <= q <= |s| && SomeWordAt(s, q, words) ==> p + 1 <= q;
      TestFrom(s, words, p + 1)
  }

  /** `/\b(?:w0|w1|...)\b/i.test(s)`. */
  function Test(s: string, words: seq<string>): (r: bool)
    ensures r <==> HasWord(s, words)
  {
    TestFrom(s, words, 0)
  }

  const TypeWords: seq<string> := ["folder", "user", "bookmark"]
  const ImageWords: seq<string> := ["png", "jpg", "jpeg", "gif"]

  /** isValidType: true when `type` holds `folder`, `user` or `bookmark` as a whole word; INVALID_TYPE otherwise. */
  function IsValidType(kind: string): (r: Result<bool>)
    ensures r == Ok(true) || r == Err(InvalidType)
    ensures r.Ok? <==> HasWord(kind, TypeWords)
  {
    if Test(kind, TypeWords) then Ok(true) else Err(InvalidType)
  }

  /** `split('.').pop()`: the text after the last `.`, or the whole name when it has none. */
  function LastSegment(name: string): (r: string)
    ensures |r| <= |name| && name[|name| - |r|..] == r
    ensures forall i :: |name| - |r| <= i < |name| ==> name[i] != '.'
    ensures |r| < |name| ==> name[|name| - |r| - 1] == '.'
    decreases |name|
  {
    if |name| == 0 || name[|name| - 1] == '.' then ""
    else LastSegment(name[..|name| - 1]) + [name[|name| - 1]]
  }

  /** The three properties of LastSegment pin it down: it is the longest dot-free suffix. */
  lemma LastSegmentUnique(name: string, t: string)
    requires |t| <= |name| && name[|name| - |t|..] == t
    requires forall i :: |name| - |t| <= i < |name| ==> name[i] != '.'
    requires |t| < |name| ==> name[|name| - |t| - 1] == '.'
    ensures LastSegment(name) == t
  {
    var r := LastSegment(name);
    assert |r| == |t|;
  }

  /** A name without a dot is its own last segment. */
  lemma NoDotWhole(name: string)
    requires forall i :: 0 <= i < |name| ==> name[i] != '.'
    ensures LastSegment(name) == name
  {
    assert name[|name| - |name|..] == name;
    LastSegmentUnique(name, name);
  }

  /** validateImageType: succeeds when the last dot-separated part of the name holds an image extension as a whole word; INVALID_IMAGE_TYPE otherwise. */
  function ValidateImageType(fileName: string): (r: Result<()>)
    ensures r.Err? ==> r.error == InvalidImageType
    ensures r.Ok? <==> HasWord(LastSegment(fileName), ImageWords)
  {
    if Test(LastSegment(fileName), ImageWords) then Ok(()) else Err(InvalidImageType)
  }

  /** `users` and `bookmarks` are refused: no word boundary follows the keyword. */
  lemma PluralTypesRefused()
    ensures IsValidType("users") == Err(InvalidType)
    ensures IsValidType("bookmarks") == Err(InvalidType)
  {
    var s := "users";
    forall q, k | 0 <= q <= |s| && 0 <= k < |TypeWords|
      ensures !WordAt(s, q, TypeWords[k])
    {
      if k == 1 && q == 0 {
        assert IsWordChar(s[4]) && IsWordChar(s[3]);
      } else if k == 1 && q == 1 {
        assert s[1..5][0] == 's';
      }
    }
    var b := "bookmarks";
    forall q, k | 0 <= q <= |b| && 0 <= k < |TypeWords|
      ensures !WordAt(b, q, TypeWords[k])
    {
      if k == 2 && q == 0 {
        assert IsWordChar(b[8]) && IsWordChar(b[7]);
      } else if k == 2 && q == 1 {
        assert b[1..9][0] == 'o';
      }
    }
  }

  /** A keyword next to a non-word character is a whole word, and case does not matter. */
  lemma TypesAccepted()
    ensures IsValidType("user-x") == Ok(true)
    ensures IsValidType("Folder") == Ok(true)
  {
    var s := "user-x";
    assert s[0..4] == "user" && s[4] == '-';
    assert WordAt(s, 0, TypeWords[1]);
    var f := "Folder";
    assert f[0..6] == "Folder";
    assert WordAt(f, 0, TypeWords[0]);
  }

  /** Only the part after the last dot counts: `photo.png.exe` is refused. */
  lemma InnerExtensionRefused()
    ensures ValidateImageType("photo.png.exe") == Err(InvalidImageType)
  {
    var e := "photo.png.exe";
    assert e[10..] == "exe" && e[9] == '.';
    LastSegmentUnique(e, "exe");
    var t := "exe";
    forall q, k | 0 <= q <= |t| && 0 <= k < |ImageWords|
      ensures !WordAt(t, q, ImageWords[k])
    {
      if q == 0 && k != 2 {
        assert t[0..3][0] == 'e';
      }
    }
  }

  /** A keyword followed by a digit is not a whole word: `x.jpg2` is refused. */
  lemma DigitSuffixRefused()
    ensures ValidateImageType("x.jpg2") == Err(InvalidImageType)
  {
    var x := "x.jpg2";
    assert x[2..] == "jpg2" && x[1] == '.';
    LastSegmentUnique(x, "jpg2");
    var t := "jpg2";
    forall q, k | 0 <= q <= |t| && 0 <= k < |ImageWords|
      ensures !WordAt(t, q, ImageWords[k])
    {
      if k == 1 && q == 0 {
        assert IsWordChar(t[3]) && IsWordChar(t[2]);
      } else if k == 2 && q == 0 {
        assert t[0..4][2] == 'g';
      } else if q == 0 {
        assert t[0..3][0] == 'j';
      } else if q == 1 && k != 2 {
        assert t[1..4][0] == 'p';
      }
    }
  }

  /** An extension in upper case is accepted. */
  lemma UpperCaseExtensionAccepted()
    ensures ValidateImageType("photo.JPEG") == Ok(())
  {
    var j := "photo.JPEG";
    assert j[6..] == "JPEG" && j[5] == '.';
    LastSegmentUnique(j, "JPEG");
    var t := "JPEG";
    assert t[0..4] == t && SameIgnoringCase(t, "jpeg");
    assert WordAt(t, 0, ImageWords[2]);
  }

  /** A name without a dot is inspected whole: `noext-png` is accepted. */
  lemma WholeNameAccepted()
    ensures ValidateImageType("noext-png") == Ok(())
  {
    var n := "noext-png";
    assert forall i :: 0 <= i < |n| ==> n[i] != '.';
    NoDotWhole(n);
    assert n[6..9] == "png" && n[5] == '-';
    assert WordAt(n, 6, ImageWords[0]);
  }
}
