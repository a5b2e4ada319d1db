/**
 The image-type classifier `getImageType`: the text after the last `.` of a
 key (what `/\.([^.]*)$/` captures), lower-cased, accepted only if it is
 `jpg` or `png`.
 */
module ImageTypes {
  import opened Wrappers

  /** The supported formats; `Tag` is the string the source returns. */
  datatype ImageType = Jpg | Png {
    function Tag(): string {
      match this
      case Jpg => "jpg"
      case Png => "png"
    }
  }

  /** The index of the last `.` in `key`, if any. */
  function LastDot(key: string): (r: Option<nat>)
    ensures r.None? <==> '.' !in key
    ensures r.Some? ==> r.value < |key| && key[r.value] == '.' && '.' !in key[r.value + 1..]
  {
    if |key| == 0 then None
    else if key[|key| - 1] == '.' then Some(|key| - 1)
    else
      var r := LastDot(key[..|key| - 1]);
      assert forall k :: 0 <= k < |key| - 1 ==> key[..|key| - 1][k] == key[k];
      if r.Some? then
        assert key[r.value + 1..] == key[..|key| - 1][r.value + 1..] + [key[|key| - 1]];
        r
      else
        r
  }

  /** The group the pattern `/\.([^.]*)$/` captures: everything after the
      last `.`, or no match when the key has no `.` at all. */
  function Extension(key: string): (r: Option<string>)
    ensures r.None? <==> '.' !in key
    ensures r.Some? ==> |r.value| < |key| && key[|key| - |r.value| - 1] == '.'
                        && key[|key| - |r.value|..] == r.value && '.' !in r.value
  {
    match LastDot(key)
    case None => None
    case Some(i) => Some(key[i + 1..])
  }

  /** ASCII case folding; no other character lower-cases to a letter of a tag. */
  function LowerChar(c: char): char {
    if 'A' <= c <= 'Z' then (c as int + 32) as char else c
  }

  function ToLower(s: string): (r: string)
    ensures |r| == |s|
  {
    seq(|s|, k requires 0 <= k < |s| => LowerChar(s[k]))
  }

  /** Lower-casing folds exactly the ASCII capitals and keeps every other character. */
  lemma ToLowerFolds(s: string)
    ensures forall k :: 0 <= k < |s| && 'A' <= s[k] <= 'Z' ==> ToLower(s)[k] as int == s[k] as int + 32
    ensures forall k :: 0 <= k < |s| && !('A' <= s[k] <= 'Z') ==> ToLower(s)[k] == s[k]
  {
  }

  /** `getImageType(key)`: `None` stands for the source's `null`. */
  function GetImageType(key: string): (r: Option<ImageType>)
    ensures '.' !in key ==> r.None?
    ensures r.Some? ==> |key| >= 4 && key[|key| - 4] == '.' && ToLower(key[|key| - 3..]) == r.value.Tag()
  {
    match Extension(key)
    case None => None
    case Some(ext) =>
      var lower := ToLower(ext);
      if lower == "jpg" then Some(Jpg)
      else if lower == "png" then Some(Png)
      else None
  }

  /** The match succeeds with capture `ext` exactly when `key` ends in `.`
      followed by `ext` and `ext` holds no `.`. */
  lemma ExtensionIff(key: string, ext: string)
    ensures Extension(key) == Some(ext) <==>
            |ext| < |key| && key[|key| - |ext| - 1] == '.' && key[|key| - |ext|..] == ext && '.' !in ext
  {
    var p := |key| - |ext| - 1;
    if |ext| < |key| && key[p] == '.' && key[|key| - |ext|..] == ext && '.' !in ext {
      var i := LastDot(key).value;
      assert key[p] in key[i + 1..] || i >= p;
      assert key[i] in ext || i <= p;
    }
  }

  /** A letter of a tag as it may be written in a key: itself or its capital. */
  predicate MatchesIgnoringCase(c: char, lower: char) {
    c == lower || c as int + 32 == lower as int
  }

  /** `key` ends in `.` followed by `tag` written in any mix of cases. */
  predicate EndsWithTag(key: string, tag: string) {
    && |key| > |tag|
    && key[|key| - |tag| - 1] == '.'
    && forall k :: 0 <= k < |tag| ==> MatchesIgnoringCase(key[|key| - |tag| + k], tag[k])
  }

  /** The classifier accepts a key as type `t` exactly when the key ends in
      `.` and the tag of `t` in any case (`X.JPG`, `X.Png`, ...). */
  lemma GetImageTypeIff(key: string, t: ImageType)
    ensures GetImageType(key) == Some(t) <==> EndsWithTag(key, t.Tag())
  {
    if GetImageType(key) == Some(t) {
      AcceptedEndsWithTag(key, t);
    }
    if EndsWithTag(key, t.Tag()) {
      TagEndingAccepted(key, t);
    }
  }

  /** An accepted key ends in `.` and its tag, in any case. */
  lemma AcceptedEndsWithTag(key: string, t: ImageType)
    requires GetImageType(key) == Some(t)
    ensures EndsWithTag(key, t.Tag())
  {
    var tag, ext := t.Tag(), key[|key| - 3..];
    assert ToLower(ext) == tag;
    assert forall k :: 0 <= k < 3 ==> LowerChar(ext[k]) == tag[k];
    assert forall k :: 0 <= k < 3 ==> key[|key| - 3 + k] == ext[k];
  }

  /** A key ending in `.` and a tag, in any case, is accepted as that type. */
  lemma TagEndingAccepted(key: string, t: ImageType)
    requires EndsWithTag(key, t.Tag())
    ensures GetImageType(key) == Some(t)
  {
    var tag := t.Tag();
    assert |tag| == 3;
    var ext := key[|key| - 3..];
    assert forall k :: 0 <= k < 3 ==> ext[k] == key[|key| - 3 + k];
    assert forall k :: 0 <= k < 3 ==> 'a' <= tag[k] <= 'z';
    assert forall k :: 0 <= k < 3 ==> MatchesIgnoringCase(ext[k], tag[k]);
    ExtensionIff(key, ext);
    assert ToLower(ext) == tag;
    if t == Png {
      assert ToLower(ext) != "jpg";
    }
  }

  /** Every accepted type is one of the two tags, already in lower case. */
  lemma TagIsLowerCase(t: ImageType)
    ensures t.Tag() == "jpg" || t.Tag() == "png"
    ensures ToLower(t.Tag()) == t.Tag()
  {
  }

  /** A key without any `.` is unsupported. */
  lemma NoDotUnsupported(key: string)
    requires '.' !in key
    ensures GetImageType(key) == None
  {
  }

  /** A key ending in `.` has an empty extension and is unsupported. */
  lemma TrailingDotUnsupported(key: string)
    requires |key| > 0 && key[|key| - 1] == '.'
    ensures GetImageType(key) == None
  {
    ExtensionIff(key, []);
  }

  /** Path text after the last `.` (`a.b/c`) stays in the extension, so such
      a key is unsupported. */
  lemma SlashAfterLastDotUnsupported(prefix: string, ext: string)
    requires '.' !in ext && '/' in ext
    ensures GetImageType(prefix + "." + ext) == None
  {
    var key := prefix + "." + ext;
    assert key[|key| - |ext|..] == ext;
    ExtensionIff(key, ext);
    var k :| 0 <= k < |ext| && ext[k] == '/';
    assert ToLower(ext)[k] == '/';
    UnsupportedExtension(key, ext);
  }

  /** A captured extension that lower-cases to neither tag is unsupported. */
  lemma UnsupportedExtension(key: string, ext: string)
    requires Extension(key) == Some(ext) && ToLower(ext) != "jpg" && ToLower(ext) != "png"
    ensures GetImageType(key) == None
  {
  }

  /** Classifying `prefix + "." + tag` gives the tag back, so the classifier
      is idempotent on its own output. */
  lemma ClassifyOwnTag(prefix: string, t: ImageType)
    ensures GetImageType(prefix + "." + t.Tag()) == Some(t)
  {
    var key := prefix + "." + t.Tag();
    assert key[|key| - 4] == '.';
    assert forall k :: 0 <= k < 3 ==> key[|key| - 3 + k] == t.Tag()[k];
    GetImageTypeIff(key, t);
  }

  /** Concrete cases: upper- and mixed-case tags are accepted, `jpeg` and
      `gif` are not. */
  lemma UpperCaseAccepted()
    ensures GetImageType("X.JPG") == Some(Jpg)
    ensures GetImageType("X.Png") == Some(Png)
  {
    TagEndingAccepted("X.JPG", Jpg);
    TagEndingAccepted("X.Png", Png);
  }

  lemma OtherExtensionsRejected(jpeg: string, gif: string)
    requires jpeg == "X.jpeg" && gif == "X.gif"
    ensures GetImageType(jpeg) == None
    ensures GetImageType(gif) == None
  {
    ExtensionIff(jpeg, "jpeg");
    ExtensionIff(gif, "gif");
    assert ToLower("jpeg") == "jpeg";
    assert ToLower("gif") == "gif";
    UnsupportedExtension(jpeg, "jpeg");
    UnsupportedExtension(gif, "gif");
  }
}
