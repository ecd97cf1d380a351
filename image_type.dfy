/**
 * The image type of a decoded key (processImage.ts:33-44,
 * processDelete.ts:26-37): `key.match(/\.([^.]*)$/)` takes the text after
 * the last '.', which is then lower-cased and must be "jpeg" or "png".
 */
module ImageType {
  import opened Wrappers

  /** The position of the last '.' in s. */
  function LastDot(s: string): (r: Option<nat>)
    ensures r.Some? ==> r.value < |s| && s[r.value] == '.'
    ensures r.Some? ==> forall j :: r.value < j < |s| ==> s[j] != '.'
    ensures r.None? ==> forall j :: 0 <= j < |s| ==> s[j] != '.'
    decreases |s|
  {
    if s == [] then None
    else if s[|s| - 1] == '.' then Some(|s| - 1)
    else LastDot(s[..|s| - 1])
  }

  /** The capture group of `/\.([^.]*)$/`, or `None` where the match is null. */
  function TypeSuffix(key: string): (r: Option<string>)
    ensures r.None? <==> '.' !in key
    ensures r.Some? ==> '.' !in r.value && |r.value| < |key|
    ensures r.Some? ==> key[|key| - |r.value| - 1] == '.' && key[|key| - |r.value|..] == r.value
  {
    match LastDot(key)
    case None => None
    case Some(i) =>
      var ext := key[i + 1..];
      assert forall j :: 0 <= j < |ext| ==> ext[j] == key[i + 1 + j];
      Some(ext)
  }

  function LowerChar(c: char): char {
    if 'A' <= c <= 'Z' then (c as int + 32) as char else c
  }

  /** `toLowerCase` on the ASCII letters; every other character is kept. */
  function Lower(s: string): (r: string)
    ensures |r| == |s|
    ensures forall i :: 0 <= i < |s| ==> r[i] == LowerChar(s[i])
  {
    if s == [] then [] else [LowerChar(s[0])] + Lower(s[1..])
  }

  datatype Verdict = Accept(imageType: string) | NoExtension | Unsupported(imageType: string)

  /** Whether the key names an image the pipeline accepts, and of which type. */
  function Classify(key: string): (v: Verdict)
    ensures v.NoExtension? <==> '.' !in key
    ensures v.Accept? ==> v.imageType == "jpeg" || v.imageType == "png"
    ensures v.Unsupported? ==> v.imageType != "jpeg" && v.imageType != "png"
  {
    match TypeSuffix(key)
    case None => NoExtension
    case Some(ext) =>
      var t := Lower(ext);
      if t == "jpeg" || t == "png" then Accept(t) else Unsupported(t)
  }

  /** The type is decided by the text after the last '.' alone, ignoring ASCII case. */
  lemma ClassifyBySuffix(stem: string, ext: string)
    requires '.' !in ext
    ensures Classify(stem + "." + ext) ==
      if Lower(ext) == "jpeg" || Lower(ext) == "png" then Accept(Lower(ext)) else Unsupported(Lower(ext))
  {
    var key := stem + "." + ext;
    assert key[|stem|] == '.';
    assert forall j :: |stem| < j < |key| ==> key[j] == ext[j - |stem| - 1];
    var i := LastDot(key).value;
    assert i == |stem|;
    assert key[i + 1..] == ext;
  }

  /** Only the lower-case forms "jpeg" and "png" are accepted, in any ASCII case. */
  lemma AcceptedSpellings(stem: string, ext: string)
    requires '.' !in ext
    ensures Classify(stem + "." + ext).Accept? <==> Lower(ext) == "jpeg" || Lower(ext) == "png"
  {
    ClassifyBySuffix(stem, ext);
  }

  /** A suffix with no upper-case letter is compared with the allow-list as it is. */
  lemma LowerCaseSuffix(stem: string, ext: string)
    requires '.' !in ext
    requires forall i :: 0 <= i < |ext| ==> !('A' <= ext[i] <= 'Z')
    ensures Classify(stem + "." + ext) == if ext == "jpeg" || ext == "png" then Accept(ext) else Unsupported(ext)
  {
    ClassifyBySuffix(stem, ext);
    assert Lower(ext) == ext;
  }

  /** Whatever comes before it, and however many dots that holds, ".PNG" is accepted. */
  lemma UpperCaseAccepted(stem: string)
    ensures Classify(stem + ".PNG") == Accept("png")
  {
    ClassifyBySuffix(stem, "PNG");
    assert stem + "." + "PNG" == stem + ".PNG";
    var t := Lower("PNG");
    assert t[0] == 'p' && t[1] == 'n' && t[2] == 'g';
    assert t == "png";
  }

  /** ".jpg" is not on the allow-list: only "jpeg" and "png" are. */
  lemma JpgRejected(stem: string)
    ensures Classify(stem + "." + "jpg") == Unsupported("jpg")
  {
    LowerCaseSuffix(stem, "jpg");
  }

  /** A key ending in '.' has the empty type, which is rejected. */
  lemma EmptySuffixRejected(stem: string)
    ensures Classify(stem + ".") == Unsupported("")
  {
    ClassifyBySuffix(stem, "");
    assert stem + "." + "" == stem + ".";
  }
}
