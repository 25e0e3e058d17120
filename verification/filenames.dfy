/** File-name rules of the batch: the JPEG filter of `handleFiles`
    (app.js:107), `sanitizeFilename` (app.js:504-506) and the archive entry
    name derived from a photo's file name (app.js:145). */
module FileNames {
  import opened Wrappers
  import opened Text

  /** `/jpe?g$/i`: the name ends in `jpg` or `jpeg` in any ASCII case. No dot
      is required before the suffix. */
  predicate IsJpegName(name: string) {
    EndsWithIgnoringCase(name, "jpg") || EndsWithIgnoringCase(name, "jpeg")
  }

  /** The characters `sanitizeFilename` keeps: `[A-Za-z0-9\-_.]`. */
  predicate IsSafeChar(c: char) {
    ('a' <= c <= 'z') || ('A' <= c <= 'Z') || ('0' <= c <= '9') || c == '-' || c == '_' || c == '.'
  }

  predicate AllSafe(s: string) {
    forall i :: 0 <= i < |s| ==> IsSafeChar(s[i])
  }

  /** `sanitizeFilename`: every character outside the safe set becomes `_`. */
  function SanitizeFilename(name: string): (r: string)
    ensures |r| == |name|
    ensures AllSafe(r)
    ensures forall i :: 0 <= i < |name| ==> (r[i] == name[i] <==> IsSafeChar(name[i]))
    ensures forall i :: 0 <= i < |name| && !IsSafeChar(name[i]) ==> r[i] == '_'
  {
    if name == [] then []
    else [if IsSafeChar(name[0]) then name[0] else '_'] + SanitizeFilename(name[1..])
  }

  /** Sanitizing twice is sanitizing once. */
  lemma SanitizeIdempotent(name: string)
    ensures SanitizeFilename(SanitizeFilename(name)) == SanitizeFilename(name)
  {
  }

  /** A name is left unchanged exactly when it is already safe. */
  lemma SanitizeFixedPoints(name: string)
    ensures SanitizeFilename(name) == name <==> AllSafe(name)
  {
  }

  /** Where `/\.[^.]+$/` matches: a dot followed by at least one character,
      none of them a dot, up to the end of the name. */
  predicate ExtensionAt(name: string, i: int) {
    0 <= i && i + 1 < |name| && name[i] == '.' &&
    forall j :: i < j < |name| ==> name[j] != '.'
  }

  /** `name.replace(/\.[^.]+$/, '')`: drops the final extension, if the name
      has one. */
  function StripExtension(name: string): (r: string)
    ensures r <= name
    ensures r != name <==> exists i :: ExtensionAt(name, i)
    ensures r != name ==> ExtensionAt(name, |r|)
  {
    match LastIndexOf(name, '.')
    case Some(i) =>
      assert forall j :: i < j < |name| ==> name[j] == name[i + 1..][j - i - 1];
      if i + 1 < |name| then
        assert ExtensionAt(name, i);
        name[..i]
      else
        assert forall k :: !ExtensionAt(name, k);
        name
    case None => name
  }

  /** The regular expression matches at one position at most. */
  lemma ExtensionUnique(name: string, i: int, j: int)
    requires ExtensionAt(name, i) && ExtensionAt(name, j)
    ensures i == j
  {
  }

  /** The archive entry name for a photo (app.js:145): extension stripped,
      sanitized, then `.kml` appended. */
  function EntryName(fileName: string): (r: string)
    ensures |r| >= 4 && r[|r| - 4..] == ".kml"
    ensures AllSafe(r)
    ensures |r| == |StripExtension(fileName)| + 4 <= |fileName| + 4
    ensures forall i :: 0 <= i < |r| - 4 && IsSafeChar(fileName[i]) ==> r[i] == fileName[i]
  {
    var stem := SanitizeFilename(StripExtension(fileName));
    assert AllSafe(".kml");
    stem + ".kml"
  }

  /** The entry name of `a b.jpg`: the extension goes, the space becomes `_`. */
  lemma EntryNameWithSpace()
    ensures EntryName("a b.jpg") == "a_b.kml"
  {
    assert LastIndexOf("a b.jpg", '.') == Some(3);
    assert StripExtension("a b.jpg") == "a b";
    assert SanitizeFilename("a b") == "a_b";
  }

  /** The entry name of `a_b.JPEG`: the extension goes, the rest is safe. */
  lemma EntryNameWithUnderscore()
    ensures EntryName("a_b.JPEG") == "a_b.kml"
  {
    assert LastIndexOf("a_b.JPEG", '.') == Some(3);
    assert StripExtension("a_b.JPEG") == "a_b";
    assert SanitizeFilename("a_b") == "a_b";
  }

  /** Two different photos can share one entry name; nothing disambiguates
      them, so the later archive write replaces the earlier one. */
  lemma EntryNamesCollide()
    ensures "a b.jpg" != "a_b.JPEG"
    ensures EntryName("a b.jpg") == EntryName("a_b.JPEG") == "a_b.kml"
  {
    EntryNameWithSpace();
    EntryNameWithUnderscore();
  }

  /** The JPEG filter needs no dot: `xjpg` passes, `photo.JPEG` passes and
      `photo.jpg.png` does not. */
  lemma JpegFilterExamples()
    ensures IsJpegName("xjpg") && IsJpegName("photo.JPEG")
    ensures !IsJpegName("photo.jpg.png")
  {
    assert AsciiLower('E') == 'e';
    assert AsciiLower('G') == 'g';
    assert AsciiLower('J') == 'j';
    assert AsciiLower('P') == 'p';
    var other := "photo.jpg.png";
    assert AsciiLower(other[|other| - 3 + 0]) != "jpg"[0];
    assert AsciiLower(other[|other| - 4 + 0]) != "jpeg"[0];
  }
}
