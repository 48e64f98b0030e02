/** Ordering two tags by version number rather than by text
    (main.go, `isTagVersionGreater`). */
module TagRanker {
  import opened Text
  import opened VersionCodec

  /** A (major, minor, patch) triple as the comparison reads it. */
  datatype Version = Version(major: int, minor: int, patch: int)

  /** Strict lexicographic order on versions. */
  predicate Below(a: Version, b: Version) {
    || a.major < b.major
    || (a.major == b.major && a.minor < b.minor)
    || (a.major == b.major && a.minor == b.minor && a.patch < b.patch)
  }

  /** The numbers `strconv.Atoi` reads from three pieces; a piece it
      rejects reads as 0, because the comparison drops the error. */
  function Numbers(parts: seq<string>): Version
    requires |parts| == 3
  {
    Version(Atoi(parts[0]), Atoi(parts[1]), Atoi(parts[2]))
  }

  /** `isTagVersionGreater(newTag, oldTag)`. Both tags are cut at the length
      of the NEW tag's prefix (Go panics when the old tag is shorter); the
      answer is `true` when there is no old tag, `false` unless both sides
      have exactly three pieces, and otherwise the strict lexicographic
      comparison of the numbers. */
  function IsTagVersionGreater(newTag: string, oldTag: string): (greater: bool)
    requires oldTag == "" || |ExtractPrefix(newTag)| <= |oldTag|
    ensures oldTag == "" ==> greater
    ensures oldTag != "" ==>
      var cut := |ExtractPrefix(newTag)|;
      (greater <==>
        |Pieces(newTag, cut)| == 3 && |Pieces(oldTag, cut)| == 3 &&
        Below(Numbers(Pieces(oldTag, cut)), Numbers(Pieces(newTag, cut))))
  {
    if oldTag == "" then true
    else
      var cut := |ExtractPrefix(newTag)|;
      var newParts := Pieces(newTag, cut);
      var oldParts := Pieces(oldTag, cut);
      if |newParts| != 3 || |oldParts| != 3 then false
      else if Atoi(newParts[0]) > Atoi(oldParts[0]) then true
      else if Atoi(newParts[0]) < Atoi(oldParts[0]) then false
      else if Atoi(newParts[1]) > Atoi(oldParts[1]) then true
      else if Atoi(newParts[1]) < Atoi(oldParts[1]) then false
      else Atoi(newParts[2]) > Atoi(oldParts[2])
  }

  /** A tag that is well formed relative to its own prefix. */
  predicate WellFormed(tag: string) {
    ValidateTagFormat(tag, ExtractPrefix(tag))
  }

  /** Two well-formed tags that share one prefix. */
  predicate SameScheme(a: string, b: string) {
    WellFormed(a) && WellFormed(b) && ExtractPrefix(a) == ExtractPrefix(b)
  }

  /** The version of a well-formed tag. */
  function VersionOf(tag: string): Version
    requires WellFormed(tag)
  {
    Numbers(Pieces(tag, |ExtractPrefix(tag)|))
  }

  /** On two well-formed tags with one prefix the comparison is the
      version order, not the text order. */
  lemma GreaterIsVersionOrder(newTag: string, oldTag: string)
    requires SameScheme(newTag, oldTag)
    ensures oldTag != ""
    ensures IsTagVersionGreater(newTag, oldTag) <==> Below(VersionOf(oldTag), VersionOf(newTag))
  {
  }

  /** No tag is greater than itself, so re-entering the last tag is refused. */
  lemma GreaterIrreflexive(tag: string)
    requires tag != ""
    ensures !IsTagVersionGreater(tag, tag)
  {
  }

  /** On one scheme, exactly one of: a is greater, b is greater, or the two
      carry the same version. */
  lemma GreaterTrichotomy(a: string, b: string)
    requires SameScheme(a, b)
    ensures IsTagVersionGreater(a, b) ==> !IsTagVersionGreater(b, a)
    ensures IsTagVersionGreater(a, b) || IsTagVersionGreater(b, a) || VersionOf(a) == VersionOf(b)
    ensures VersionOf(a) == VersionOf(b) ==> !IsTagVersionGreater(a, b)
  {
    GreaterIsVersionOrder(a, b);
    GreaterIsVersionOrder(b, a);
  }

  /** On one scheme the comparison is transitive. */
  lemma GreaterTransitive(a: string, b: string, c: string)
    requires SameScheme(a, b) && SameScheme(b, c)
    requires IsTagVersionGreater(a, b) && IsTagVersionGreater(b, c)
    ensures IsTagVersionGreater(a, c)
  {
    GreaterIsVersionOrder(a, b);
    GreaterIsVersionOrder(b, c);
    GreaterIsVersionOrder(a, c);
  }

  /** Two composed tags whose heads have the same length, the new one's
      head free of digits and followed by one: the comparison reads the
      numbers of the pieces after the heads. */
  lemma GreaterAfterHeads(newHead: string, a: string, b: string, c: string,
                          oldHead: string, x: string, y: string, z: string)
    requires NoDigits(newHead) && |newHead| == |oldHead| && a != [] && IsDigit(a[0])
    requires '.' !in a && '.' !in b && '.' !in c && '.' !in x && '.' !in y && '.' !in z
    ensures ExtractPrefix(Compose(newHead, a, b, c)) == newHead
    ensures IsTagVersionGreater(Compose(newHead, a, b, c), Compose(oldHead, x, y, z))
      <==> Below(Version(Atoi(x), Atoi(y), Atoi(z)), Version(Atoi(a), Atoi(b), Atoi(c)))
  {
    assert [a, b, c][1..] == [b, c];
    assert Join([a, b, c], '.')[0] == a[0];
    ExtractPrefixOf(newHead, Join([a, b, c], '.'));
    PiecesOfCompose(newHead, a, b, c);
    PiecesOfCompose(oldHead, x, y, z);
  }

  /** Raising the patch number of a tag whose pieces `Atoi` accepts gives a
      greater tag, even when the major piece opens with a sign (the new
      tag's prefix then takes in the sign, and both tags are cut after it). */
  lemma GreaterWhenPatchRaised(prefix: string, oldHead: string, major: string, minor: string,
                               patch: string, patch': string)
    requires NoDigits(prefix) && |oldHead| == |prefix|
    requires AtoiValid(major) && AtoiValid(minor) && AtoiValid(patch) && AtoiValid(patch')
    requires Atoi(patch) < Atoi(patch')
    ensures |ExtractPrefix(Compose(prefix, major, minor, patch'))| <= |Compose(oldHead, major, minor, patch)|
    ensures IsTagVersionGreater(Compose(prefix, major, minor, patch'), Compose(oldHead, major, minor, patch))
  {
    var next, last := Compose(prefix, major, minor, patch'), Compose(oldHead, major, minor, patch);
    var d := if IsDigit(major[0]) then 0 else 1;
    ReCut(next, prefix, major, minor, patch', d);
    ReCut(last, oldHead, major, minor, patch, d);
    var cut := |prefix| + d;
    assert NoDigits(next[..cut]);
    assert major[d..][0] == major[d];
    AtoiValidHasNoSeparator(minor, '.');
    AtoiValidHasNoSeparator(patch, '.');
    AtoiValidHasNoSeparator(patch', '.');
    AtoiValidHasNoSeparator(major, '.');
    assert '.' !in major[d..];
    GreaterAfterHeads(next[..cut], major[d..], minor, patch', last[..cut], major[d..], minor, patch);
  }

  /** Comparing two tags composed on one digit-free prefix compares the
      numbers read from their pieces. */
  lemma GreaterOfComposed(prefix: string, a: string, b: string, c: string, x: string, y: string, z: string)
    requires NoDigits(prefix) && a != [] && IsDigit(a[0])
    requires '.' !in a && '.' !in b && '.' !in c && '.' !in x && '.' !in y && '.' !in z
    ensures ExtractPrefix(Compose(prefix, a, b, c)) == prefix
    ensures IsTagVersionGreater(Compose(prefix, a, b, c), Compose(prefix, x, y, z))
      <==> Below(Version(Atoi(x), Atoi(y), Atoi(z)), Version(Atoi(a), Atoi(b), Atoi(c)))
  {
    GreaterAfterHeads(prefix, a, b, c, prefix, x, y, z);
  }

  lemma AtoiTen()
    ensures Atoi("10") == 10
  {
    assert AtoiValid("10");
    assert "10"[..1] == "1";
    assert DecimalValue("1") == 1;
    assert DecimalValue("10") == 10;
  }

  /** The regression the repository's tests pin with `g1.9.10` and
      `g1.9.9`, here on any digit-free prefix: a patch number of 10 is
      greater than 9 although `"10"` is smaller than `"9"` as text. */
  lemma NineToTenRegression(prefix: string)
    requires NoDigits(prefix)
    ensures ExtractPrefix(Compose(prefix, "1", "9", "10")) == prefix
    ensures ExtractPrefix(Compose(prefix, "1", "9", "9")) == prefix
    ensures IsTagVersionGreater(Compose(prefix, "1", "9", "10"), Compose(prefix, "1", "9", "9"))
    ensures !IsTagVersionGreater(Compose(prefix, "1", "9", "9"), Compose(prefix, "1", "9", "10"))
  {
    AtoiTen();
    GreaterOfComposed(prefix, "1", "9", "10", "1", "9", "9");
    GreaterOfComposed(prefix, "1", "9", "9", "1", "9", "10");
  }

  /** A greater major number wins over smaller minor and patch numbers
      (`dev2.0.0` over `dev1.9.9` in the tests). */
  lemma MajorDecides(prefix: string)
    requires NoDigits(prefix)
    ensures ExtractPrefix(Compose(prefix, "2", "0", "0")) == prefix
    ensures IsTagVersionGreater(Compose(prefix, "2", "0", "0"), Compose(prefix, "1", "9", "9"))
  {
    GreaterOfComposed(prefix, "2", "0", "0", "1", "9", "9");
  }

  /** A smaller patch number is not greater (`v1.0.0` against `v1.0.1`). */
  lemma SmallerPatchIsNotGreater(prefix: string)
    requires NoDigits(prefix)
    ensures ExtractPrefix(Compose(prefix, "1", "0", "0")) == prefix
    ensures !IsTagVersionGreater(Compose(prefix, "1", "0", "0"), Compose(prefix, "1", "0", "1"))
  {
    GreaterOfComposed(prefix, "1", "0", "0", "1", "0", "1");
  }

  /** A piece that `strconv.Atoi` rejects reads as 0 instead of making
      the comparison fail: `v1.a.3` counts as greater than `v1.0.2`. */
  lemma NonNumericPieceReadsAsZero(prefix: string)
    requires NoDigits(prefix)
    ensures ExtractPrefix(Compose(prefix, "1", "a", "3")) == prefix
    ensures IsTagVersionGreater(Compose(prefix, "1", "a", "3"), Compose(prefix, "1", "0", "2"))
  {
    GreaterOfComposed(prefix, "1", "a", "3", "1", "0", "2");
    assert !AtoiValid("a");
  }
}
