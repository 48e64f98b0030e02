/** The suggested next tag: the last tag with its patch number raised by
    one (main.go, `calculateNextTag`). */
module NextVersion {
  import opened Text
  import opened VersionCodec
  import opened TagRanker

  /** The tag `calculateNextTag(lastTag, tagFormat)` suggests: the format
      itself when there is no last tag or the last tag's version part is not
      three `Atoi`-valid pieces; otherwise the format's prefix, the major and
      minor text unchanged, and the patch number plus one. The version part
      is taken after as many characters as the format's prefix has, whatever
      those characters are (Go panics when the last tag is shorter). */
  function NextTag(lastTag: string, tagFormat: string): string
    requires lastTag == "" || |ExtractPrefix(tagFormat)| <= |lastTag|
  {
    if lastTag == "" then tagFormat
    else
      var prefix := ExtractPrefix(tagFormat);
      var parts := Pieces(lastTag, |prefix|);
      if !ThreeNumbers(parts) then tagFormat
      else Compose(prefix, parts[0], parts[1], Itoa(Atoi(parts[2]) + 1))
  }

  /** `calculateNextTag`: checks the pieces one by one, then overwrites the
      patch piece and joins the pieces again. */
  method CalculateNextTag(lastTag: string, tagFormat: string) returns (next: string)
    requires lastTag == "" || |ExtractPrefix(tagFormat)| <= |lastTag|
    ensures next == NextTag(lastTag, tagFormat)
  {
    if lastTag == "" {
      return tagFormat;
    }
    var prefix := ExtractPrefix(tagFormat);
    var parts := Split(lastTag[|prefix|..], '.');
    if |parts| != 3 {
      return tagFormat;
    }
    for k := 0 to |parts|
      invariant forall j :: 0 <= j < k ==> AtoiValid(parts[j])
    {
      if !AtoiValid(parts[k]) {
        return tagFormat;
      }
    }
    NextTagJoins(lastTag, tagFormat);
    var lastPart := Atoi(parts[2]);
    parts := parts[2 := Itoa(lastPart + 1)];
    next := prefix + Join(parts, '.');
  }

  /** With three valid pieces the suggestion is the pieces, patch replaced,
      joined again after the prefix. */
  lemma NextTagJoins(lastTag: string, tagFormat: string)
    requires lastTag != "" && |ExtractPrefix(tagFormat)| <= |lastTag|
    requires ThreeNumbers(Pieces(lastTag, |ExtractPrefix(tagFormat)|))
    ensures
      var parts := Pieces(lastTag, |ExtractPrefix(tagFormat)|);
      NextTag(lastTag, tagFormat) == ExtractPrefix(tagFormat) + Join(parts[2 := Itoa(Atoi(parts[2]) + 1)], '.')
  {
    var parts := Pieces(lastTag, |ExtractPrefix(tagFormat)|);
    var patch' := Itoa(Atoi(parts[2]) + 1);
    assert parts[2 := patch'] == [parts[0], parts[1], patch'];
  }

  /** When the last tag has three `Atoi`-valid pieces, the suggestion is a
      well-formed tag of the format's prefix, it keeps the major and minor
      text, and its patch number is one more (no carry: 9 becomes 10 in
      place). */
  lemma NextTagIsWellFormed(lastTag: string, tagFormat: string)
    requires lastTag != "" && |ExtractPrefix(tagFormat)| <= |lastTag|
    requires ThreeNumbers(Pieces(lastTag, |ExtractPrefix(tagFormat)|))
    ensures
      var prefix := ExtractPrefix(tagFormat);
      var parts := Pieces(lastTag, |prefix|);
      var next := NextTag(lastTag, tagFormat);
      && ValidateTagFormat(next, prefix)
      && Pieces(next, |prefix|) == [parts[0], parts[1], Itoa(Atoi(parts[2]) + 1)]
      && Atoi(Pieces(next, |prefix|)[2]) == Atoi(parts[2]) + 1
  {
    var prefix := ExtractPrefix(tagFormat);
    var parts := Pieces(lastTag, |prefix|);
    ComposeIsValid(prefix, parts[0], parts[1], Itoa(Atoi(parts[2]) + 1));
  }

  /** The same suggestion is what `isTagVersionGreater` ranks above the
      last tag, so the tool never proposes a step backwards. */
  lemma NextTagAdvances(lastTag: string, tagFormat: string)
    requires lastTag != "" && |ExtractPrefix(tagFormat)| <= |lastTag|
    requires ThreeNumbers(Pieces(lastTag, |ExtractPrefix(tagFormat)|))
    ensures |ExtractPrefix(NextTag(lastTag, tagFormat))| <= |lastTag|
    ensures IsTagVersionGreater(NextTag(lastTag, tagFormat), lastTag)
  {
    var prefix := ExtractPrefix(tagFormat);
    var parts := Pieces(lastTag, |prefix|);
    var head := lastTag[..|prefix|];
    var patch' := Itoa(Atoi(parts[2]) + 1);
    LastAndNextComposed(lastTag, tagFormat, prefix, parts);
    GreaterWhenPatchRaised(prefix, head, parts[0], parts[1], parts[2], patch');
  }

  /** Both the last tag and the suggestion are composed tags: the last tag
      of its own head and pieces, the suggestion of the format's prefix and
      the raised pieces. */
  lemma LastAndNextComposed(lastTag: string, tagFormat: string, prefix: string, parts: seq<string>)
    requires lastTag != "" && prefix == ExtractPrefix(tagFormat) && |prefix| <= |lastTag|
    requires parts == Pieces(lastTag, |prefix|) && ThreeNumbers(parts)
    ensures lastTag == Compose(lastTag[..|prefix|], parts[0], parts[1], parts[2])
    ensures NextTag(lastTag, tagFormat) == Compose(prefix, parts[0], parts[1], Itoa(Atoi(parts[2]) + 1))
  {
    assert parts == [parts[0], parts[1], parts[2]];
    assert lastTag == lastTag[..|prefix|] + lastTag[|prefix|..];
  }

  /** The suggestion falls back to the format when there is nothing to
      raise: no last tag, or a version part that is not three numbers. */
  lemma NextTagExamplesFallback()
    ensures NextTag("", "v0.0.0") == "v0.0.0"
    ensures NextTag("v1.a.3", "v0.0.0") == "v0.0.0"
  {
    ExtractPrefixOf("v", "0.0.0");
    PiecesOfCompose("v", "1", "a", "3");
    assert Compose("v", "1", "a", "3") == "v1.a.3";
    assert !AtoiValid("a");
  }

  lemma ItoaTen()
    ensures Itoa(10) == "10"
  {
    assert NatToDecimal(1) == "1";
    assert NatToDecimal(10) == NatToDecimal(1) + [DigitChar(0)];
  }

  /** The gray-scale case the tests pin with `g1.9.9`: for any format
      whose prefix is `prefix`, the tag after `1.9.9` is `1.9.10`, not
      `1.10.0`. */
  lemma NextTagNoCarry(prefix: string, tagFormat: string)
    requires ExtractPrefix(tagFormat) == prefix
    ensures NextTag(Compose(prefix, "1", "9", "9"), tagFormat) == Compose(prefix, "1", "9", "10")
  {
    assert AtoiValid("1") && AtoiValid("9");
    NextTagOfComposed(prefix, tagFormat, "1", "9", "9");
    assert Atoi("9") + 1 == 10;
    ItoaTen();
  }

  lemma NextTagOfComposed(prefix: string, tagFormat: string, major: string, minor: string, patch: string)
    requires ExtractPrefix(tagFormat) == prefix
    requires AtoiValid(major) && AtoiValid(minor) && AtoiValid(patch)
    ensures NextTag(Compose(prefix, major, minor, patch), tagFormat)
         == Compose(prefix, major, minor, Itoa(Atoi(patch) + 1))
  {
    var tag := Compose(prefix, major, minor, patch);
    ComposeIsValid(prefix, major, minor, patch);
    var parts := Pieces(tag, |prefix|);
    assert parts == [major, minor, patch] && ThreeNumbers(parts);
    assert NextTag(tag, tagFormat) == Compose(prefix, parts[0], parts[1], Itoa(Atoi(parts[2]) + 1));
  }

  /** A format that starts with a digit (`0.0.0`) has no prefix, and its
      suggestions work on bare numbers: after `1.2.3` comes `1.2.4`. */
  lemma NextTagNoPrefix(tagFormat: string, major: string, minor: string, patch: string)
    requires tagFormat != [] && IsDigit(tagFormat[0])
    requires AtoiValid(major) && AtoiValid(minor) && AtoiValid(patch)
    ensures ExtractPrefix(tagFormat) == ""
    ensures NextTag(major + "." + minor + "." + patch, tagFormat)
         == major + "." + minor + "." + Itoa(Atoi(patch) + 1)
  {
    NextTagOfComposed("", tagFormat, major, minor, patch);
    JoinThree(major, minor, patch);
    JoinThree(major, minor, Itoa(Atoi(patch) + 1));
    assert Compose("", major, minor, patch) == major + "." + minor + "." + patch;
  }
}
