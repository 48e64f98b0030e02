/** Tag strings of the shape `<prefix>N.N.N`: the prefix of a tag format,
    the format check, and the composition of a tag from its pieces
    (main.go, `extractPrefix` and `validateTagFormat`). */
module VersionCodec {
  import opened Text

  /** `extractPrefix`: the longest leading part of `format` that holds no
      ASCII digit; the whole string when it has no digit at all. */
  function ExtractPrefix(format: string): (prefix: string)
    ensures HasPrefix(format, prefix)
    ensures NoDigits(prefix)
    ensures |prefix| == |format| || IsDigit(format[|prefix|])
  {
    if format == [] || IsDigit(format[0]) then []
    else
      var rest := ExtractPrefix(format[1..]);
      assert format[1..][..|rest|] == format[1..|rest| + 1];
      [format[0]] + rest
  }

  /** A digit-free text followed by a digit has exactly that text as prefix. */
  lemma {:induction false} ExtractPrefixOf(prefix: string, rest: string)
    requires NoDigits(prefix)
    requires rest == [] || IsDigit(rest[0])
    ensures ExtractPrefix(prefix + rest) == prefix
  {
    if prefix != [] {
      assert (prefix + rest)[1..] == prefix[1..] + rest;
      ExtractPrefixOf(prefix[1..], rest);
      assert [prefix[0]] + prefix[1..] == prefix;
    }
  }

  /** Taking the prefix is idempotent: the prefix of `prefix + "0.0.0"` is
      the prefix again. */
  lemma ExtractPrefixIdempotent(format: string)
    ensures ExtractPrefix(ExtractPrefix(format) + "0.0.0") == ExtractPrefix(format)
  {
    ExtractPrefixOf(ExtractPrefix(format), "0.0.0");
  }

  /** The version pieces `strings.Split(tag[cut:], ".")`. */
  function Pieces(tag: string, cut: nat): (parts: seq<string>)
    requires cut <= |tag|
    ensures |parts| >= 1
  {
    Split(tag[cut..], '.')
  }

  /** Exactly three pieces, each one that `strconv.Atoi` accepts. */
  predicate ThreeNumbers(parts: seq<string>) {
    |parts| == 3 && AtoiValid(parts[0]) && AtoiValid(parts[1]) && AtoiValid(parts[2])
  }

  /** `validateTagFormat(tag, prefix)` */
  predicate ValidateTagFormat(tag: string, prefix: string) {
    HasPrefix(tag, prefix) && ThreeNumbers(Pieces(tag, |prefix|))
  }

  /** The tag text `prefix + major + "." + minor + "." + patch`. */
  function Compose(prefix: string, major: string, minor: string, patch: string): string {
    prefix + Join([major, minor, patch], '.')
  }

  lemma JoinThree(a: string, b: string, c: string)
    ensures Join([a, b, c], '.') == a + "." + b + "." + c
  {
    assert [a, b, c][1..] == [b, c];
    assert [b, c][1..] == [c];
    assert Join([b, c], '.') == b + "." + c;
  }

  /** Text split off the front of the major piece moves in front of the
      joined pieces. */
  lemma JoinMovesHead(x: string, y: string, b: string, c: string)
    ensures Join([x + y, b, c], '.') == x + Join([y, b, c], '.')
  {
    assert [x + y, b, c][1..] == [b, c];
    assert [y, b, c][1..] == [b, c];
    var rest := ['.'] + Join([b, c], '.');
    assert Join([x + y, b, c], '.') == (x + y) + rest;
    assert Join([y, b, c], '.') == y + rest;
    assert (x + y) + rest == x + (y + rest);
  }

  /** A composed tag can be cut later, inside its major piece. */
  lemma ReCut(tag: string, prefix: string, major: string, minor: string, patch: string, d: nat)
    requires tag == Compose(prefix, major, minor, patch) && d <= |major|
    ensures |prefix| + d <= |tag|
    ensures tag[..|prefix| + d] == prefix + major[..d]
    ensures tag == Compose(tag[..|prefix| + d], major[d..], minor, patch)
  {
    assert major == major[..d] + major[d..];
    JoinMovesHead(major[..d], major[d..], minor, patch);
    assert tag == (prefix + major[..d]) + Join([major[d..], minor, patch], '.');
  }

  /** Splitting a composed tag after its prefix gives the three pieces back. */
  lemma PiecesOfCompose(prefix: string, major: string, minor: string, patch: string)
    requires '.' !in major && '.' !in minor && '.' !in patch
    ensures HasPrefix(Compose(prefix, major, minor, patch), prefix)
    ensures Pieces(Compose(prefix, major, minor, patch), |prefix|) == [major, minor, patch]
  {
    var tag := Compose(prefix, major, minor, patch);
    assert tag[|prefix|..] == Join([major, minor, patch], '.');
    SplitJoin([major, minor, patch], '.');
  }

  /** `validateTagFormat` accepts exactly the tags `prefix + a + "." + b + "." + c`
      whose three pieces `strconv.Atoi` accepts. */
  lemma ValidTagShape(tag: string, prefix: string)
    ensures ValidateTagFormat(tag, prefix) <==>
      exists a, b, c :: AtoiValid(a) && AtoiValid(b) && AtoiValid(c) && tag == Compose(prefix, a, b, c)
  {
    if ValidateTagFormat(tag, prefix) {
      var parts := Pieces(tag, |prefix|);
      assert parts == [parts[0], parts[1], parts[2]];
      assert tag == prefix + tag[|prefix|..];
      assert tag == Compose(prefix, parts[0], parts[1], parts[2]);
    }
    if exists a, b, c :: AtoiValid(a) && AtoiValid(b) && AtoiValid(c) && tag == Compose(prefix, a, b, c) {
      var a, b, c :| AtoiValid(a) && AtoiValid(b) && AtoiValid(c) && tag == Compose(prefix, a, b, c);
      ComposeIsValid(prefix, a, b, c);
    }
  }

  /** A tag composed from three `Atoi`-valid pieces passes `validateTagFormat`. */
  lemma ComposeIsValid(prefix: string, a: string, b: string, c: string)
    requires AtoiValid(a) && AtoiValid(b) && AtoiValid(c)
    ensures ValidateTagFormat(Compose(prefix, a, b, c), prefix)
    ensures Pieces(Compose(prefix, a, b, c), |prefix|) == [a, b, c]
  {
    AtoiValidHasNoSeparator(a, '.');
    AtoiValidHasNoSeparator(b, '.');
    AtoiValidHasNoSeparator(c, '.');
    PiecesOfCompose(prefix, a, b, c);
  }

  /** The prefixes the repository's tests pin for `v1.0.0`, `1.0.0` and
      the empty format. */
  lemma ExtractPrefixExamples()
    ensures ExtractPrefix("v1.0.0") == "v"
    ensures ExtractPrefix("1.0.0") == ""
    ensures ExtractPrefix("") == ""
  {
    ExtractPrefixOf("v", "1.0.0");
  }

  /** The prefix the tests pin for a longer word, `release1.2.3`. */
  lemma ExtractPrefixOfRelease()
    ensures ExtractPrefix("release1.2.3") == "release"
  {
    assert "release" + "1.2.3" == "release1.2.3";
    assert NoDigits("release");
    ExtractPrefixOf("release", "1.2.3");
  }

  /** A format without any digit is all prefix (`main` gives `main`). */
  lemma ExtractPrefixDigitFree(format: string)
    requires NoDigits(format)
    ensures ExtractPrefix(format) == format
  {
    ExtractPrefixOf(format, "");
    assert format + "" == format;
  }

  /** `v1.2.3` passes against the prefix `v`; `x1.2.3` fails for its prefix. */
  lemma ValidateTagFormatExamples()
    ensures ValidateTagFormat("v1.2.3", "v")
    ensures !ValidateTagFormat("x1.2.3", "v")
  {
    ComposeIsValid("v", "1", "2", "3");
    assert Compose("v", "1", "2", "3") == "v1.2.3";
    assert "x1.2.3"[..1][0] != "v"[0];
  }

  /** `v1.2` fails (two pieces), and so does `v1.a.3` (a piece that
      `strconv.Atoi` refuses), the malformed last tag of the tests. */
  lemma ValidateTagFormatRefusesPieces()
    ensures !ValidateTagFormat("v1.2", "v")
    ensures !ValidateTagFormat("v1.a.3", "v")
  {
    PiecesOfCompose("v", "1", "a", "3");
    assert Compose("v", "1", "a", "3") == "v1.a.3";
    assert "v1.2"[1..] == "1" + ['.'] + "2";
    SplitAtFirst("1", '.', "2");
    SplitWhole("2", '.');
  }
}
