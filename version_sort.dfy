/** The version sort the repository's tests use to state expected tag orders
    (main_test.go, `sortVersionTags`): `sort.Slice` with a comparator that
    compares the three version numbers and falls back to plain text order. */
module VersionSort {
  import opened Text
  import opened VersionCodec
  import opened TagRanker

  /** Go's `a < b` on strings: byte-wise lexicographic order. */
  predicate StringLess(a: string, b: string) {
    if a == [] then b != []
    else if b == [] then false
    else if a[0] != b[0] then a[0] < b[0]
    else StringLess(a[1..], b[1..])
  }

  /** No text is below itself, and of two texts at most one is below the
      other. */
  lemma {:induction false} StringLessStrict(a: string, b: string)
    ensures !StringLess(a, a)
    ensures StringLess(a, b) ==> !StringLess(b, a)
  {
    if a != [] {
      StringLessStrict(a[1..], a[1..]);
      if b != [] && a[0] == b[0] {
        StringLessStrict(a[1..], b[1..]);
      }
    }
  }

  /** How many characters `extractPrefix` keeps: those before the first
      digit. */
  function CutOf(tag: string): (n: nat)
    ensures n <= |tag|
  {
    if tag == [] || IsDigit(tag[0]) then 0 else 1 + CutOf(tag[1..])
  }

  lemma {:induction false} CutOfIsPrefixLength(tag: string)
    ensures CutOf(tag) == |ExtractPrefix(tag)|
  {
    if tag != [] && !IsDigit(tag[0]) {
      CutOfIsPrefixLength(tag[1..]);
    }
  }

  /** The comparator `less(i, j)` on the tags `a = tags[i]`, `b = tags[j]`.
      Both tags are cut after as many characters as `a` has before its first
      digit (Go panics when `b` is shorter). Each number is compared only
      once the ones before it are equal, and a piece `strconv.Atoi` rejects
      at that point makes the answer `a < b` as text. */
  predicate Less(a: string, b: string)
    requires CutOf(a) <= |b|
  {
    var cut := CutOf(a);
    var partsA, partsB := Pieces(a, cut), Pieces(b, cut);
    if |partsA| != 3 || |partsB| != 3 then StringLess(a, b)
    else if !AtoiValid(partsA[0]) || !AtoiValid(partsB[0]) then StringLess(a, b)
    else if Atoi(partsA[0]) != Atoi(partsB[0]) then Atoi(partsA[0]) < Atoi(partsB[0])
    else if !AtoiValid(partsA[1]) || !AtoiValid(partsB[1]) then StringLess(a, b)
    else if Atoi(partsA[1]) != Atoi(partsB[1]) then Atoi(partsA[1]) < Atoi(partsB[1])
    else if !AtoiValid(partsA[2]) || !AtoiValid(partsB[2]) then StringLess(a, b)
    else Atoi(partsA[2]) < Atoi(partsB[2])
  }

  /** On two well-formed tags with one prefix the comparator is the version
      order, and it says `a` is less than `b` exactly when
      `isTagVersionGreater(b, a)`. */
  lemma LessIsVersionOrder(a: string, b: string)
    requires SameScheme(a, b)
    ensures CutOf(a) <= |b|
    ensures Less(a, b) <==> Below(VersionOf(a), VersionOf(b))
    ensures Less(a, b) <==> IsTagVersionGreater(b, a)
  {
    CutOfIsPrefixLength(a);
    GreaterIsVersionOrder(b, a);
  }

  /** The comparator is irreflexive on every tag. */
  lemma LessIrreflexive(a: string)
    ensures !Less(a, a)
  {
    StringLessStrict(a, a);
  }

  /** When either side does not split into three pieces after the cut, the
      comparator is plain text order. */
  lemma LessFallsBack(a: string, b: string)
    requires CutOf(a) <= |b|
    requires |Pieces(a, CutOf(a))| != 3 || |Pieces(b, CutOf(a))| != 3
    ensures Less(a, b) == StringLess(a, b)
  {
  }

  /** The cut comes from the left tag only. A right tag whose prefix is
      longer (`h + t`) is cut at the left prefix's length, so its major
      piece becomes `t` followed by the digits, which `strconv.Atoi`
      rejects, and the text order decides: `v1.0.0` against `dev2.0.0`
      (`p = "v"`, `h = "d"`, `t = "ev"`). */
  lemma CutFromLeftTag(p: string, h: string, t: string)
    requires NoDigits(p) && |h| == |p| && t != [] && NoDigits(t) && '.' !in t
    requires t[0] != '+' && t[0] != '-'
    ensures CutOf(Compose(p, "1", "0", "0")) <= |Compose(h + t, "2", "0", "0")|
    ensures Less(Compose(p, "1", "0", "0"), Compose(h + t, "2", "0", "0"))
         == StringLess(Compose(p, "1", "0", "0"), Compose(h + t, "2", "0", "0"))
  {
    var left, right := Compose(p, "1", "0", "0"), Compose(h + t, "2", "0", "0");
    CutOfComposed(p, "1", "0", "0");
    PiecesOfCompose(p, "1", "0", "0");
    JoinMovesHead(t, "2", "0", "0");
    assert right == Compose(h, t + "2", "0", "0");
    PiecesOfCompose(h, t + "2", "0", "0");
    assert (t + "2")[0] == t[0];
    assert !AtoiValid(t + "2");
  }

  // ---------------------------------------------------------------------
  // The sort

  /** Every tag's cut fits every other tag, so no comparison panics. */
  predicate CutSafe(s: seq<string>) {
    forall i, j :: 0 <= i < |s| && 0 <= j < |s| ==> CutOf(s[i]) <= |s[j]|
  }

  /** Reordering the tags keeps them safe to compare. */
  lemma CutSafePermuted(s: seq<string>, t: seq<string>)
    requires CutSafe(s) && multiset(s) == multiset(t)
    ensures CutSafe(t)
  {
    forall i, j | 0 <= i < |t| && 0 <= j < |t|
      ensures CutOf(t[i]) <= |t[j]|
    {
      assert t[i] in multiset(s) && t[j] in multiset(s);
      var p :| 0 <= p < |s| && s[p] == t[i];
      var q :| 0 <= q < |s| && s[q] == t[j];
    }
  }

  /** A well-formed tag with the prefix `prefix`. */
  predicate Fits(tag: string, prefix: string) {
    WellFormed(tag) && ExtractPrefix(tag) == prefix
  }

  /** Every tag is well formed with the prefix `prefix`. */
  predicate InScheme(s: seq<string>, prefix: string) {
    s == [] || (InScheme(s[..|s| - 1], prefix) && Fits(s[|s| - 1], prefix))
  }

  /** `InScheme` tag by tag. */
  lemma {:induction false} InSchemeAll(s: seq<string>, prefix: string)
    ensures InScheme(s, prefix) <==> forall k :: 0 <= k < |s| ==> Fits(s[k], prefix)
  {
    if s != [] {
      var init := s[..|s| - 1];
      InSchemeAll(init, prefix);
      assert forall k :: 0 <= k < |init| ==> init[k] == s[k];
    }
  }

  /** All tags share one scheme: the one of the first. */
  predicate OneScheme(s: seq<string>) {
    |s| == 0 || InScheme(s, ExtractPrefix(s[0]))
  }

  predicate AtMost(a: Version, b: Version) { !Below(b, a) }

  /** The versions of a list of tags of one scheme. */
  function Versions(s: seq<string>, prefix: string): (vs: seq<Version>)
    requires InScheme(s, prefix)
    ensures |vs| == |s|
  {
    if s == [] then [] else Versions(s[..|s| - 1], prefix) + [VersionOf(s[|s| - 1])]
  }

  /** The `k`-th tag fits the scheme and the `k`-th version is its version. */
  lemma {:induction false} VersionsAt(s: seq<string>, prefix: string, k: nat)
    requires InScheme(s, prefix) && k < |s|
    ensures Fits(s[k], prefix) && Versions(s, prefix)[k] == VersionOf(s[k])
  {
    if k < |s| - 1 {
      VersionsAt(s[..|s| - 1], prefix, k);
    }
  }

  /** Non-decreasing versions. */
  predicate Ascending(vs: seq<Version>) {
    forall p, q :: 0 <= p < q < |vs| ==> AtMost(vs[p], vs[q])
  }

  /** Inserting the element at `j` into the ascending run before `i`: the
      other elements of `vs[..i + 1]` are in order and everything after `j`
      up to `i` is strictly above `vs[j]`. */
  predicate Inserting(vs: seq<Version>, i: nat, j: nat) {
    && j <= i < |vs|
    && (forall p, q :: 0 <= p < q <= i && p != j && q != j ==> AtMost(vs[p], vs[q]))
    && (forall q :: j < q <= i ==> Below(vs[j], vs[q]))
  }

  lemma InsertStart(vs: seq<Version>, i: nat)
    requires i < |vs| && Ascending(vs[..i])
    ensures Inserting(vs, i, i)
  {
    forall p, q | 0 <= p < q <= i && p != i && q != i
      ensures AtMost(vs[p], vs[q])
    {
      assert vs[..i][p] == vs[p] && vs[..i][q] == vs[q];
    }
  }

  /** One swap moves the element down past a strictly greater neighbour. */
  lemma InsertStep(vs: seq<Version>, i: nat, j: nat)
    requires 0 < j && Inserting(vs, i, j) && Below(vs[j], vs[j - 1])
    ensures Inserting(vs[j := vs[j - 1]][j - 1 := vs[j]], i, j - 1)
  {
  }

  /** The element stops below a neighbour it is not less than (or at the
      front): the run up to `i` is ascending. */
  lemma InsertDone(vs: seq<Version>, i: nat, j: nat)
    requires Inserting(vs, i, j) && (j == 0 || AtMost(vs[j - 1], vs[j]))
    ensures Ascending(vs[..i + 1])
  {
    forall p, q | 0 <= p < q <= i
      ensures AtMost(vs[p], vs[q])
    {
      if p == j {
        assert Below(vs[j], vs[q]);
      } else if q == j {
        if p < j - 1 {
          assert AtMost(vs[p], vs[j - 1]);
        }
      }
    }
  }

  /** One version is in order, and an ascending run over all of `vs` is
      `vs` ascending. */
  lemma AscendingEnds(vs: seq<Version>)
    requires |vs| > 0
    ensures Ascending(vs[..1])
    ensures Ascending(vs[..|vs|]) ==> Ascending(vs)
  {
    assert vs[..|vs|] == vs;
  }

  /** The first `n` tags are in version order, all tags being of the
      scheme `prefix`. */
  predicate SortedRun(s: seq<string>, prefix: string, n: nat) {
    n <= |s| && InScheme(s, prefix) && Ascending(Versions(s, prefix)[..n])
  }

  /** A list sorted in the scheme of its first tag is sorted in every
      scheme its original order was in: there is only that one (and an
      empty list is sorted in any scheme). */
  lemma SchemeOfFirst(s: seq<string>, t: seq<string>, p: string, n: nat)
    requires InScheme(s, p) && |s| == |t|
    requires |s| > 0 && OneScheme(s) ==> n == |t| && SortedRun(t, ExtractPrefix(s[0]), n)
    ensures SortedRun(t, p, |t|)
  {
    if |s| == 0 {
      assert Versions(t, p)[..0] == [];
    } else {
      VersionsAt(s, p, 0);
    }
  }

  /** Swapping two tags swaps their versions. */
  lemma VersionsOfSwap(s: seq<string>, t: seq<string>, j: nat, prefix: string)
    requires 0 < j < |s| && InScheme(s, prefix) && InScheme(t, prefix)
    requires t == s[j := s[j - 1]][j - 1 := s[j]]
    ensures Versions(t, prefix) == Versions(s, prefix)[j := Versions(s, prefix)[j - 1]][j - 1 := Versions(s, prefix)[j]]
  {
    var vs, vt := Versions(s, prefix), Versions(t, prefix);
    forall k | 0 <= k < |t|
      ensures vt[k] == vs[j := vs[j - 1]][j - 1 := vs[j]][k]
    {
      VersionOfSwapAt(s, t, j, prefix, k);
    }
  }

  /** One index of `VersionsOfSwap`. */
  lemma VersionOfSwapAt(s: seq<string>, t: seq<string>, j: nat, prefix: string, k: nat)
    requires 0 < j < |s| && InScheme(s, prefix) && InScheme(t, prefix)
    requires t == s[j := s[j - 1]][j - 1 := s[j]] && k < |t|
    ensures Versions(t, prefix)[k] ==
      if k == j then Versions(s, prefix)[j - 1]
      else if k == j - 1 then Versions(s, prefix)[j]
      else Versions(s, prefix)[k]
  {
    VersionsAt(t, prefix, k);
    if k == j {
      VersionsAt(s, prefix, j - 1);
    } else if k == j - 1 {
      VersionsAt(s, prefix, j);
    } else {
      VersionsAt(s, prefix, k);
    }
  }

  /** On a list of one scheme the comparator on two neighbours is the
      order of their versions. */
  lemma LessAt(s: seq<string>, prefix: string, j: nat)
    requires InScheme(s, prefix) && 0 < j < |s|
    ensures CutOf(s[j]) <= |s[j - 1]|
    ensures Less(s[j], s[j - 1]) <==> Below(Versions(s, prefix)[j], Versions(s, prefix)[j - 1])
  {
    VersionsAt(s, prefix, j);
    VersionsAt(s, prefix, j - 1);
    LessIsVersionOrder(s[j], s[j - 1]);
  }

  /** Exchanging two neighbours keeps the elements. */
  method Swap(tags: array<string>, j: int)
    requires 0 < j < tags.Length
    modifies tags
    ensures tags[..] == old(tags[..])[j := old(tags[j - 1])][j - 1 := old(tags[j])]
    ensures multiset(tags[..]) == multiset(old(tags[..]))
  {
    tags[j], tags[j - 1] := tags[j - 1], tags[j];
  }

  /** Exchanging two neighbours keeps every tag in the scheme. */
  lemma InSchemeSwap(s: seq<string>, j: nat, prefix: string)
    requires 0 < j < |s| && InScheme(s, prefix)
    ensures InScheme(s[j := s[j - 1]][j - 1 := s[j]], prefix)
  {
    var t := s[j := s[j - 1]][j - 1 := s[j]];
    InSchemeAll(s, prefix);
    InSchemeAll(t, prefix);
    forall k | 0 <= k < |t|
      ensures Fits(t[k], prefix)
    {
      if k == j {
        assert t[k] == s[j - 1];
      } else if k == j - 1 {
        assert t[k] == s[j];
      } else {
        assert t[k] == s[k];
      }
    }
  }

  /** One step of the inner loop: the tag at `j`, less than its left
      neighbour, changes places with it. */
  method SinkStep(tags: array<string>, i: int, j: int, ghost wf: bool, ghost prefix: string)
    requires 0 < j <= i < tags.Length && CutSafe(tags[..])
    requires wf ==> InScheme(tags[..], prefix) && Inserting(Versions(tags[..], prefix), i, j)
    requires Less(tags[j], tags[j - 1])
    modifies tags
    ensures tags[..] == old(tags[..])[j := old(tags[j - 1])][j - 1 := old(tags[j])]
    ensures multiset(tags[..]) == multiset(old(tags[..])) && CutSafe(tags[..])
    ensures wf ==> InScheme(tags[..], prefix) && Inserting(Versions(tags[..], prefix), i, j - 1)
  {
    ghost var before := tags[..];
    if wf {
      LessAt(before, prefix, j);
      InsertStep(Versions(before, prefix), i, j);
      InSchemeSwap(before, j, prefix);
    }
    Swap(tags, j);
    CutSafePermuted(before, tags[..]);
    if wf {
      VersionsOfSwap(before, tags[..], j, prefix);
    }
  }

  /** The inner loop of the insertion sort: `tags[i]` moves down while the
      comparator says it is less than its left neighbour. */
  method InsertDown(tags: array<string>, i: int, ghost wf: bool, ghost prefix: string)
    requires 0 < i < tags.Length && CutSafe(tags[..])
    requires wf ==> SortedRun(tags[..], prefix, i)
    modifies tags
    ensures multiset(tags[..]) == multiset(old(tags[..]))
    ensures tags[i + 1..] == old(tags[i + 1..])
    ensures wf ==> SortedRun(tags[..], prefix, i + 1)
  {
    if wf {
      InsertStart(Versions(tags[..], prefix), i);
    }
    var j := i;
    while j > 0 && Less(tags[j], tags[j - 1])
      invariant 0 <= j <= i
      invariant multiset(tags[..]) == multiset(old(tags[..]))
      invariant tags[i + 1..] == old(tags[i + 1..])
      invariant CutSafe(tags[..])
      invariant wf ==> InScheme(tags[..], prefix) && Inserting(Versions(tags[..], prefix), i, j)
    {
      SinkStep(tags, i, j, wf, prefix);
      j := j - 1;
    }
    if wf {
      if j > 0 {
        LessAt(tags[..], prefix, j);
      }
      InsertDone(Versions(tags[..], prefix), i, j);
    }
  }

  /** The outer loop of the insertion sort: each tag from the second on is
      moved down into the sorted run before it. */
  method InsertionSort(tags: array<string>, ghost wf: bool, ghost prefix: string)
    requires CutSafe(tags[..])
    requires wf ==> tags.Length > 0 && SortedRun(tags[..], prefix, 1)
    modifies tags
    ensures multiset(tags[..]) == multiset(old(tags[..]))
    ensures tags.Length <= 1 ==> tags[..] == old(tags[..])
    ensures wf ==> SortedRun(tags[..], prefix, tags.Length)
  {
    var i := 1;
    while i < tags.Length
      invariant 1 <= i && (tags.Length == 0 || i <= tags.Length)
      invariant multiset(tags[..]) == multiset(old(tags[..]))
      invariant tags.Length <= 1 ==> tags[..] == old(tags[..])
      invariant wf ==> SortedRun(tags[..], prefix, i)
    {
      CutSafePermuted(old(tags[..]), tags[..]);
      InsertDown(tags, i, wf, prefix);
      i := i + 1;
    }
  }

  /** `sortVersionTags(tags)` for the lengths where `sort.Slice` runs an
      insertion sort. The tags come out a permutation of the input; when all
      of them are well formed with one prefix, their versions come out
      non-decreasing; fewer than two tags stay as they are. */
  method SortVersionTags(tags: array<string>)
    requires CutSafe(tags[..])
    modifies tags
    ensures multiset(tags[..]) == multiset(old(tags[..]))
    ensures tags.Length <= 1 ==> tags[..] == old(tags[..])
    ensures forall prefix :: InScheme(old(tags[..]), prefix) ==> SortedRun(tags[..], prefix, tags.Length)
  {
    ghost var initial := tags[..];
    ghost var wf := tags.Length > 0 && OneScheme(initial);
    ghost var prefix := if tags.Length == 0 then "" else ExtractPrefix(initial[0]);
    if wf {
      AscendingEnds(Versions(initial, prefix));
    }
    InsertionSort(tags, wf, prefix);
    forall p | InScheme(initial, p)
      ensures SortedRun(tags[..], p, tags.Length)
    {
      SchemeOfFirst(initial, tags[..], p, tags.Length);
    }
  }

  /** A tag composed on a digit-free prefix is cut right after it. */
  lemma CutOfComposed(prefix: string, a: string, b: string, c: string)
    requires NoDigits(prefix) && a != [] && IsDigit(a[0])
    ensures CutOf(Compose(prefix, a, b, c)) == |prefix|
  {
    JoinThree(a, b, c);
    ExtractPrefixOf(prefix, Join([a, b, c], '.'));
    CutOfIsPrefixLength(Compose(prefix, a, b, c));
  }

  /** Comparing two tags composed on one digit-free prefix compares the
      numbers read from their pieces. */
  lemma LessOfComposed(prefix: string, a: string, b: string, c: string, x: string, y: string, z: string)
    requires AtoiValid(a) && AtoiValid(b) && AtoiValid(c) && AtoiValid(x) && AtoiValid(y) && AtoiValid(z)
    requires NoDigits(prefix) && IsDigit(a[0]) && IsDigit(x[0])
    ensures CutOf(Compose(prefix, a, b, c)) <= |Compose(prefix, x, y, z)|
    ensures Less(Compose(prefix, a, b, c), Compose(prefix, x, y, z))
        <==> Below(Version(Atoi(a), Atoi(b), Atoi(c)), Version(Atoi(x), Atoi(y), Atoi(z)))
  {
    AtoiValidHasNoSeparator(a, '.');
    AtoiValidHasNoSeparator(b, '.');
    AtoiValidHasNoSeparator(c, '.');
    AtoiValidHasNoSeparator(x, '.');
    AtoiValidHasNoSeparator(y, '.');
    AtoiValidHasNoSeparator(z, '.');
    ComposeIsValid(prefix, a, b, c);
    ComposeIsValid(prefix, x, y, z);
    GreaterOfComposed(prefix, a, b, c, x, y, z);
    GreaterOfComposed(prefix, x, y, z, a, b, c);
    LessIsVersionOrder(Compose(prefix, a, b, c), Compose(prefix, x, y, z));
  }

  /** The order the tests expect for the tags `g1.9.9`, `g1.9.10`,
      `g1.10.0` and `g2.0.0`, here on any digit-free prefix: by number
      and not by text. */
  lemma GrayOrder(prefix: string)
    requires NoDigits(prefix)
    ensures CutOf(Compose(prefix, "1", "9", "9")) == |prefix|
    ensures CutOf(Compose(prefix, "1", "9", "10")) == |prefix|
    ensures CutOf(Compose(prefix, "1", "10", "0")) == |prefix|
    ensures Less(Compose(prefix, "1", "9", "9"), Compose(prefix, "1", "9", "10"))
    ensures Less(Compose(prefix, "1", "9", "10"), Compose(prefix, "1", "10", "0"))
    ensures Less(Compose(prefix, "1", "10", "0"), Compose(prefix, "2", "0", "0"))
    ensures !Less(Compose(prefix, "1", "9", "10"), Compose(prefix, "1", "9", "9"))
  {
    AtoiTen();
    CutOfComposed(prefix, "1", "9", "9");
    CutOfComposed(prefix, "1", "9", "10");
    CutOfComposed(prefix, "1", "10", "0");
    LessOfComposed(prefix, "1", "9", "9", "1", "9", "10");
    LessOfComposed(prefix, "1", "9", "10", "1", "10", "0");
    LessOfComposed(prefix, "1", "10", "0", "2", "0", "0");
    LessOfComposed(prefix, "1", "9", "10", "1", "9", "9");
  }
}
