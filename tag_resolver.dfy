/** Finding the last tag of a branch (main.go, `getLastTag`). The git
    queries are inputs: whether the repository has any tag at all, the
    output of `git tag --list <prefix>* --sort=-v:refname` (None when the
    command fails), and the on-branch test that the source reaches through
    the replaceable `isTagOnBranchFunc` (main.go:40). */
module TagResolver {
  import opened Text
  import opened VersionCodec
  import Ancestry

  /** `hasAnyTags`: the trimmed output of `git tag -l` is not empty; a
      failing command counts as no tags. */
  function HasAnyTags(output: Option<string>): (any: bool)
    ensures any <==> output.Some? && exists k :: 0 <= k < |output.value| && !IsSpace(output.value[k])
  {
    if output.None? then false
    else
      TrimSpaceEmpty(output.value);
      TrimSpace(output.value) != ""
  }

  /** The candidate lines of the tag listing. */
  function Candidates(listing: string): (tags: seq<string>)
    ensures |tags| >= 1
  {
    Split(TrimSpace(listing), '\n')
  }

  /** A candidate the scan stops at: not empty, on the branch, and well
      formed for the format's prefix. */
  predicate Qualifies(tag: string, branch: string, prefix: string, onBranch: (string, string) -> bool) {
    tag != "" && onBranch(tag, branch) && ValidateTagFormat(tag, prefix)
  }

  /** `getLastTag(branch, tagFormat)`: `""` when the repository has no tags
      or the listing fails; otherwise the FIRST listed candidate that
      qualifies, in listed order, or `""` when none does. A later candidate
      is never preferred, even when it carries a greater version. */
  method GetLastTag(anyTags: bool, listing: Option<string>, branch: string, tagFormat: string,
                    onBranch: (string, string) -> bool)
    returns (last: string)
    ensures !anyTags || listing.None? ==> last == ""
    ensures anyTags && listing.Some? ==>
      var tags := Candidates(listing.value);
      var prefix := ExtractPrefix(tagFormat);
      && (last == "" <==> forall k :: 0 <= k < |tags| ==> !Qualifies(tags[k], branch, prefix, onBranch))
      && (last != "" ==> exists i :: 0 <= i < |tags| && tags[i] == last
                          && Qualifies(tags[i], branch, prefix, onBranch)
                          && forall k :: 0 <= k < i ==> !Qualifies(tags[k], branch, prefix, onBranch))
  {
    if !anyTags {
      return "";
    }
    var prefix := ExtractPrefix(tagFormat);
    if listing.None? {
      return "";
    }
    var tags := Split(TrimSpace(listing.value), '\n');
    if |tags| == 0 || (|tags| == 1 && tags[0] == "") {
      return "";
    }
    for i := 0 to |tags|
      invariant forall k :: 0 <= k < i ==> !Qualifies(tags[k], branch, prefix, onBranch)
    {
      var tag := tags[i];
      if tag == "" {
        continue;
      }
      if onBranch(tag, branch) {
        if ValidateTagFormat(tag, prefix) {
          assert Qualifies(tags[i], branch, prefix, onBranch);
          assert tags == Candidates(listing.value);
          assert !(forall k :: 0 <= k < |tags| ==> !Qualifies(tags[k], branch, prefix, onBranch));
          return tag;
        }
      }
    }
    return "";
  }

  /** `getLastTag` with the real on-branch test: whatever it returns is a
      tag of the repository that is on the branch. */
  method GetLastTagInRepository(repo: Ancestry.Repository, anyTags: bool, listing: Option<string>,
                                branch: string, tagFormat: string)
    returns (last: string)
    ensures last != "" ==> Ancestry.IsTagOnBranch(repo, last, branch)
    ensures last != "" ==> last in repo.tags && ValidateTagFormat(last, ExtractPrefix(tagFormat))
  {
    last := GetLastTag(anyTags, listing, branch, tagFormat, (t, b) => Ancestry.IsTagOnBranch(repo, t, b));
  }
}
