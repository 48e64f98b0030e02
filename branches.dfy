/** The branch list: which configured branches the repository has
    (main.go, `contains`, `uniqueStrings`, `branchExists`,
    `getConfiguredBranches`, `filterExistingBranches`). The outputs of
    `git branch --list` and `git branch -r` are inputs; `None` stands for a
    command that fails. */
module Branches {
  import opened Text

  /** One entry of the configuration: a branch and its tag format. */
  datatype BranchTag = BranchTag(branch: string, tag: string)

  datatype Config = Config(branchTags: seq<BranchTag>)

  /** `contains(slice, item)`: some element equals `item`. */
  function Contains(slice: seq<string>, item: string): (found: bool)
    ensures found <==> item in slice
  {
    if slice == [] then false
    else if slice[0] == item then true
    else
      assert slice == [slice[0]] + slice[1..];
      Contains(slice[1..], item)
  }

  /** `branchExists(branch, availableBranches)`: the scan stops at the first
      equal name. */
  method BranchExists(branch: string, available: seq<string>) returns (found: bool)
    ensures found <==> Contains(available, branch)
  {
    for i := 0 to |available|
      invariant forall k :: 0 <= k < i ==> available[k] != branch
    {
      if available[i] == branch {
        return true;
      }
    }
    return false;
  }

  // ---------------------------------------------------------------------
  // uniqueStrings

  /** The first occurrences of the elements of `s`, in the order they first
      occur. */
  function Unique(s: seq<string>): seq<string> {
    if s == [] then []
    else
      var init := s[..|s| - 1];
      if s[|s| - 1] in init then Unique(init) else Unique(init) + [s[|s| - 1]]
  }

  /** Where `x` first occurs in `s`. */
  function FirstIndex(s: seq<string>, x: string): (i: nat)
    requires x in s
    ensures i < |s| && s[i] == x && x !in s[..i]
  {
    if s[0] == x then 0
    else
      var i := 1 + FirstIndex(s[1..], x);
      assert s[..i] == [s[0]] + s[1..][..i - 1];
      i
  }

  /** `FirstIndex` is the only position holding `x` with no `x` before it. */
  lemma FirstIndexIs(s: seq<string>, x: string, i: nat)
    requires i < |s| && s[i] == x && x !in s[..i]
    ensures FirstIndex(s, x) == i
  {
  }

  predicate NoDuplicates(s: seq<string>) {
    forall i, j :: 0 <= i < j < |s| ==> s[i] != s[j]
  }

  /** `Unique(s)` has the elements of `s`, each once, ordered by where each
      first occurs in `s`. */
  lemma {:induction false} UniqueSpec(s: seq<string>)
    ensures forall x :: x in Unique(s) <==> x in s
    ensures NoDuplicates(Unique(s))
    ensures forall i, j :: 0 <= i < j < |Unique(s)| ==>
      FirstIndex(s, Unique(s)[i]) < FirstIndex(s, Unique(s)[j])
  {
    if s != [] {
      var init, last := s[..|s| - 1], s[|s| - 1];
      UniqueSpec(init);
      var u := Unique(init);
      assert s == init + [last];
      forall i | 0 <= i < |u|
        ensures FirstIndex(s, u[i]) == FirstIndex(init, u[i])
      {
        var f := FirstIndex(init, u[i]);
        assert s[..f] == init[..f];
        FirstIndexIs(s, u[i], f);
      }
      if last !in init {
        FirstIndexIs(s, last, |s| - 1);
        assert Unique(s) == u + [last];
      }
    }
  }

  /** A list without duplicates is its own `Unique`, so `uniqueStrings` is
      idempotent. */
  lemma {:induction false} UniqueOfDistinct(s: seq<string>)
    requires NoDuplicates(s)
    ensures Unique(s) == s
  {
    if s != [] {
      var init := s[..|s| - 1];
      assert NoDuplicates(init);
      UniqueOfDistinct(init);
      assert s[|s| - 1] !in init;
      assert s == init + [s[|s| - 1]];
    }
  }

  lemma UniqueIdempotent(s: seq<string>)
    ensures Unique(Unique(s)) == Unique(s)
  {
    UniqueSpec(s);
    UniqueOfDistinct(Unique(s));
  }

  /** `uniqueStrings(slice)`: a set of seen names and the output list grow
      together; an element is appended the first time it is seen. */
  method UniqueStrings(slice: seq<string>) returns (unique: seq<string>)
    ensures unique == Unique(slice)
  {
    var keys: map<string, bool> := map[];
    unique := [];
    for i := 0 to |slice|
      invariant unique == Unique(slice[..i])
      invariant forall x :: x in keys <==> x in slice[..i]
    {
      var entry := slice[i];
      assert slice[..i + 1][..i] == slice[..i];
      assert slice[..i + 1] == slice[..i] + [entry];
      if entry !in keys {
        keys := keys[entry := true];
        unique := unique + [entry];
      }
    }
    assert slice[..|slice|] == slice;
  }

  // ---------------------------------------------------------------------
  // getConfiguredBranches

  /** The lines of a command's output: none when it failed, otherwise the
      trimmed output split at newlines. */
  function Lines(output: Option<string>): seq<string> {
    if output.None? then [] else Split(TrimSpace(output.value), '\n')
  }

  /** A `git branch --list` line without the current-branch star and the
      surrounding white space. */
  function LocalName(line: string): string {
    TrimSpace(TrimPrefix(line, "*"))
  }

  /** The text after the last `sep` in `s`; `None` when there is none. */
  function LastSegment(s: string, sep: char): Option<string> {
    if s == [] then None
    else if s[|s| - 1] == sep then Some("")
    else match LastSegment(s[..|s| - 1], sep)
      case None => None
      case Some(t) => Some(t + [s[|s| - 1]])
  }

  lemma {:induction false} LastSegmentShape(s: string, sep: char)
    ensures LastSegment(s, sep).None? <==> sep !in s
    ensures LastSegment(s, sep).Some? ==>
      var t := LastSegment(s, sep).value;
      |t| < |s| && sep !in t && s == s[..|s| - |t| - 1] + [sep] + t
  {
    if s != [] {
      var init, c := s[..|s| - 1], s[|s| - 1];
      assert s == init + [c];
      LastSegmentShape(init, sep);
      if c != sep && LastSegment(init, sep).Some? {
        var t := LastSegment(init, sep).value;
        assert s[..|s| - |t| - 2] == init[..|init| - |t| - 1];
      }
    }
  }

  /** A `git branch -r` line: the last of the pieces that splitting the
      trimmed line at `/` gives, when there are at least two. */
  function RemoteName(line: string): Option<string> {
    var parts := Split(TrimSpace(line), '/');
    if |parts| >= 2 then Some(parts[|parts| - 1]) else None
  }

  /** The name a `git branch -r` line gives is the text after the last
      `/` of the trimmed line, and a line without `/` gives none. */
  lemma RemoteNameAfterLastSlash(line: string)
    ensures RemoteName(line) == LastSegment(TrimSpace(line), '/')
  {
    var s := TrimSpace(line);
    LastSegmentShape(s, '/');
    if '/' !in s {
      SplitWhole(s, '/');
    } else {
      var t := LastSegment(s, '/').value;
      var head := s[..|s| - |t| - 1];
      assert s == head + "/" + t;
      LastPiece(head, '/', t);
    }
  }

  /** The name a `git branch --list` line gives (every line gives one). */
  function LocalNameOf(line: string): Option<string> {
    Some(LocalName(line))
  }

  /** The configured branch that `name` reads off a non-empty line, if any. */
  function Pick(line: string, name: string -> Option<string>, configured: seq<string>): seq<string> {
    if line == "" then []
    else match name(line)
      case None => []
      case Some(branch) => if Contains(configured, branch) then [branch] else []
  }

  lemma PickMembers(line: string, name: string -> Option<string>, configured: seq<string>, x: string)
    ensures x in Pick(line, name, configured) <==> x in configured && line != "" && name(line) == Some(x)
  {
  }

  /** The configured branches that `name` reads off the lines, in line order. */
  function Picked(lines: seq<string>, name: string -> Option<string>, configured: seq<string>): seq<string> {
    if lines == [] then []
    else Picked(lines[..|lines| - 1], name, configured) + Pick(lines[|lines| - 1], name, configured)
  }

  /** A name is picked exactly when it is configured and some non-empty line
      gives it. */
  lemma {:induction false} PickedMembers(lines: seq<string>, name: string -> Option<string>,
                                         configured: seq<string>, x: string)
    ensures x in Picked(lines, name, configured) <==>
      x in configured && exists k :: 0 <= k < |lines| && lines[k] != "" && name(lines[k]) == Some(x)
  {
    if lines != [] {
      var init, last := lines[..|lines| - 1], lines[|lines| - 1];
      PickedMembers(init, name, configured, x);
      PickMembers(last, name, configured, x);
      if x in configured && exists k :: 0 <= k < |lines| && lines[k] != "" && name(lines[k]) == Some(x) {
        var k :| 0 <= k < |lines| && lines[k] != "" && name(lines[k]) == Some(x);
        if k < |init| {
          assert init[k] == lines[k];
        }
      }
      if x in Picked(init, name, configured) {
        var k :| 0 <= k < |init| && init[k] != "" && name(init[k]) == Some(x);
        assert lines[k] == init[k];
      }
    }
  }

  /** The configured branches the local lines name, in line order. */
  function LocalBranches(lines: seq<string>, configured: seq<string>): seq<string> {
    Picked(lines, LocalNameOf, configured)
  }

  /** The configured branches the remote lines name, in line order. */
  function RemoteBranches(lines: seq<string>, configured: seq<string>): seq<string> {
    Picked(lines, RemoteName, configured)
  }

  /** What `getConfiguredBranches` returns: the local names, then the remote
      ones, each kept once. */
  function ConfiguredBranches(localOut: Option<string>, remoteOut: Option<string>,
                              configured: seq<string>): seq<string> {
    Unique(LocalBranches(Lines(localOut), configured) + RemoteBranches(Lines(remoteOut), configured))
  }

  /** A local name is listed exactly when it is configured and some
      non-empty line names it. */
  lemma LocalBranchesMembers(lines: seq<string>, configured: seq<string>, x: string)
    ensures x in LocalBranches(lines, configured) <==>
      x in configured && exists k :: 0 <= k < |lines| && lines[k] != "" && LocalName(lines[k]) == x
  {
    PickedMembers(lines, LocalNameOf, configured, x);
    assert forall k :: 0 <= k < |lines| ==> (LocalNameOf(lines[k]) == Some(x) <==> LocalName(lines[k]) == x);
  }

  /** A remote name is listed exactly when it is configured and some
      non-empty line names it. */
  lemma RemoteBranchesMembers(lines: seq<string>, configured: seq<string>, x: string)
    ensures x in RemoteBranches(lines, configured) <==>
      x in configured && exists k :: 0 <= k < |lines| && lines[k] != "" && RemoteName(lines[k]) == Some(x)
  {
    PickedMembers(lines, RemoteName, configured, x);
  }

  /** A branch is available exactly when it is configured and some local
      line or some remote line names it; none is listed twice. */
  lemma ConfiguredBranchesSpec(localOut: Option<string>, remoteOut: Option<string>,
                               configured: seq<string>, x: string)
    ensures NoDuplicates(ConfiguredBranches(localOut, remoteOut, configured))
    ensures x in ConfiguredBranches(localOut, remoteOut, configured) <==>
      x in configured &&
      ((exists k :: 0 <= k < |Lines(localOut)| && Lines(localOut)[k] != "" && LocalName(Lines(localOut)[k]) == x) ||
       (exists k :: 0 <= k < |Lines(remoteOut)| && Lines(remoteOut)[k] != "" && RemoteName(Lines(remoteOut)[k]) == Some(x)))
  {
    var local, remote := LocalBranches(Lines(localOut), configured), RemoteBranches(Lines(remoteOut), configured);
    UniqueSpec(local + remote);
    LocalBranchesMembers(Lines(localOut), configured, x);
    RemoteBranchesMembers(Lines(remoteOut), configured, x);
  }

  /** A remote line `<remote>/<branch>` names `<branch>`, whatever comes
      before the last `/`: `origin/HEAD -> origin/main` names `main`. */
  lemma RemoteNameIsLastSegment(line: string, head: string, name: string)
    requires TrimSpace(line) == head + "/" + name && '/' !in name
    ensures RemoteName(line) == Some(name)
  {
    LastPiece(head, '/', name);
  }

  /** The first half of `getConfiguredBranches`: the configured names among
      the `git branch --list` lines, in line order. */
  method ListLocalBranches(localOut: Option<string>, configured: seq<string>) returns (localBranches: seq<string>)
    ensures localBranches == LocalBranches(Lines(localOut), configured)
  {
    localBranches := [];
    if localOut.Some? {
      var lines := Split(TrimSpace(localOut.value), '\n');
      for i := 0 to |lines|
        invariant localBranches == LocalBranches(lines[..i], configured)
      {
        assert lines[..i + 1][..i] == lines[..i];
        assert LocalBranches(lines[..i + 1], configured)
            == LocalBranches(lines[..i], configured) + Pick(lines[i], LocalNameOf, configured);
        var line := lines[i];
        if line != "" {
          var branch := TrimSpace(TrimPrefix(line, "*"));
          if Contains(configured, branch) {
            localBranches := localBranches + [branch];
          }
        }
      }
      assert lines[..|lines|] == lines;
    }
  }

  /** The second half of `getConfiguredBranches`: the configured names among
      the `git branch -r` lines, in line order. */
  method ListRemoteBranches(remoteOut: Option<string>, configured: seq<string>) returns (remoteBranches: seq<string>)
    ensures remoteBranches == RemoteBranches(Lines(remoteOut), configured)
  {
    remoteBranches := [];
    if remoteOut.Some? {
      var lines := Split(TrimSpace(remoteOut.value), '\n');
      for i := 0 to |lines|
        invariant remoteBranches == RemoteBranches(lines[..i], configured)
      {
        assert lines[..i + 1][..i] == lines[..i];
        ghost var before := remoteBranches;
        var line := lines[i];
        if line != "" {
          var parts := Split(TrimSpace(line), '/');
          if |parts| >= 2 {
            var branch := parts[|parts| - 1];
            if Contains(configured, branch) {
              remoteBranches := remoteBranches + [branch];
            }
          }
        }
        assert remoteBranches == before + Pick(line, RemoteName, configured);
      }
      assert lines[..|lines|] == lines;
    }
  }

  /** `getConfiguredBranches(configuredBranches)`: the local names, then
      the remote names, with repeats dropped. */
  method GetConfiguredBranches(localOut: Option<string>, remoteOut: Option<string>, configured: seq<string>)
    returns (branches: seq<string>)
    ensures branches == ConfiguredBranches(localOut, remoteOut, configured)
  {
    var localBranches := ListLocalBranches(localOut, configured);
    var remoteBranches := ListRemoteBranches(remoteOut, configured);
    branches := UniqueStrings(localBranches + remoteBranches);
  }

  // ---------------------------------------------------------------------
  // filterExistingBranches

  /** The configured branch names, in configuration order. */
  function BranchNames(entries: seq<BranchTag>): (names: seq<string>)
    ensures |names| == |entries| && forall k :: 0 <= k < |entries| ==> names[k] == entries[k].branch
    ensures forall b :: b in names <==> exists e :: e in entries && e.branch == b
  {
    seq(|entries|, k requires 0 <= k < |entries| => entries[k].branch)
  }

  /** The entries whose branch is available, in their original order. */
  function Kept(entries: seq<BranchTag>, available: seq<string>): seq<BranchTag> {
    if entries == [] then []
    else
      var last := entries[|entries| - 1];
      Kept(entries[..|entries| - 1], available) + (if last.branch in available then [last] else [])
  }

  /** `Kept` keeps an entry exactly when its branch is available, and keeps
      every entry when every branch is. */
  lemma {:induction false} KeptSpec(entries: seq<BranchTag>, available: seq<string>)
    ensures forall e :: e in Kept(entries, available) <==> e in entries && e.branch in available
    ensures (forall k :: 0 <= k < |entries| ==> entries[k].branch in available) ==> Kept(entries, available) == entries
  {
    if entries != [] {
      var init := entries[..|entries| - 1];
      KeptSpec(init, available);
      assert entries == init + [entries[|entries| - 1]];
      assert (forall k :: 0 <= k < |entries| ==> entries[k].branch in available) ==>
             (forall k :: 0 <= k < |init| ==> init[k].branch in available);
    }
  }

  /** The filtering loop of `filterExistingBranches`: each entry whose
      branch `branchExists` finds is appended, in order. */
  method KeepExisting(entries: seq<BranchTag>, available: seq<string>) returns (kept: seq<BranchTag>)
    ensures kept == Kept(entries, available)
  {
    kept := [];
    for i := 0 to |entries|
      invariant kept == Kept(entries[..i], available)
    {
      assert entries[..i + 1][..i] == entries[..i];
      var found := BranchExists(entries[i].branch, available);
      if found {
        kept := kept + [entries[i]];
      }
    }
    assert entries[..|entries|] == entries;
  }

  /** `filterExistingBranches(config, hasRemote)` after the fetch: keeps the
      entries whose branch `getConfiguredBranches` finds, in order. */
  method FilterExistingBranches(config: Config, localOut: Option<string>, remoteOut: Option<string>)
    returns (filtered: Config)
    ensures filtered.branchTags ==
      Kept(config.branchTags, ConfiguredBranches(localOut, remoteOut, BranchNames(config.branchTags)))
  {
    var names := [];
    for i := 0 to |config.branchTags|
      invariant names == BranchNames(config.branchTags[..i])
    {
      names := names + [config.branchTags[i].branch];
    }
    assert config.branchTags[..|config.branchTags|] == config.branchTags;
    var available := GetConfiguredBranches(localOut, remoteOut, names);
    var kept := KeepExisting(config.branchTags, available);
    filtered := Config(kept);
  }

  /** An entry survives the filter exactly when some local or remote line
      names its branch. */
  lemma FilterKeepsListedBranches(config: Config, localOut: Option<string>, remoteOut: Option<string>, e: BranchTag)
    ensures
      var available := ConfiguredBranches(localOut, remoteOut, BranchNames(config.branchTags));
      e in Kept(config.branchTags, available) <==>
        e in config.branchTags &&
        ((exists k :: 0 <= k < |Lines(localOut)| && Lines(localOut)[k] != "" && LocalName(Lines(localOut)[k]) == e.branch) ||
         (exists k :: 0 <= k < |Lines(remoteOut)| && Lines(remoteOut)[k] != "" && RemoteName(Lines(remoteOut)[k]) == Some(e.branch)))
  {
    var names := BranchNames(config.branchTags);
    KeptSpec(config.branchTags, ConfiguredBranches(localOut, remoteOut, names));
    ConfiguredBranchesSpec(localOut, remoteOut, names, e.branch);
    if e in config.branchTags {
      var k :| 0 <= k < |config.branchTags| && config.branchTags[k] == e;
      assert names[k] == e.branch;
    }
  }
}
