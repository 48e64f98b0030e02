/** Whether a tag belongs to a branch's history, decided against an
    abstract repository (main.go, `isTagOnBranch`). Each git query becomes a
    field: a query that fails is a name missing from the field. */
module Ancestry {
  import opened Text

  type Commit = string

  datatype Repository = Repository(
    /** the tags `git show-ref --tags <tag>` finds */
    tags: set<string>,
    /** the commit `git rev-list -n 1 <tag>` prints, trimmed */
    tagCommits: map<string, Commit>,
    /** the commit `git rev-parse --verify <name>` prints, trimmed */
    refs: map<string, Commit>,
    /** the pairs (a, b) for which `git merge-base --is-ancestor a b` succeeds */
    ancestors: set<(Commit, Commit)>)

  /** The branch's commit: the local name first, then `origin/<branch>`. */
  function ResolveBranch(repo: Repository, branch: string): (commit: Option<Commit>)
    ensures commit.Some? <==> branch in repo.refs || "origin/" + branch in repo.refs
    ensures branch in repo.refs ==> commit == Some(repo.refs[branch])
    ensures branch !in repo.refs && "origin/" + branch in repo.refs ==>
      commit == Some(repo.refs["origin/" + branch])
  {
    if branch in repo.refs then Some(repo.refs[branch])
    else if "origin/" + branch in repo.refs then Some(repo.refs["origin/" + branch])
    else None
  }

  /** `isTagOnBranch(tag, branch)`: false when the tag does not exist, its
      commit does not resolve or the branch resolves under neither name;
      otherwise true when the tag's commit is the branch's commit, and
      otherwise the answer of the ancestor query. */
  function IsTagOnBranch(repo: Repository, tag: string, branch: string): (onBranch: bool)
    ensures onBranch ==> tag in repo.tags && tag in repo.tagCommits && ResolveBranch(repo, branch).Some?
    ensures onBranch <==>
      tag in repo.tags && tag in repo.tagCommits && ResolveBranch(repo, branch).Some? &&
      (repo.tagCommits[tag] == ResolveBranch(repo, branch).value ||
       (repo.tagCommits[tag], ResolveBranch(repo, branch).value) in repo.ancestors)
  {
    if tag !in repo.tags then false
    else if tag !in repo.tagCommits then false
    else
      var tagCommit := repo.tagCommits[tag];
      match ResolveBranch(repo, branch)
      case None => false
      case Some(branchCommit) =>
        if tagCommit == branchCommit then true
        else (tagCommit, branchCommit) in repo.ancestors
  }

  /** git counts every commit among its own ancestors; where the relation
      says so, the tip check is only a shortcut and the answer is the
      ancestor query alone. */
  lemma TipCheckIsShortcut(repo: Repository, tag: string, branch: string)
    requires forall c :: (c, c) in repo.ancestors || c !in repo.tagCommits.Values
    ensures IsTagOnBranch(repo, tag, branch) <==>
      tag in repo.tags && tag in repo.tagCommits && ResolveBranch(repo, branch).Some? &&
      (repo.tagCommits[tag], ResolveBranch(repo, branch).value) in repo.ancestors
  {
    if tag in repo.tags && tag in repo.tagCommits && ResolveBranch(repo, branch).Some? {
      var c := repo.tagCommits[tag];
      assert c in repo.tagCommits.Values;
    }
  }

  /** The local branch shadows the remote-tracking one: when `branch`
      resolves, whatever `origin/<branch>` points to does not matter. */
  lemma LocalBranchFirst(repo: Repository, tag: string, branch: string, remoteCommit: Option<Commit>)
    requires branch in repo.refs
    ensures
      var remote := "origin/" + branch;
      var refs' := if remoteCommit.Some? then repo.refs[remote := remoteCommit.value] else repo.refs - {remote};
      IsTagOnBranch(repo.(refs := refs'), tag, branch) == IsTagOnBranch(repo, tag, branch)
  {
    var remote := "origin/" + branch;
    assert |remote| > |branch|;
    assert remote != branch;
  }

  /** Without a local branch the remote-tracking branch decides. */
  lemma RemoteFallback(repo: Repository, tag: string, branch: string)
    requires branch !in repo.refs && "origin/" + branch in repo.refs
    requires tag in repo.tags && tag in repo.tagCommits
    requires repo.tagCommits[tag] == repo.refs["origin/" + branch]
    ensures IsTagOnBranch(repo, tag, branch)
  {
  }

  /** A tag nobody can find is on no branch, and a branch that resolves
      under neither name holds no tag. */
  lemma FailsClosed(repo: Repository, tag: string, branch: string)
    requires tag !in repo.tags || (branch !in repo.refs && "origin/" + branch !in repo.refs)
    ensures !IsTagOnBranch(repo, tag, branch)
  {
  }
}
