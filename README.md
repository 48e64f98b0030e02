# go-git-publish: tag and version logic in Dafny

`go-git-publish` is a command-line helper that creates release tags on git
branches. Each branch has a tag format: a textual prefix followed by
`MAJOR.MINOR.PATCH` (`v0.0.0`, `g0.0.0`, `release0.0.0`). The tool works
in these steps (`main.go:42-117`):

1. It drops the configured branches that the repository does not have.
2. The user picks one of the remaining branches by number.
3. It finds that branch's last tag: the first listed tag that is on the branch and well formed.
4. It suggests that tag with its patch number raised by one.
5. It reads the user's tag until the input matches the format and ranks above the last tag.
6. When the repository has a remote, it asks whether to push the tag and to which remote.
7. It creates the tag on the branch (`createTag`) and, if the answer was yes, pushes it.

This project models that logic. It covers the version codec (prefix
extraction, format validation and the next-tag suggestion), the ranker
`isTagVersionGreater`, and the resolver `getLastTag` against an abstract
repository. It also covers the prompt loop over a sequence of input lines
and the branch list utilities. Finally it covers the comparator sort that
the repository's tests use to order tags (`sortVersionTags` in
`main_test.go`).

Each git query is an input of the model:
- a command's output is an `Option<string>`, with `None` for a failed command;
- the on-branch test is a function parameter;
- the ancestry queries form a `Repository` value of maps and a relation.

Standard input is a sequence of lines. Numbers are unbounded integers.

Files, one module each:

- `text.dfy` (`Text`): the Go library behaviour the code relies on.
  - `strings.Split`, `Join`, `TrimSpace`, `TrimPrefix`, `HasPrefix` and `ToLower`, on ASCII.
  - `strconv.Atoi` (optional sign, then ASCII digits) and `Itoa`.
- `version_codec.dfy` (`VersionCodec`): `extractPrefix` and `validateTagFormat`.
- `tag_ranker.dfy` (`TagRanker`): `isTagVersionGreater` and the order it induces.
- `next_version.dfy` (`NextVersion`): `calculateNextTag`.
- `ancestry.dfy` (`Ancestry`): `isTagOnBranch` against an abstract repository.
- `tag_resolver.dfy` (`TagResolver`): `hasAnyTags` and `getLastTag`.
- `prompt.dfy` (`Prompt`): the `promptForTag` loop, the branch number choice and the push answer.
- `branches.dfy` (`Branches`): `contains`, `branchExists`, `uniqueStrings`, `getConfiguredBranches` and `filterExistingBranches`.
- `version_sort.dfy` (`VersionSort`): the comparator of `sortVersionTags` and an in-place insertion sort on an array.
  - From Go 1.19 on, `sort.Slice` runs insertion sort for slices of at most 12 elements, and every test list has at most 5.

Three behaviours of the code that the model keeps:

- **Non-numeric pieces.** `isTagVersionGreater` ignores `Atoi` errors, so a piece that is not a number reads as 0 (`main.go:586-605`). So `v1.a.3` ranks above `v1.0.2`; `TagRanker.NonNumericPieceReadsAsZero` states this.
- **Signs.** `validateTagFormat` and `calculateNextTag` accept a leading `+` or `-` on a piece, as `strconv.Atoi` does. Only the prompt's regular expression refuses signs.
- **No parse/format pair.** The code has no separate parse and format functions. `calculateNextTag` keeps the major and minor text verbatim, leading zeros and signs included, and writes only the patch with `strconv.Itoa`. Two round trips are proved instead. Composing a tag from three pieces and splitting it after the prefix gives the pieces back (`VersionCodec.PiecesOfCompose`, `VersionCodec.ValidTagShape`). `Itoa` and `Atoi` are inverse between integers and the canonical number text `Itoa` writes (`Text.Itoa`, `Text.ItoaOfAtoi`).

## Model

| member | source | states |
|---|---|---|
| Text.Split | main.go:464 | `strings.Split` never returns an empty list, no piece holds the separator, and joining the pieces with it gives the input back |
| Text.SplitJoin | main.go:542-560 | splitting undoes joining whenever no piece holds the separator |
| Text.SplitConcat | main.go:464 | splitting `a + sep + b` splits `a` and `b` independently and concatenates the results |
| Text.SplitAtFirst | main.go:464-465 | text before the first separator is the first piece |
| Text.SplitWhole | main.go:219-220 | text without the separator is one piece |
| Text.LastPiece | main.go:219-221 | after a last separator the last piece is the text that follows it, and there are at least two pieces |
| Text.TrimPrefix | main.go:202 | `strings.TrimPrefix` removes the prefix exactly when the text starts with it and otherwise returns the text unchanged |
| Text.TrimLeftShape | main.go:408 | trimming on the left keeps a suffix that does not start with white space and drops only white space |
| Text.TrimRightShape | main.go:408 | trimming on the right keeps a prefix that does not end with white space and drops only white space |
| Text.TrimSpaceEmpty | main.go:408-409 | `TrimSpace` gives `""` exactly when every character is white space |
| Text.ToLower | main.go:695 | the result has no upper-case ASCII letter and equals the input up to letter case (`strings.EqualFold` on ASCII) |
| Text.ToLowerMatches | main.go:695-700 | lower-casing the input gives a lower-case word exactly when the input equals that word up to letter case |
| Text.Itoa | main.go:556-557 | `strconv.Itoa` writes text that `strconv.Atoi` (`Text.AtoiValid`, `Text.Atoi`: optional sign, then ASCII digits) accepts and reads back as the same number; the text is canonical: no leading zero, `-` exactly for a negative number, never `+` |
| Text.ItoaOfAtoi | main.go:555-557 | on canonical number text, `Itoa(Atoi(s)) == s` |
| VersionCodec.ExtractPrefix | main.go:480-487 | the result is a prefix of the format, holds no ASCII digit, and is followed by a digit or the end: the longest digit-free leading part |
| VersionCodec.ExtractPrefixOf | main.go:480-487 | any digit-free text followed by a digit or by nothing is exactly the prefix |
| VersionCodec.ExtractPrefixIdempotent | main.go:480-487 | the prefix of `prefix + "0.0.0"` is the prefix again |
| VersionCodec.ExtractPrefixDigitFree | main.go:486 | a format without a digit is all prefix |
| VersionCodec.ExtractPrefixExamples | main_test.go:55-60 | `v1.0.0` gives `v`, `1.0.0` and `""` give `""` |
| VersionCodec.ExtractPrefixOfRelease | main_test.go:57 | `release1.2.3` gives `release` |
| VersionCodec.ValidTagShape | main.go:455-477 | `validateTagFormat(tag, prefix)` (`VersionCodec.ValidateTagFormat`) holds exactly for `prefix + a + "." + b + "." + c` with three `Atoi`-valid pieces |
| VersionCodec.PiecesOfCompose | main.go:461-464 | a tag composed of a prefix and three dot-free pieces starts with the prefix and splits back into those pieces |
| VersionCodec.ComposeIsValid | main.go:455-477 | a tag composed of three `Atoi`-valid pieces passes `validateTagFormat` and splits back into them |
| VersionCodec.ValidateTagFormatExamples | main.go:456-458 | `v1.2.3` passes with prefix `v`; `x1.2.3` fails on its prefix |
| VersionCodec.ValidateTagFormatRefusesPieces | main.go:465-473 | `v1.2` fails (two pieces) and `v1.a.3` fails (a piece `Atoi` refuses) |
| TagRanker.IsTagVersionGreater | main.go:564-607 | true when there is no old tag; otherwise true exactly when both tags, cut at the new tag's prefix length, have three pieces and the old triple is below the new one in lexicographic integer order |
| TagRanker.GreaterIsVersionOrder | main.go:585-606 | on two well-formed tags of one prefix the ranker is strict lexicographic order of their (major, minor, patch) integers |
| TagRanker.GreaterIrreflexive | main_test.go:83 | no tag ranks above itself |
| TagRanker.GreaterTrichotomy | main.go:585-606 | on one prefix: at most one direction holds, and neither holds exactly when the versions are equal |
| TagRanker.GreaterTransitive | main.go:585-606 | on one prefix the ranking is transitive |
| TagRanker.GreaterAfterHeads | main.go:569-578 | both tags are cut at the new tag's prefix length, whatever text the old tag has there |
| TagRanker.GreaterWhenPatchRaised | main.go:603-606 | same major and minor text with a larger patch number ranks above |
| TagRanker.GreaterOfComposed | main.go:564-607 | for composed tags of one prefix the ranking is the order of the `Atoi` readings of the pieces |
| TagRanker.NineToTenRegression | main_test.go:162-164 | on any digit-free prefix `1.9.10` ranks above `1.9.9` and not the other way round |
| TagRanker.MajorDecides | main_test.go:89 | `2.0.0` ranks above `1.9.9` |
| TagRanker.SmallerPatchIsNotGreater | main_test.go:84 | `1.0.0` does not rank above `1.0.1` |
| TagRanker.NonNumericPieceReadsAsZero | main.go:595-598 | a minor piece `a` reads as 0 and `1.a.3` ranks above `1.0.2` |
| NextVersion.CalculateNextTag | main.go:532-560 | the piece-by-piece loop with the in-place patch overwrite returns `NextTag` |
| NextVersion.NextTagJoins | main.go:555-560 | with three valid pieces the result is the prefix plus the pieces, patch replaced, joined by dots |
| NextVersion.NextTagIsWellFormed | main.go:532-560 | the suggestion `NextVersion.NextTag`, the value `calculateNextTag` returns, passes `validateTagFormat` for the format's prefix, keeps major and minor text, and has patch number one more |
| NextVersion.NextTagAdvances | main.go:532-607 | `isTagVersionGreater` ranks the suggestion above the last tag |
| NextVersion.NextTagExamplesFallback | main_test.go:112-114 | no last tag, or `v1.a.3`, gives the format `v0.0.0` unchanged |
| NextVersion.NextTagOfComposed | main.go:555-560 | for `prefix + major.minor.patch` the suggestion is `prefix + major.minor.(patch+1)` |
| NextVersion.NextTagNoCarry | main_test.go:142-149 | after `1.9.9` comes `1.9.10`, not `1.10.0`, for any format prefix |
| NextVersion.NextTagNoPrefix | main_test.go:115 | a format starting with a digit has no prefix, and bare numbers get their patch raised |
| Ancestry.ResolveBranch | main.go:505-517 | the branch resolves exactly when the local or the `origin/` name does; the local name wins, and without it the commit is the `origin/` ref's |
| Ancestry.IsTagOnBranch | main.go:490-529 | true exactly when the tag exists, its commit resolves, the branch resolves, and the tag commit is the branch commit or its ancestor |
| Ancestry.TipCheckIsShortcut | main.go:520-528 | where every commit is its own ancestor, the tip check changes nothing |
| Ancestry.LocalBranchFirst | main.go:505-512 | with a local branch, the `origin/` ref does not affect the answer |
| Ancestry.RemoteFallback | main.go:509-517 | without a local branch, the tag at the `origin/` tip is on the branch |
| Ancestry.FailsClosed | main.go:491-516 | a missing tag, or a branch that resolves under neither name, gives false |
| TagResolver.HasAnyTags | main.go:401-410 | true exactly when the command succeeded and its output holds a non-space character |
| TagResolver.GetLastTag | main.go:413-452 | `""` with no tags or a failed listing; otherwise the first listed candidate that is non-empty, on the branch and well formed, with all earlier ones rejected, or `""` exactly when none qualifies |
| TagResolver.GetLastTagInRepository | main.go:437-448 | with the real ancestry test, a returned tag exists, is on the branch and is well formed |
| Prompt.PatternShape | main.go:612-614 | the pattern `^<prefix>\d+\.\d+\.\d+$` (`Prompt.MatchesTagPattern`) matches exactly `prefix + a.b.c` with three non-empty digit runs, and every match passes `validateTagFormat` |
| Prompt.MatchedPrefix | main.go:612-614 | a matched input has the format's prefix as its own prefix, so the ranker can cut it |
| Prompt.EmptyNeverMatches | main.go:636-641 | the empty line never matches |
| Prompt.PromptForTag | main.go:610-660 | returns the first candidate input (the default for an empty first line) that matches and ranks above the last tag, every earlier one rejected; `None` only when no input ever would be accepted |
| Prompt.SelectIndex | main.go:318-328 | the index is in range; it is `n - 1` exactly when the trimmed line is a number `n` from 1 to the count, otherwise 0 |
| Prompt.WantsPush | main.go:695-700 | yes exactly for an empty trimmed answer or one equal to `y` or `yes` up to letter case |
| Branches.Contains | main.go:237-244 | true exactly when the item is in the list |
| Branches.BranchExists | main.go:260-267 | the early-exit scan agrees with `Contains` |
| Branches.UniqueSpec | main.go:247-257 | the result has the input's elements, each once, ordered by first occurrence |
| Branches.UniqueOfDistinct | main.go:247-257 | a duplicate-free list is unchanged |
| Branches.UniqueIdempotent | main.go:247-257 | applying it twice equals applying it once |
| Branches.UniqueStrings | main.go:247-257 | the loop with its `keys` map computes `Unique` |
| Branches.RemoteNameAfterLastSlash | main.go:219-221 | a remote line names the text after its last `/`, and nothing when it has none |
| Branches.RemoteNameIsLastSegment | main.go:218-221 | `head + "/" + name` names `name`, whatever `head` is |
| Branches.PickedMembers | main.go:199-228 | a name is collected exactly when it is configured and some non-empty line gives it |
| Branches.LocalBranchesMembers | main.go:199-208 | a local name is listed exactly when it is configured and some non-empty line, star and spaces removed, is that name |
| Branches.RemoteBranchesMembers | main.go:216-228 | a remote name is listed exactly when it is configured and some non-empty line names it |
| Branches.ConfiguredBranchesSpec | main.go:193-234 | the result has no duplicates and holds a name exactly when it is configured and some local or remote line names it |
| Branches.ListLocalBranches | main.go:195-209 | the local loop computes the local names in line order |
| Branches.ListRemoteBranches | main.go:212-229 | the remote loop computes the remote names in line order |
| Branches.GetConfiguredBranches | main.go:193-234 | local then remote names, with repeats dropped |
| Branches.BranchNames | main.go:166-170 | one name per configuration entry, in order; a name is listed exactly when some entry has that branch |
| Branches.KeptSpec | main.go:180-189 | an entry is kept exactly when its branch is available, and all are kept when all are available |
| Branches.KeepExisting | main.go:180-187 | the loop keeps the entries whose branch `branchExists` finds, in order |
| Branches.FilterExistingBranches | main.go:165-190 | the filtered configuration keeps exactly the entries whose branch `getConfiguredBranches` finds, in order |
| Branches.FilterKeepsListedBranches | main.go:165-190 | an entry survives exactly when some local or remote line names its branch |
| VersionSort.CutOfIsPrefixLength | main_test.go:209-215 | the comparator's cut is the left tag's `extractPrefix` length |
| VersionSort.LessIsVersionOrder | main_test.go:207-257 | on well-formed tags of one prefix, the comparator `less(a, b)` (`VersionSort.Less`) is version order and equals `isTagVersionGreater(b, a)` |
| VersionSort.LessIrreflexive | main_test.go:207-257 | no tag is less than itself |
| VersionSort.LessFallsBack | main_test.go:221-228 | without three pieces on both sides the comparator is string `<` |
| VersionSort.CutFromLeftTag | main_test.go:209-219 | the cut comes from the left tag only: a longer right-hand prefix falls back to string `<` |
| VersionSort.LessOfComposed | main_test.go:230-256 | on composed tags of one prefix the comparator is lexicographic integer order |
| VersionSort.GrayOrder | main_test.go:351-353 | `1.9.9 < 1.9.10 < 1.10.0 < 2.0.0` on any digit-free prefix, and not `1.9.10 < 1.9.9` |
| VersionSort.Swap | main_test.go:207 | exchanges two neighbours in place and keeps the multiset |
| VersionSort.SinkStep | main_test.go:207 | the new array is the old one with the tags at `j - 1` and `j` exchanged; the exchange keeps the insertion invariant and the multiset |
| VersionSort.InsertDown | main_test.go:207 | inserting `tags[i]` extends the sorted run by one, as a permutation, and leaves `tags[i + 1..]` unchanged |
| VersionSort.InsertionSort | main_test.go:206-258 | the result is a permutation, short lists stay unchanged, and a one-scheme list ends sorted |
| VersionSort.SortVersionTags | main_test.go:206-258 | a permutation of the input; empty and single-element lists are unchanged; a list of one well-formed prefix ends ascending by version |

## Left out

- Git process execution (`main`, `isGitRepository`, `getAllRemoteURLs`, `createTag`, `pushTagToRemote`, `os.Exit`): command outputs, the on-branch test and the ancestry queries are inputs instead.
- `fetchRemote`: a goroutine racing a five-second timer; concurrency and wall-clock time.
- `readConfig` and `writeDefaultConfig`: file I/O and JSON.
- Printing, colours and the rest of `promptForPushToRemote` after the yes/no answer, which iterates a Go map in no fixed order.
- `integration_test.go` and the test harness of `main_test.go` (process mocking, `TestHelperProcess`).
- Integer range: numbers are unbounded. `Atoi` failing outside 64 bits and `patch + 1` overflowing are not modelled.
- Text is ASCII `seq<char>`. Go's byte indexing of UTF-8 and non-ASCII white space are not modelled.
- Go slicing panics become preconditions:
  - `TagRanker.IsTagVersionGreater`, `NextVersion.CalculateNextTag` and `Prompt.PromptForTag` require the old or last tag to be at least as long as the prefix used to cut it;
  - `VersionSort.SortVersionTags` requires `CutSafe`: every tag's cut fits within every other tag. This is more than the comparator needs to avoid a panic, but it follows from the comparator's own assumption that all tags share one prefix (`main_test.go:208`).
- `Prompt.PromptForTag`: at the end of input the source keeps reading empty lines forever. The model returns `None` after the last line and proves that no later input would be accepted.
- `VersionSort.SortVersionTags`: modelled as the insertion sort that `sort.Slice` runs, from Go 1.19 on, on at most 12 elements. Earlier Go versions add a shell pass with gap 6 for 7 to 12 elements. The pattern-defeating quicksort used for longer slices is not modelled. Sortedness is claimed only for lists whose tags are all well formed with one prefix. On mixed or malformed lists the comparator need not be a strict weak order, and only the permutation is claimed.
- `VersionSort.LessFallsBack`: states the string-comparison fallback for a piece count other than three. The fallback for an `Atoi` failure is part of `Less` itself and has no separate lemma.
- `Branches.ListLocalBranches`, `Branches.ListRemoteBranches`, `Branches.KeepExisting`, `VersionSort.InsertionSort`, `VersionSort.InsertDown` and `VersionSort.SinkStep` are the source's loops split into separate methods.
