/** The decisions the interactive prompts make on what the user types
    (main.go, `promptForTag`, `selectBranchAndTag`, `promptForPushToRemote`).
    Standard input is a sequence of lines; printing is left out. */
module Prompt {
  import opened Text
  import opened VersionCodec
  import opened TagRanker

  /** The pattern `^<prefix>\d+\.\d+\.\d+$` (RE2's `\d` is an ASCII digit,
      so no sign is allowed here). */
  predicate MatchesTagPattern(input: string, prefix: string) {
    && HasPrefix(input, prefix)
    && var parts := Pieces(input, |prefix|);
    && |parts| == 3
    && forall k :: 0 <= k < 3 ==> parts[k] != "" && AllDigits(parts[k])
  }

  /** The pattern matches exactly the texts `prefix + a + "." + b + "." + c`
      with three non-empty runs of digits, and such a text passes
      `validateTagFormat` too. */
  lemma PatternShape(input: string, prefix: string)
    ensures MatchesTagPattern(input, prefix) <==>
      exists a, b, c :: Digits(a) && Digits(b) && Digits(c) && input == Compose(prefix, a, b, c)
    ensures MatchesTagPattern(input, prefix) ==> ValidateTagFormat(input, prefix)
  {
    if MatchesTagPattern(input, prefix) {
      var parts := Pieces(input, |prefix|);
      assert parts == [parts[0], parts[1], parts[2]];
      assert input == prefix + input[|prefix|..];
      assert input == Compose(prefix, parts[0], parts[1], parts[2]);
      assert Digits(parts[0]) && Digits(parts[1]) && Digits(parts[2]);
    }
    if exists a, b, c :: Digits(a) && Digits(b) && Digits(c) && input == Compose(prefix, a, b, c) {
      var a, b, c :| Digits(a) && Digits(b) && Digits(c) && input == Compose(prefix, a, b, c);
      ComposeIsValid(prefix, a, b, c);
    }
  }

  /** A non-empty run of ASCII digits. */
  predicate Digits(s: string) { s != "" && AllDigits(s) }

  /** An input the pattern accepts has the format's prefix as its own prefix. */
  lemma MatchedPrefix(input: string, prefix: string)
    requires NoDigits(prefix) && MatchesTagPattern(input, prefix)
    ensures ExtractPrefix(input) == prefix
  {
    var parts := Pieces(input, |prefix|);
    assert input == prefix + input[|prefix|..];
    assert parts[0] != "" && IsDigit(parts[0][0]);
    assert parts == [parts[0], parts[1], parts[2]];
    assert [parts[0], parts[1], parts[2]][1..] == [parts[1], parts[2]];
    assert input[|prefix|..][0] == Join(parts, '.')[0] == parts[0][0];
    ExtractPrefixOf(prefix, input[|prefix|..]);
  }

  /** The empty line never matches, which is why the source, reading `""`
      again and again at end of input, never leaves its loop. */
  lemma EmptyNeverMatches(prefix: string)
    ensures !MatchesTagPattern("", prefix)
  {
    if HasPrefix("", prefix) {
      SplitWhole("", '.');
    }
  }

  /** The k-th line the prompt reads, trimmed; past the end of input
      `ReadString` returns `""`. */
  function Line(stdin: seq<string>, k: nat): string {
    if k < |stdin| then TrimSpace(stdin[k]) else ""
  }

  /** The k-th input the loop examines: the first line, or the suggested
      tag when that line is empty; then the following lines. */
  function Candidate(stdin: seq<string>, k: nat, defaultTag: string): string {
    if k == 0 && Line(stdin, 0) == "" then defaultTag else Line(stdin, k)
  }

  /** The loop leaves with an input that matches the pattern and, when there
      is a last tag, ranks above it. */
  predicate Acceptable(input: string, prefix: string, lastTag: string) {
    MatchesTagPattern(input, prefix) && Ranks(input, lastTag)
  }

  /** `isTagVersionGreater` accepts the input over the last tag (any input
      when there is none). */
  predicate Ranks(input: string, lastTag: string) {
    lastTag == "" || (|ExtractPrefix(input)| <= |lastTag| && IsTagVersionGreater(input, lastTag))
  }

  /** No index below `n` satisfies `holds`. */
  predicate NoneBefore(holds: nat -> bool, n: nat) {
    forall k: nat :: k < n ==> !holds(k)
  }

  /** `promptForTag(tagFormat, defaultTag, lastTag)`: returns the first input,
      in reading order, that is acceptable; every input before it is
      rejected and read over. `None` stands for the end of input without an
      acceptable line, where the source keeps reading empty lines forever. */
  method PromptForTag(tagFormat: string, defaultTag: string, lastTag: string, stdin: seq<string>)
    returns (tag: Option<string>, attempt: nat)
    requires lastTag == "" || |ExtractPrefix(tagFormat)| <= |lastTag|
    ensures tag.Some? ==>
      && tag.value == Candidate(stdin, attempt, defaultTag)
      && Acceptable(tag.value, ExtractPrefix(tagFormat), lastTag)
      && forall k :: 0 <= k < attempt ==> !Acceptable(Candidate(stdin, k, defaultTag), ExtractPrefix(tagFormat), lastTag)
    ensures tag.None? ==>
      forall k: nat :: !Acceptable(Candidate(stdin, k, defaultTag), ExtractPrefix(tagFormat), lastTag)
  {
    var prefix := ExtractPrefix(tagFormat);
    var input := Line(stdin, 0);
    if input == "" {
      input := defaultTag;
    }
    var bound := if |stdin| == 0 then 1 else |stdin|;
    attempt := 0;
    while attempt < bound
      invariant attempt <= bound
      invariant input == Candidate(stdin, attempt, defaultTag)
      invariant NoneBefore(AcceptedAt(stdin, defaultTag, prefix, lastTag), attempt)
    {
      if !MatchesTagPattern(input, prefix) {
        RejectOne(stdin, defaultTag, prefix, lastTag, attempt);
        attempt := attempt + 1;
        input := Line(stdin, attempt);
        continue;
      }
      MatchedPrefix(input, prefix);
      if lastTag != "" && !IsTagVersionGreater(input, lastTag) {
        RejectOne(stdin, defaultTag, prefix, lastTag, attempt);
        attempt := attempt + 1;
        input := Line(stdin, attempt);
        continue;
      }
      RejectedBefore(stdin, defaultTag, prefix, lastTag, attempt);
      return Some(input), attempt;
    }
    RejectedForever(stdin, defaultTag, prefix, lastTag, attempt);
    tag := None;
  }

  /** Whether the k-th input the prompt examines is acceptable. */
  function AcceptedAt(stdin: seq<string>, defaultTag: string, prefix: string, lastTag: string): nat -> bool {
    (k: nat) => Acceptable(Candidate(stdin, k, defaultTag), prefix, lastTag)
  }

  /** Rejecting the n-th input extends the run of rejected inputs by one. */
  lemma RejectOne(stdin: seq<string>, defaultTag: string, prefix: string, lastTag: string, n: nat)
    requires NoneBefore(AcceptedAt(stdin, defaultTag, prefix, lastTag), n)
    requires !Acceptable(Candidate(stdin, n, defaultTag), prefix, lastTag)
    ensures NoneBefore(AcceptedAt(stdin, defaultTag, prefix, lastTag), n + 1)
  {
    assert !AcceptedAt(stdin, defaultTag, prefix, lastTag)(n);
  }

  /** Every input before the n-th was rejected. */
  lemma RejectedBefore(stdin: seq<string>, defaultTag: string, prefix: string, lastTag: string, n: nat)
    requires NoneBefore(AcceptedAt(stdin, defaultTag, prefix, lastTag), n)
    ensures forall k :: 0 <= k < n ==> !Acceptable(Candidate(stdin, k, defaultTag), prefix, lastTag)
  {
    forall k | 0 <= k < n
      ensures !Acceptable(Candidate(stdin, k, defaultTag), prefix, lastTag)
    {
      assert !AcceptedAt(stdin, defaultTag, prefix, lastTag)(k);
    }
  }

  /** Once every line of input was rejected, so is every later input: past
      the end the prompt reads only empty lines, which never match. */
  lemma RejectedForever(stdin: seq<string>, defaultTag: string, prefix: string, lastTag: string, n: nat)
    requires NoneBefore(AcceptedAt(stdin, defaultTag, prefix, lastTag), n)
    requires 1 <= n && |stdin| <= n
    ensures forall k: nat :: !Acceptable(Candidate(stdin, k, defaultTag), prefix, lastTag)
  {
    RejectedBefore(stdin, defaultTag, prefix, lastTag, n);
    forall k: nat | n <= k
      ensures !Acceptable(Candidate(stdin, k, defaultTag), prefix, lastTag)
    {
      assert Candidate(stdin, k, defaultTag) == "";
      EmptyNeverMatches(prefix);
    }
  }

  /** The branch number the user picks (main.go:318-328): the first branch
      for an empty line or anything that is not a number from 1 to `count`,
      otherwise that branch. The result is an index into the list. */
  function SelectIndex(line: string, count: nat): (index: nat)
    requires count > 0
    ensures index < count
    ensures index != 0 ==> AtoiValid(TrimSpace(line)) && Atoi(TrimSpace(line)) == index + 1
    ensures AtoiValid(TrimSpace(line)) && 1 <= Atoi(TrimSpace(line)) <= count ==>
      index == Atoi(TrimSpace(line)) - 1
  {
    var input := TrimSpace(line);
    if input != "" && AtoiValid(input) && 0 < Atoi(input) <= count then Atoi(input) - 1 else 0
  }

  /** The push question (main.go:695-700): yes for an empty answer and for
      `y` or `yes` in any letter case, after trimming white space. */
  function WantsPush(line: string): (push: bool)
    ensures push <==>
      var answer := TrimSpace(line);
      answer == "" || EqualFold(answer, "y") || EqualFold(answer, "yes")
  {
    var input := ToLower(TrimSpace(line));
    ToLowerMatches(TrimSpace(line), "y");
    ToLowerMatches(TrimSpace(line), "yes");
    !(input != "" && input != "y" && input != "yes")
  }
}
