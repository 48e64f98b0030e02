/** The pieces of Go's `strings` and `strconv` packages that the tag logic
    relies on, over ASCII text. Strings are `seq<char>`; every index is a
    character index, which equals Go's byte offset for ASCII input. */
module Text {

  datatype Option<T> = None | Some(value: T)

  predicate IsDigit(c: char) { '0' <= c <= '9' }

  /** ASCII white space as `strings.TrimSpace` sees it: tab, newline,
      vertical tab, form feed, carriage return and space. */
  predicate IsSpace(c: char) {
    c == ' ' || c == '\t' || c == '\n' || c == '\r' || c == '\U{000B}' || c == '\U{000C}'
  }

  predicate AllDigits(s: string) { forall k :: 0 <= k < |s| ==> IsDigit(s[k]) }

  predicate NoDigits(s: string) { forall k :: 0 <= k < |s| ==> !IsDigit(s[k]) }

  /** `strings.HasPrefix` */
  predicate HasPrefix(s: string, p: string) { |p| <= |s| && s[..|p|] == p }

  /** `strings.TrimPrefix` */
  function TrimPrefix(s: string, p: string): (r: string)
    ensures HasPrefix(s, p) ==> p + r == s
    ensures !HasPrefix(s, p) ==> r == s
  {
    if HasPrefix(s, p) then s[|p|..] else s
  }

  // ---------------------------------------------------------------------
  // strings.Split and strings.Join with a one-character separator

  /** `strings.Join(parts, string(sep))` */
  function Join(parts: seq<string>, sep: char): string
    requires |parts| >= 1
  {
    if |parts| == 1 then parts[0] else parts[0] + [sep] + Join(parts[1..], sep)
  }

  /** `strings.Split(s, string(sep))`: never empty (`Split("")` is `[""]`),
      no piece holds the separator, and joining the pieces gives `s` back. */
  function Split(s: string, sep: char): (parts: seq<string>)
    ensures |parts| >= 1
    ensures forall k :: 0 <= k < |parts| ==> sep !in parts[k]
    ensures Join(parts, sep) == s
  {
    if s == [] then [""]
    else
      var rest := Split(s[1..], sep);
      if s[0] == sep then
        assert Join([""] + rest, sep) == [sep] + Join(rest, sep) by {
          assert ([""] + rest)[1..] == rest;
        }
        [""] + rest
      else
        var parts := [[s[0]] + rest[0]] + rest[1..];
        assert parts[1..] == rest[1..];
        assert Join(parts, sep) == [s[0]] + Join(rest, sep);
        parts
  }

  /** Splitting at the first separator: the text before it is the first piece. */
  lemma SplitAtFirst(a: string, sep: char, b: string)
    requires sep !in a
    ensures Split(a + [sep] + b, sep) == [a] + Split(b, sep)
  {
    SplitConcat(a, sep, b);
    SplitWhole(a, sep);
  }

  /** Text without a separator is a single piece. */
  lemma {:induction false} SplitWhole(a: string, sep: char)
    requires sep !in a
    ensures Split(a, sep) == [a]
  {
    if a != [] {
      SplitWhole(a[1..], sep);
      assert [a[0]] + a[1..] == a;
    }
  }

  /** One step of `Split`: the first character either ends the first piece
      or joins it. */
  lemma SplitCons(c: char, t: string, sep: char)
    ensures Split([c] + t, sep) ==
      if c == sep then [""] + Split(t, sep)
      else [[c] + Split(t, sep)[0]] + Split(t, sep)[1..]
  {
    assert ([c] + t)[1..] == t;
  }

  /** Splitting at any separator splits the two sides independently. */
  lemma {:induction false} SplitConcat(a: string, sep: char, b: string)
    ensures Split(a + [sep] + b, sep) == Split(a, sep) + Split(b, sep)
  {
    if a == [] {
      assert a + [sep] + b == [sep] + b;
      SplitCons(sep, b, sep);
    } else {
      SplitConcat(a[1..], sep, b);
      SplitConcatStep(a[0], a[1..], sep, b);
      RegroupFront(a, sep, b);
    }
  }

  /** Sequence bookkeeping for `SplitConcat`: the first character in front. */
  lemma RegroupFront(a: string, sep: char, b: string)
    requires a != []
    ensures a == [a[0]] + a[1..]
    ensures a + [sep] + b == [a[0]] + (a[1..] + [sep] + b)
  {
    assert a == [a[0]] + a[1..];
  }

  /** The inductive step of `SplitConcat`: one more character in front. */
  lemma SplitConcatStep(c: char, a: string, sep: char, b: string)
    requires Split(a + [sep] + b, sep) == Split(a, sep) + Split(b, sep)
    ensures Split([c] + (a + [sep] + b), sep) == Split([c] + a, sep) + Split(b, sep)
  {
    SplitCons(c, a + [sep] + b, sep);
    SplitCons(c, a, sep);
    GlueFirst(c, sep, Split(a, sep), Split(b, sep));
  }

  /** Sequence bookkeeping for `SplitConcatStep`. */
  lemma GlueFirst(c: char, sep: char, left: seq<string>, right: seq<string>)
    requires |left| >= 1
    ensures (if c == sep then [""] + (left + right) else [[c] + (left + right)[0]] + (left + right)[1..])
         == (if c == sep then [""] + left else [[c] + left[0]] + left[1..]) + right
  {
    if c != sep {
      assert (left + right)[1..] == left[1..] + right;
    }
  }

  /** The last piece is the text after the last separator. */
  lemma LastPiece(head: string, sep: char, name: string)
    requires sep !in name
    ensures |Split(head + [sep] + name, sep)| >= 2
    ensures Split(head + [sep] + name, sep)[|Split(head + [sep] + name, sep)| - 1] == name
  {
    SplitConcat(head, sep, name);
    SplitWhole(name, sep);
  }

  /** `Split` undoes `Join` whenever no piece holds the separator. */
  lemma {:induction false} SplitJoin(parts: seq<string>, sep: char)
    requires |parts| >= 1
    requires forall k :: 0 <= k < |parts| ==> sep !in parts[k]
    ensures Split(Join(parts, sep), sep) == parts
  {
    if |parts| == 1 {
      SplitWhole(parts[0], sep);
    } else {
      SplitJoin(parts[1..], sep);
      SplitAtFirst(parts[0], sep, Join(parts[1..], sep));
      assert [parts[0]] + parts[1..] == parts;
    }
  }

  // ---------------------------------------------------------------------
  // strings.TrimSpace, strings.ToLower

  /** `strings.TrimLeft(s, " \t\n\v\f\r")`: drops the white space `s`
      opens with. */
  function TrimLeft(s: string): (r: string)
    ensures |r| <= |s|
  {
    if s != [] && IsSpace(s[0]) then TrimLeft(s[1..]) else s
  }

  /** `strings.TrimRight(s, " \t\n\v\f\r")`: drops the white space `s`
      closes with. */
  function TrimRight(s: string): (r: string)
    ensures |r| <= |s|
  {
    if s != [] && IsSpace(s[|s| - 1]) then TrimRight(s[..|s| - 1]) else s
  }

  /** `strings.TrimSpace` on ASCII text. */
  function TrimSpace(s: string): string {
    TrimRight(TrimLeft(s))
  }

  /** `TrimLeft` keeps a suffix of its input that does not open with white
      space, and drops only white space. */
  lemma {:induction false} TrimLeftShape(s: string)
    ensures var r := TrimLeft(s);
      && r == s[|s| - |r|..]
      && (r == [] || !IsSpace(r[0]))
      && forall k :: 0 <= k < |s| - |r| ==> IsSpace(s[k])
  {
    if s != [] && IsSpace(s[0]) {
      TrimLeftShape(s[1..]);
      var r := TrimLeft(s);
      assert s[1..][|s| - 1 - |r|..] == s[|s| - |r|..];
      forall k | 1 <= k < |s| - |r|
        ensures IsSpace(s[k])
      {
        assert s[k] == s[1..][k - 1];
      }
    }
  }

  /** `TrimRight` keeps a prefix of its input that does not close with white
      space, and drops only white space. */
  lemma {:induction false} TrimRightShape(s: string)
    ensures var r := TrimRight(s);
      && r == s[..|r|]
      && (r == [] || !IsSpace(r[|r| - 1]))
      && forall k :: |r| <= k < |s| ==> IsSpace(s[k])
  {
    if s != [] && IsSpace(s[|s| - 1]) {
      TrimRightShape(s[..|s| - 1]);
      var r := TrimRight(s);
      assert s[..|s| - 1][..|r|] == s[..|r|];
      forall k | |r| <= k < |s| - 1
        ensures IsSpace(s[k])
      {
        assert s[k] == s[..|s| - 1][k];
      }
    }
  }

  /** `strings.TrimSpace` gives `""` exactly for texts made only of white
      space. */
  lemma TrimSpaceEmpty(s: string)
    ensures TrimSpace(s) == "" <==> forall k :: 0 <= k < |s| ==> IsSpace(s[k])
  {
    TrimLeftShape(s);
    var l := TrimLeft(s);
    TrimRightShape(l);
    if l != [] {
      assert l[0] == s[|s| - |l|];
      if TrimRight(l) != [] {
        var r := TrimRight(l);
        assert r[|r| - 1] == l[|r| - 1] == s[|s| - |l| + |r| - 1];
      }
    } else {
      assert forall k :: 0 <= k < |s| ==> IsSpace(s[k]);
    }
  }

  function LowerChar(c: char): char {
    if 'A' <= c <= 'Z' then (c as int - 'A' as int + 'a' as int) as char else c
  }

  predicate IsUpper(c: char) { 'A' <= c <= 'Z' }

  /** Text without an upper-case ASCII letter. */
  predicate NoUpper(s: string) { forall k :: 0 <= k < |s| ==> !IsUpper(s[k]) }

  /** Two characters that are equal or the same ASCII letter in the other case. */
  predicate SameLetter(a: char, b: char) {
    a == b || (IsUpper(a) && b as int == a as int + 32) || (IsUpper(b) && a as int == b as int + 32)
  }

  /** `strings.EqualFold` on ASCII text: equal up to the case of letters. */
  predicate EqualFold(a: string, b: string) {
    |a| == |b| && forall k :: 0 <= k < |a| ==> SameLetter(a[k], b[k])
  }

  /** `strings.ToLower` on ASCII text: a text without upper-case letters
      that equals the input up to letter case. */
  function ToLower(s: string): (r: string)
    ensures NoUpper(r) && EqualFold(s, r)
  {
    seq(|s|, k requires 0 <= k < |s| => LowerChar(s[k]))
  }

  /** Lower-casing the input gives a lower-case word exactly when the input
      equals that word up to letter case, which is what comparing
      `strings.ToLower(input)` with a word tests. */
  lemma ToLowerMatches(s: string, word: string)
    requires NoUpper(word)
    ensures ToLower(s) == word <==> EqualFold(s, word)
  {
    if EqualFold(s, word) {
      forall k | 0 <= k < |s|
        ensures ToLower(s)[k] == word[k]
      {
        assert SameLetter(s[k], word[k]) && !IsUpper(word[k]);
      }
    }
  }

  // ---------------------------------------------------------------------
  // strconv.Atoi and strconv.Itoa, without the 64-bit range limit

  /** What `strconv.Atoi` accepts: an optional `+` or `-` and then one or
      more ASCII digits. */
  predicate AtoiValid(s: string) {
    if |s| > 0 && (s[0] == '+' || s[0] == '-') then |s| > 1 && AllDigits(s[1..])
    else |s| > 0 && AllDigits(s)
  }

  function DigitValue(c: char): nat requires IsDigit(c) { c as int - '0' as int }

  function DigitChar(d: nat): char requires d < 10 { ('0' as int + d) as char }

  /** The value of a run of decimal digits (`""` reads as 0). */
  function DecimalValue(ds: string): nat
    requires AllDigits(ds)
  {
    if ds == [] then 0 else 10 * DecimalValue(ds[..|ds| - 1]) + DigitValue(ds[|ds| - 1])
  }

  /** The number `strconv.Atoi` returns; 0 when it reports an error, which
      is what the callers that ignore the error go on with. */
  function Atoi(s: string): int {
    if !AtoiValid(s) then 0
    else if s[0] == '-' then -(DecimalValue(s[1..]) as int)
    else if s[0] == '+' then DecimalValue(s[1..])
    else DecimalValue(s)
  }

  /** A piece that `Atoi` accepts holds no dot and no slash. */
  lemma AtoiValidHasNoSeparator(s: string, sep: char)
    requires AtoiValid(s) && sep != '+' && sep != '-' && !IsDigit(sep)
    ensures sep !in s
  {
  }

  /** Decimal digits of a natural number, without leading zeros. */
  function NatToDecimal(n: nat): (ds: string)
    ensures |ds| >= 1 && AllDigits(ds)
    ensures ds[0] != '0' || n == 0
    ensures DecimalValue(ds) == n
    decreases n
  {
    if n < 10 then [DigitChar(n)]
    else
      var ds := NatToDecimal(n / 10) + [DigitChar(n % 10)];
      assert ds[..|ds| - 1] == NatToDecimal(n / 10);
      ds
  }

  /** `strconv.Itoa`: `Atoi` reads back exactly the number written, which is
      digits without leading zeros, and `-` only for a negative number. */
  function Itoa(n: int): (s: string)
    ensures AtoiValid(s) && Atoi(s) == n
    ensures Canonical(s)
    ensures (s[0] == '-') <==> n < 0
    ensures s[0] != '+'
  {
    if n < 0 then
      var s := "-" + NatToDecimal(-n);
      assert s[1..] == NatToDecimal(-n);
      s
    else NatToDecimal(n)
  }

  /** The texts `strconv.Itoa` writes: `0`, or digits that do not start with
      `0`, possibly after a `-`. */
  predicate Canonical(s: string) {
    || s == "0"
    || (s != [] && AllDigits(s) && s[0] != '0')
    || (|s| > 1 && s[0] == '-' && AllDigits(s[1..]) && s[1] != '0')
  }

  /** On the texts `Itoa` writes, `Itoa` undoes `Atoi`. */
  lemma ItoaOfAtoi(s: string)
    requires Canonical(s)
    ensures Itoa(Atoi(s)) == s
  {
    if s[0] == '-' {
      DecimalOfValue(s[1..]);
      assert s == "-" + s[1..];
    } else if s == "0" {
      assert AtoiValid(s) && DecimalValue(s) == 0;
    } else {
      assert IsDigit(s[0]) && Atoi(s) == DecimalValue(s);
      DecimalOfValue(s);
    }
  }

  /** Digits without a leading zero are the digits of their value. */
  lemma {:induction false} DecimalOfValue(ds: string)
    requires ds != [] && AllDigits(ds) && ds[0] != '0'
    ensures NatToDecimal(DecimalValue(ds)) == ds
    decreases |ds|
  {
    var last := ds[|ds| - 1];
    if |ds| == 1 {
      assert DecimalValue(ds) == DigitValue(last) < 10;
      assert DigitChar(DigitValue(last)) == last;
    } else {
      var init := ds[..|ds| - 1];
      var high, low := DecimalValue(init), DigitValue(last);
      DecimalOfValue(init);
      DecimalPositive(init);
      var n := 10 * high + low;
      assert DecimalValue(ds) == n;
      assert n / 10 == high && n % 10 == low && n >= 10;
      assert DigitChar(low) == last;
      assert ds == init + [last];
    }
  }

  lemma {:induction false} DecimalPositive(ds: string)
    requires ds != [] && AllDigits(ds) && ds[0] != '0'
    ensures DecimalValue(ds) >= 1
    decreases |ds|
  {
    if |ds| > 1 {
      DecimalPositive(ds[..|ds| - 1]);
    }
  }
}
