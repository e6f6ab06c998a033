/** SimplifyFilename: normalise a filename before the rules look at it, so that a
    show's own name (and the long numbers in it) are not read as season/episode codes. */
module Simplify {
  import opened Text
  import opened Entities

  /** Step one: every `.` becomes a space. */
  function DotsToSpaces(s: string): string { ReplaceChar(s, '.', ' ') }

  /** `Regex.Match(hint, "^[0-9]+$").Success`; .NET's `$` also matches before a final newline. */
  predicate NameIsNumber(hint: string) {
    || (|hint| > 0 && AllDigits(hint))
    || (|hint| > 1 && hint[|hint| - 1] == '\n' && AllDigits(hint[..|hint| - 1]))
  }

  /** `\b` at position p: exactly one of the characters around p is a word character. */
  predicate WordBoundary(s: string, p: nat)
    requires p <= |s|
  {
    (p > 0 && IsWordChar(s[p - 1])) != (p < |s| && IsWordChar(s[p]))
  }

  /** The length of the run of digits that starts at i. */
  function DigitRun(s: string, i: nat): (n: nat)
    requires i <= |s|
    ensures i + n <= |s|
    ensures forall k :: i <= k < i + n ==> IsDigit(s[k])
    ensures i + n == |s| || !IsDigit(s[i + n])
    decreases |s| - i
  {
    if i < |s| && IsDigit(s[i]) then 1 + DigitRun(s, i + 1) else 0
  }

  /** Group 1 of each match of `(?:^|[^a-z]|\b)([0-9]{3,})` in s from position p on, left
      to right: at each position the three alternatives are tried in order, the digit
      run is taken whole, and the next search starts where the match ended. */
  function NumbersFrom(s: string, p: nat): (r: seq<string>)
    requires p <= |s|
    ensures forall k :: 0 <= k < |r| ==> |r[k]| >= 3 && AllDigits(r[k])
    decreases |s| - p
  {
    if p == |s| then []
    else match MatchStart(s, p)
      case Some(i) =>
        var n := DigitRun(s, i);
        [s[i..i + n]] + NumbersFrom(s, i + n)
      case None => NumbersFrom(s, p + 1)
  }

  /** Where the digits of a match at p start, trying `^`, `[^a-z]` and `\b` in this order;
      None when no alternative is followed by three or more digits. */
  function MatchStart(s: string, p: nat): (r: Option<nat>)
    requires p < |s|
    ensures r.Some? ==> p <= r.value <= p + 1 && DigitRun(s, r.value) >= 3
  {
    if p == 0 && DigitRun(s, 0) >= 3 then Some(0)
    else if !('a' <= s[p] <= 'z') && DigitRun(s, p + 1) >= 3 then Some(p + 1)
    else if WordBoundary(s, p) && DigitRun(s, p) >= 3 then Some(p)
    else None
  }

  function NumbersIn(hint: string): seq<string> { NumbersFrom(hint, 0) }

  /** A match of `(^|\W)num\b` through its first alternative: s starts with num. */
  predicate LeadingMatch(s: string, num: string) {
    |num| <= |s| && s[..|num|] == num && WordBoundary(s, |num|)
  }

  /** A match of `(^|\W)num\b` through its second alternative, at q: a non-word
      character followed by num. */
  predicate StandaloneAt(s: string, num: string, q: nat) {
    q + 1 + |num| <= |s| && !IsWordChar(s[q]) && s[q + 1..q + 1 + |num|] == num
    && WordBoundary(s, q + 1 + |num|)
  }

  /** The length of the match of `(^|\W)num\b` at p, trying `^` first; 0 for none. */
  function MatchLength(s: string, num: string, p: nat): (m: nat)
    ensures m > 0 ==> p + m <= |s| && m >= |num|
  {
    if p == 0 && LeadingMatch(s, num) then |num|
    else if StandaloneAt(s, num, p) then 1 + |num|
    else 0
  }

  /** `Regex.Replace(s, "(^|\W)" + num + "\b", "")` from position p on: each match (the
      number at the start of s, or a non-word character followed by the number, either
      ending at a word boundary) is deleted, and the search resumes after it. */
  function DeleteFrom(s: string, num: string, p: nat): (r: string)
    requires |num| > 0 && p <= |s|
    ensures |r| <= |s| - p
    ensures forall c :: c in r ==> c in s[p..]
    decreases |s| - p
  {
    if p == |s| then []
    else if MatchLength(s, num, p) > 0 then DeleteFrom(s, num, p + MatchLength(s, num, p))
    else
      var rest := DeleteFrom(s, num, p + 1);
      assert forall c :: c in rest ==> c in s[p..] by {
        assert s[p..] == [s[p]] + s[p + 1..];
      }
      [s[p]] + rest
  }

  function DeleteNumber(s: string, num: string): string
    requires |num| > 0
  {
    DeleteFrom(s, num, 0)
  }

  /** The filename after the loop has deleted each number of `nums`, in order. */
  function DeleteAll(s: string, nums: seq<string>): string
    requires forall k :: 0 <= k < |nums| ==> |nums[k]| > 0
  {
    if nums == [] then s
    else DeleteNumber(DeleteAll(s, nums[..|nums| - 1]), nums[|nums| - 1])
  }

  /** What SimplifyFilename returns, or the exception it raises. */
  function Simplified(filename: string, hint: string): Fallible<string> {
    var f := DotsToSpaces(filename);
    if hint == [] then Ok(f)
    else if StartsWith(f, hint) then Ok(f[|hint|..])
    else if NameIsNumber(hint) then
      if |hint| <= |f| then Ok(f[|hint|..]) else Thrown(RemoveOutOfRange)
    else Ok(DeleteAll(f, NumbersIn(hint)))
  }

  method SimplifyFilename(filename: string, showNameHint: string) returns (r: Fallible<string>)
    ensures r == Simplified(filename, showNameHint)
  {
    var name := DotsToSpaces(filename);
    if showNameHint == [] {
      return Ok(name);
    }
    var nameIsNumber := NameIsNumber(showNameHint);
    if StartsWith(name, showNameHint) {
      return Ok(name[|showNameHint|..]);
    }
    if nameIsNumber {
      if |showNameHint| > |name| {
        return Thrown(RemoveOutOfRange);
      }
      return Ok(name[|showNameHint|..]);
    }
    var numbers := NumbersIn(showNameHint);
    ghost var start := name;
    for i := 0 to |numbers|
      invariant name == DeleteAll(start, numbers[..i])
    {
      assert numbers[..i + 1][..i] == numbers[..i];
      name := DeleteNumber(name, numbers[i]);
    }
    assert numbers[..|numbers|] == numbers;
    return Ok(name);
  }

  // ---------------------------------------------------------------------------
  // Properties

  lemma {:induction false} DeleteAllShrinks(s: string, nums: seq<string>)
    requires forall k :: 0 <= k < |nums| ==> |nums[k]| > 0
    ensures |DeleteAll(s, nums)| <= |s|
    ensures forall c :: c in DeleteAll(s, nums) ==> c in s
  {
    if nums != [] {
      DeleteAllShrinks(s, nums[..|nums| - 1]);
      assert DeleteAll(s, nums)
        == DeleteFrom(DeleteAll(s, nums[..|nums| - 1]), nums[|nums| - 1], 0);
    }
  }

  /** In every branch the result has no `.` and is no longer than the input; with an
      empty hint it is the input with dots turned into spaces. */
  lemma SimplifiedShape(filename: string, hint: string)
    ensures Simplified(filename, hint).Ok? ==>
      var r := Simplified(filename, hint).value;
      '.' !in r && |r| <= |filename|
    ensures hint == [] ==> Simplified(filename, hint) == Ok(DotsToSpaces(filename))
  {
    var f := DotsToSpaces(filename);
    assert '.' !in f;
    if hint != [] && !StartsWith(f, hint) && !NameIsNumber(hint) {
      DeleteAllShrinks(f, NumbersIn(hint));
    } else if hint != [] && |hint| <= |f| {
      assert forall c :: c in f[|hint|..] ==> c in f;
    }
  }

  /** When the dotted-to-spaces name starts with the hint, or the hint is all digits,
      the result is that name without its first |hint| characters; for an all-digit hint
      this happens whether or not the name starts with it, and a name shorter than the
      hint makes `String.Remove` throw. */
  lemma PrefixRemoval(filename: string, hint: string)
    requires hint != []
    requires StartsWith(DotsToSpaces(filename), hint) || NameIsNumber(hint)
    ensures Simplified(filename, hint) ==
      if |hint| <= |filename| then Ok(DotsToSpaces(filename)[|hint|..]) else Thrown(RemoveOutOfRange)
  {
  }

  /** SimplifyFilename throws exactly for an all-digit hint longer than the filename. */
  lemma ThrowsIff(filename: string, hint: string)
    ensures Simplified(filename, hint).Thrown? <==> hint != [] && NameIsNumber(hint) && |filename| < |hint|
  {
  }

  lemma DotsAt(s: string, i: nat)
    requires i < |s|
    ensures |DotsToSpaces(s)| == |s| && DotsToSpaces(s)[i] == (if s[i] == '.' then ' ' else s[i])
  {
  }

  /** A show named "24": only the leading "24" of "24.S01E02" goes. */
  lemma NumericShowName(filename: string)
    requires filename == "24.S01E02"
    ensures Simplified(filename, "24") == Ok(" S01E02")
  {
    var f := DotsToSpaces(filename);
    DotsAt(filename, 0); DotsAt(filename, 1); DotsAt(filename, 2); DotsAt(filename, 3); DotsAt(filename, 4);
    DotsAt(filename, 5); DotsAt(filename, 6); DotsAt(filename, 7); DotsAt(filename, 8);
    assert f == "24 S01E02";
    assert f[..2] == "24";
  }

  /** A year in the show's name is found as a number, ...*/
  lemma NumbersOfShowName()
    ensures NumbersIn("Mr 1983") == ["1983"]
  {
    var h := "Mr 1983";
    assert DigitRun(h, 7) == 0;
    assert DigitRun(h, 3) == 4;
    assert NumbersFrom(h, 7) == [];
    assert h[3..7] == "1983";
    assert NumbersFrom(h, 2) == ["1983"];
    assert DigitRun(h, 2) == 0 && DigitRun(h, 1) == 0 && DigitRun(h, 0) == 0;
    assert NumbersFrom(h, 1) == ["1983"];
  }

  /** ... and deleted, with the separator before it, where it stands alone in the filename. */
  lemma YearInShowName(filename: string, hint: string)
    requires filename == "x.1983.e2" && hint == "Mr 1983"
    ensures Simplified(filename, hint) == Ok("x e2")
  {
    var f := DotsToSpaces(filename);
    DotsAt(filename, 0); DotsAt(filename, 1); DotsAt(filename, 2); DotsAt(filename, 3); DotsAt(filename, 4);
    DotsAt(filename, 5); DotsAt(filename, 6); DotsAt(filename, 7); DotsAt(filename, 8);
    assert f == "x 1983 e2";
    assert f[..7] != hint;
    assert !IsDigit(hint[0]) && hint[6] != '\n';
    assert !NameIsNumber(hint);
    NumbersOfShowName();
    DeletedYear();
    DeleteSingle(f, "1983");
  }

  lemma DeleteSingle(s: string, num: string)
    requires |num| > 0
    ensures DeleteAll(s, [num]) == DeleteNumber(s, num)
  {
    assert [num][..0] == [];
  }

  lemma DeletedYear()
    ensures DeleteNumber("x 1983 e2", "1983") == "x e2"
  {
    var f := "x 1983 e2";
    var num := "1983";
    assert DeleteFrom(f, num, 9) == [];
    assert DeleteFrom(f, num, 8) == "2";
    assert DeleteFrom(f, num, 7) == "e2";
    assert DeleteFrom(f, num, 6) == " e2";
    assert f[2..6] == num && WordBoundary(f, 6) && !IsWordChar(f[1]);
    assert DeleteFrom(f, num, 1) == " e2";
    assert f[..4] != num;
    assert DeleteFrom(f, num, 0) == "x e2";
  }

  // ---------------------------------------------------------------------------
  // What the number scan finds and what the deletion removes

  /** n stands in s at i, and the run of digits it belongs to ends with it. */
  predicate RunEndsAt(s: string, n: string, i: nat) {
    i + |n| <= |s| && s[i..i + |n|] == n && (i + |n| == |s| || !IsDigit(s[i + |n|]))
  }

  /** Every number in `ns` stands in s at or after p, at the end of its run of digits. */
  ghost predicate AllRunsFrom(s: string, ns: seq<string>, p: nat) {
    forall k :: 0 <= k < |ns| ==> RunEndsFrom(s, ns[k], p)
  }

  /** n stands in s at p or later, at the end of its run of digits. */
  ghost predicate RunEndsFrom(s: string, n: string, p: nat) {
    exists i: nat :: p <= i && RunEndsAt(s, n, i)
  }

  /** Every number the scan finds in s from p on stands in s at or after p, at the end of
      its run of digits: the scan takes digit runs whole. */
  lemma {:induction false} NumbersOccur(s: string, p: nat)
    requires p <= |s|
    ensures AllRunsFrom(s, NumbersFrom(s, p), p)
    decreases |s| - p, 1
  {
    if p < |s| {
      match MatchStart(s, p)
      case Some(i) => NumbersTaken(s, p, i);
      case None =>
        NumbersOccur(s, p + 1);
        RunsWeaken(s, NumbersFrom(s, p + 1), p);
    }
  }

  /** NumbersOccur where the match at p takes the digit run starting at i. */
  lemma {:induction false} NumbersTaken(s: string, p: nat, i: nat)
    requires p < |s| && MatchStart(s, p) == Some(i)
    ensures AllRunsFrom(s, NumbersFrom(s, p), p)
    decreases |s| - p, 0
  {
    var n := DigitRun(s, i);
    NumbersOccur(s, i + n);
    NumbersCons(s, p, i, n, NumbersFrom(s, i + n), NumbersFrom(s, p));
  }

  /** The digit run starting at j stops at the first character that is not a digit. */
  lemma {:induction false} DigitRunStops(s: string, j: nat, m: nat)
    requires j <= m < |s| && !IsDigit(s[m])
    ensures j + DigitRun(s, j) <= m
    decreases m - j
  {
    if j < m && IsDigit(s[j]) {
      DigitRunStops(s, j + 1, m);
    }
  }

  /** The converse of NumbersOccur: a run of three or more digits at the start of the name,
      or after a character that is neither a digit nor a lower-case letter, is found by a
      scan that starts no later than that character. A run glued to a lower-case letter can
      be missed: "abc123" yields nothing. */
  lemma FoundFrom(s: string, i: nat, p: nat)
    requires i < |s| && DigitRun(s, i) >= 3
    requires i == 0 || (!IsDigit(s[i - 1]) && !('a' <= s[i - 1] <= 'z'))
    requires p <= (if i == 0 then 0 else i - 1)
    ensures s[i..i + DigitRun(s, i)] in NumbersFrom(s, p)
  {
    var k := FoundAt(s, i, p);
  }

  /** FoundFrom with the position k of the run in the list of matches. */
  lemma {:induction false} FoundAt(s: string, i: nat, p: nat) returns (k: nat)
    requires i < |s| && DigitRun(s, i) >= 3
    requires i == 0 || (!IsDigit(s[i - 1]) && !('a' <= s[i - 1] <= 'z'))
    requires p <= (if i == 0 then 0 else i - 1)
    ensures k < |NumbersFrom(s, p)| && NumbersFrom(s, p)[k] == s[i..i + DigitRun(s, i)]
    decreases |s| - p, 2
  {
    if p == (if i == 0 then 0 else i - 1) {
      MatchBefore(s, i, p);
      NumbersHead(s, p, i, DigitRun(s, i));
      k := 0;
    } else if MatchStart(s, p).None? {
      k := FoundSkip(s, i, p);
    } else {
      var j := MatchStart(s, p).value;
      k := FoundAfter(s, i, p, j, DigitRun(s, j));
    }
  }

  /** FoundAt where nothing matches at p. */
  lemma {:induction false} FoundSkip(s: string, i: nat, p: nat) returns (k: nat)
    requires i < |s| && DigitRun(s, i) >= 3
    requires 0 < i && !IsDigit(s[i - 1]) && !('a' <= s[i - 1] <= 'z')
    requires p < i - 1 && MatchStart(s, p).None?
    ensures k < |NumbersFrom(s, p)| && NumbersFrom(s, p)[k] == s[i..i + DigitRun(s, i)]
    decreases |s| - p, 1
  {
    k := FoundAt(s, i, p + 1);
    NumbersSkip(s, p, k);
  }

  /** FoundAt where an earlier match at p takes a run [j, j + n) that ends before the one
      sought. */
  lemma {:induction false} FoundAfter(s: string, i: nat, p: nat, j: nat, n: nat) returns (k: nat)
    requires i < |s| && DigitRun(s, i) >= 3
    requires 0 < i && !IsDigit(s[i - 1]) && !('a' <= s[i - 1] <= 'z')
    requires p < i - 1 && MatchStart(s, p) == Some(j) && n == DigitRun(s, j)
    ensures k < |NumbersFrom(s, p)| && NumbersFrom(s, p)[k] == s[i..i + DigitRun(s, i)]
    decreases |s| - p, 1
  {
    var m := FoundPast(s, i, p, j, n);
    NumbersShift(s, p, j, n, m);
    k := m + 1;
  }

  /** The run sought is found by the scan that resumes after the run [j, j + n). */
  lemma {:induction false} FoundPast(s: string, i: nat, p: nat, j: nat, n: nat) returns (m: nat)
    requires i < |s| && DigitRun(s, i) >= 3
    requires 0 < i && !IsDigit(s[i - 1]) && !('a' <= s[i - 1] <= 'z')
    requires p < i - 1 && p <= j <= p + 1 && DigitRun(s, j) >= 3 && n == DigitRun(s, j)
    ensures j + n <= |s| && m < |NumbersFrom(s, j + n)|
    ensures NumbersFrom(s, j + n)[m] == s[i..i + DigitRun(s, i)]
    decreases |s| - p, 0
  {
    DigitRunStops(s, j, i - 1);
    m := FoundAt(s, i, j + n);
  }

  /** The match at the character before a run, or at the start, takes that run. */
  lemma MatchBefore(s: string, i: nat, p: nat)
    requires i < |s| && DigitRun(s, i) >= 3
    requires i == 0 || (!IsDigit(s[i - 1]) && !('a' <= s[i - 1] <= 'z'))
    requires p == (if i == 0 then 0 else i - 1)
    ensures MatchStart(s, p) == Some(i)
  {
    if i > 0 && p == 0 {
      assert DigitRun(s, 0) == 0;
    }
  }

  /** One step of NumbersFrom where the match at p takes the digit run starting at j. */
  lemma NumbersSome(s: string, p: nat, j: nat, n: nat)
    requires p < |s| && MatchStart(s, p) == Some(j) && n == DigitRun(s, j)
    ensures NumbersFrom(s, p) == [s[j..j + n]] + NumbersFrom(s, j + n)
  {
  }

  /** A match at p that takes the run [j, j + n) comes first. */
  lemma NumbersHead(s: string, p: nat, j: nat, n: nat)
    requires p < |s| && MatchStart(s, p) == Some(j) && n == DigitRun(s, j)
    ensures 0 < |NumbersFrom(s, p)| && NumbersFrom(s, p)[0] == s[j..j + n]
  {
    NumbersSome(s, p, j, n);
  }

  /** After a match at p that takes the run [j, j + n), the later matches move up by one. */
  lemma NumbersShift(s: string, p: nat, j: nat, n: nat, m: nat)
    requires p < |s| && MatchStart(s, p) == Some(j) && n == DigitRun(s, j)
    requires m < |NumbersFrom(s, j + n)|
    ensures m + 1 < |NumbersFrom(s, p)| && NumbersFrom(s, p)[m + 1] == NumbersFrom(s, j + n)[m]
  {
    NumbersSome(s, p, j, n);
  }

  /** Without a match at p the matches are those from p + 1. */
  lemma NumbersSkip(s: string, p: nat, m: nat)
    requires p < |s| && MatchStart(s, p).None? && m < |NumbersFrom(s, p + 1)|
    ensures m < |NumbersFrom(s, p)| && NumbersFrom(s, p)[m] == NumbersFrom(s, p + 1)[m]
  {
  }

  /** A three-digit run right after a lower-case letter is not found. */
  lemma GluedRunMissed(hint: string)
    requires hint == "abc123"
    ensures NumbersIn(hint) == []
  {
    assert DigitRun(hint, 5) == 1 && DigitRun(hint, 4) == 2 && DigitRun(hint, 3) == 3;
    assert DigitRun(hint, 2) == 0 && DigitRun(hint, 1) == 0 && DigitRun(hint, 0) == 0;
    assert NumbersFrom(hint, 6) == [];
    assert NumbersFrom(hint, 5) == [];
    assert NumbersFrom(hint, 4) == [];
    assert NumbersFrom(hint, 3) == [];
    assert !WordBoundary(hint, 3);
    assert NumbersFrom(hint, 2) == [];
    assert NumbersFrom(hint, 1) == [];
  }

  lemma RunsWeaken(s: string, ns: seq<string>, p: nat)
    requires AllRunsFrom(s, ns, p + 1)
    ensures AllRunsFrom(s, ns, p)
  {
    forall k | 0 <= k < |ns|
      ensures RunEndsFrom(s, ns[k], p)
    {
      var i: nat :| p + 1 <= i && RunEndsAt(s, ns[k], i);
    }
  }

  /** One step of NumbersOccur: the run [i, i + n) found first, then the rest. */
  lemma NumbersCons(s: string, p: nat, i: nat, n: nat, rest: seq<string>, r: seq<string>)
    requires p <= i <= |s| && DigitRun(s, i) == n && AllRunsFrom(s, rest, i + n)
    requires r == [s[i..i + n]] + rest
    ensures AllRunsFrom(s, r, p)
  {
    forall k | 0 <= k < |r|
      ensures RunEndsFrom(s, r[k], p)
    {
      if k == 0 {
        assert r[0] == s[i..i + n];
        assert RunEndsAt(s, r[0], i);
      } else {
        assert r[k] == rest[k - 1];
        var j :| i + n <= j && RunEndsAt(s, rest[k - 1], j);
        assert p <= j;
      }
    }
  }

  /** t stands at i in s and is followed by a non-word character or the end. */
  predicate WordAt(s: string, t: string, i: nat) {
    i + |t| <= |s| && s[i..i + |t|] == t && (i + |t| == |s| || !IsWordChar(s[i + |t|]))
  }

  lemma WordAtSplit(s: string, t: string, i: nat)
    requires t != []
    ensures WordAt(s, t, i) <==> i < |s| && s[i] == t[0] && WordAt(s, t[1..], i + 1)
  {
    if i + |t| <= |s| {
      assert s[i..i + |t|] == [s[i]] + s[i + 1..i + |t|];
    }
  }

  lemma WordAtShift(c: char, rest: string, t: string, i: nat)
    ensures WordAt([c] + rest, t, i + 1) <==> WordAt(rest, t, i)
  {
    var r := [c] + rest;
    if i + |t| <= |rest| {
      assert r[i + 1..i + 1 + |t|] == rest[i..i + |t|];
    }
  }

  /** Since the number ends with a word character, its `\b` means "then a non-word
      character or the end". */
  lemma LeadingMeans(s: string, num: string)
    requires |num| > 0 && AllDigits(num)
    ensures LeadingMatch(s, num) <==> WordAt(s, num, 0)
  {
    if |num| <= |s| && s[..|num|] == num {
      assert s[|num| - 1] == num[|num| - 1];
    }
  }

  lemma StandaloneMeans(s: string, num: string, q: nat)
    requires |num| > 0 && AllDigits(num)
    ensures StandaloneAt(s, num, q) <==> q < |s| && !IsWordChar(s[q]) && WordAt(s, num, q + 1)
  {
    if q + 1 + |num| <= |s| && s[q + 1..q + 1 + |num|] == num {
      assert s[q + |num|] == num[|num| - 1];
    }
  }

  /** Digits at the front of what the deletion leaves, followed by a non-word character,
      were there, so followed, in the input: the deletion never joins digits to a number. */
  lemma {:induction false} KeptFront(s: string, num: string, p: nat, t: string)
    requires |num| > 0 && AllDigits(num) && p <= |s|
    requires AllDigits(t) && (t != [] || p > 0)
    ensures WordAt(DeleteFrom(s, num, p), t, 0) ==> WordAt(s, t, p)
    decreases |s| - p, 1
  {
    if p < |s| {
      if MatchLength(s, num, p) > 0 {
        KeptFrontDeleted(s, num, p, t);
      } else {
        KeptFrontKept(s, num, p, t);
      }
    }
  }

  /** KeptFront where a match at p is deleted: what follows it starts with a non-word
      character, so no digits can stand at the front. */
  lemma {:induction false} KeptFrontDeleted(s: string, num: string, p: nat, t: string)
    requires |num| > 0 && AllDigits(num) && p < |s| && MatchLength(s, num, p) > 0
    requires AllDigits(t) && (t != [] || p > 0)
    ensures WordAt(DeleteFrom(s, num, p), t, 0) ==> WordAt(s, t, p)
    decreases |s| - p, 0
  {
    var e := p + MatchLength(s, num, p);
    assert DeleteFrom(s, num, p) == DeleteFrom(s, num, e);
    KeptFront(s, num, e, t);
    if p == 0 && LeadingMatch(s, num) {
      LeadingMeans(s, num);
    } else {
      StandaloneMeans(s, num, p);
    }
    if t != [] {
      WordAtSplit(s, t, e);
    }
  }

  /** KeptFront where the character at p is kept. */
  lemma {:induction false} KeptFrontKept(s: string, num: string, p: nat, t: string)
    requires |num| > 0 && AllDigits(num) && p < |s| && MatchLength(s, num, p) == 0
    requires AllDigits(t) && (t != [] || p > 0)
    ensures WordAt(DeleteFrom(s, num, p), t, 0) ==> WordAt(s, t, p)
    decreases |s| - p, 0
  {
    var rest := DeleteFrom(s, num, p + 1);
    var r := [s[p]] + rest;
    assert DeleteFrom(s, num, p) == r;
    if t != [] {
      KeptFront(s, num, p + 1, t[1..]);
      WordAtSplit(r, t, 0);
      WordAtShift(s[p], rest, t[1..], 0);
      WordAtSplit(s, t, p);
    }
  }

  /** No match of `\Wnum\b` survives the deletion from p on. */
  lemma {:induction false} NoStandaloneFrom(s: string, num: string, p: nat)
    requires |num| > 0 && AllDigits(num) && p <= |s|
    ensures forall q :: !StandaloneAt(DeleteFrom(s, num, p), num, q)
    decreases |s| - p
  {
    if p == |s| {
    } else if MatchLength(s, num, p) > 0 {
      NoStandaloneFrom(s, num, p + MatchLength(s, num, p));
    } else {
      var rest := DeleteFrom(s, num, p + 1);
      NoStandaloneFrom(s, num, p + 1);
      KeptFront(s, num, p + 1, num);
      StandaloneMeans(s, num, p);
      NoStandaloneKept(s[p], rest, num);
      assert DeleteFrom(s, num, p) == [s[p]] + rest;
    }
  }

  /** Putting c in front of a name without a match of `\Wnum\b` creates none, unless c is
      a non-word character followed by the number at a word boundary. */
  lemma NoStandaloneKept(c: char, rest: string, num: string)
    requires |num| > 0 && AllDigits(num)
    requires forall q :: !StandaloneAt(rest, num, q)
    requires IsWordChar(c) || !WordAt(rest, num, 0)
    ensures forall q :: !StandaloneAt([c] + rest, num, q)
  {
    var r := [c] + rest;
    forall q: nat
      ensures !StandaloneAt(r, num, q)
    {
      StandaloneMeans(r, num, q);
      WordAtShift(c, rest, num, q);
      if q > 0 {
        StandaloneMeans(rest, num, q - 1);
      }
    }
  }

  /** `Regex.Replace` leaves no match of `(^|\W)num\b` behind: the result neither starts
      with the number nor holds it after a non-word character, each at a word boundary. */
  lemma DeleteNumberLeavesNone(s: string, num: string)
    requires |num| > 0 && AllDigits(num)
    ensures !LeadingMatch(DeleteNumber(s, num), num)
    ensures forall q :: !StandaloneAt(DeleteNumber(s, num), num, q)
  {
    NoStandaloneFrom(s, num, 0);
    KeptFront(s, num, 0, num);
    LeadingMeans(s, num);
    LeadingMeans(DeleteNumber(s, num), num);
    if |num| <= |s| {
      KeptFront(s, num, |num|, num);
      WordAtSplit(s, num, |num|);
    }
  }

  /** A name without a match of `(^|\W)num\b` is left as it is. */
  lemma {:induction false} UnchangedFrom(s: string, num: string, p: nat)
    requires |num| > 0 && p <= |s|
    requires p == 0 ==> !LeadingMatch(s, num)
    requires forall q :: p <= q < |s| ==> !StandaloneAt(s, num, q)
    ensures DeleteFrom(s, num, p) == s[p..]
    decreases |s| - p
  {
    if p < |s| {
      UnchangedFrom(s, num, p + 1);
      assert s[p..] == [s[p]] + s[p + 1..];
    }
  }

  lemma NothingToDelete(s: string, num: string)
    requires |num| > 0 && !LeadingMatch(s, num)
    requires forall q :: 0 <= q < |s| ==> !StandaloneAt(s, num, q)
    ensures DeleteNumber(s, num) == s
  {
    UnchangedFrom(s, num, 0);
  }
}
