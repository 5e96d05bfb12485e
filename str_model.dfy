/** Models of the Rust string operations that the search engine relies on:
    `str::lines`, `str::contains`, `str::matches(..).count()`,
    `str::to_lowercase` (as a char-wise fold) and `str::to_ascii_lowercase`.
    A Rust `&str` is modelled as the sequence of its chars. */
module StrModel {

  // ---------------------------------------------------------------------------
  // Prefixes and substring containment (`str::contains` with a `&str` pattern)
  // ---------------------------------------------------------------------------

  predicate StartsWith(s: string, p: string) {
    |p| <= |s| && s[..|p|] == p
  }

  /** True iff `p` occurs in `s` at index `i`. */
  ghost predicate OccursAt(s: string, p: string, i: int) {
    0 <= i && i + |p| <= |s| && s[i..i + |p|] == p
  }

  /** `s.contains(p)`: `p` starts at some position of `s` (the empty pattern
      occurs everywhere). */
  predicate Contains(s: string, p: string): (r: bool)
    ensures p == [] ==> r
    ensures r ==> |p| <= |s|
    decreases |s|
  {
    StartsWith(s, p) || (|s| > 0 && Contains(s[1..], p))
  }

  lemma {:induction false} ContainsIffOccurs(s: string, p: string)
    ensures Contains(s, p) <==> exists i :: OccursAt(s, p, i)
  {
    if Contains(s, p) {
      var i := ContainsOccurs(s, p);
    }
    if exists i :: OccursAt(s, p, i) {
      var i :| OccursAt(s, p, i);
      OccursContains(s, p, i);
    }
  }

  /** Where a containing `s` holds its first occurrence of `p`. */
  lemma {:induction false} ContainsOccurs(s: string, p: string) returns (i: nat)
    requires Contains(s, p)
    ensures OccursAt(s, p, i)
    decreases |s|
  {
    if StartsWith(s, p) {
      i := 0;
    } else {
      var j := ContainsOccurs(s[1..], p);
      assert s[1..][j..j + |p|] == s[j + 1..j + 1 + |p|];
      i := j + 1;
    }
  }

  lemma {:induction false} OccursContains(s: string, p: string, i: int)
    requires OccursAt(s, p, i)
    ensures Contains(s, p)
    decreases i
  {
    if i > 0 {
      assert s[1..][i - 1..i - 1 + |p|] == s[i..i + |p|];
      OccursContains(s[1..], p, i - 1);
    }
  }

  /** A text containing a non-empty pattern holds the pattern's first char. */
  lemma ContainsFirstChar(s: string, p: string)
    ensures p != [] && Contains(s, p) ==> p[0] in s
  {
    if p != [] && Contains(s, p) {
      var i := ContainsOccurs(s, p);
      assert s[i..i + |p|][0] == s[i];
    }
  }

  // ---------------------------------------------------------------------------
  // Non-overlapping occurrence count (`s.matches(p).count()`)
  // ---------------------------------------------------------------------------

  /** `s.matches(p).count()`. A non-empty pattern is searched left to right and
      the search resumes after the end of each match, so matches never overlap.
      The empty pattern matches at every char boundary: `|s| + 1` times. */
  function MatchCount(s: string, p: string): (r: nat)
    ensures p == [] ==> r == |s| + 1
    ensures p != [] ==> r <= |s|
    decreases |s|
  {
    if p == [] then |s| + 1
    else if |s| < |p| then 0
    else if StartsWith(s, p) then 1 + MatchCount(s[|p|..], p)
    else MatchCount(s[1..], p)
  }

  /** A line is counted at least once exactly when it contains the pattern. */
  lemma {:induction false} MatchCountPositiveIffContains(s: string, p: string)
    ensures MatchCount(s, p) > 0 <==> Contains(s, p)
    decreases |s|
  {
    if p == [] {
      assert StartsWith(s, p);
    } else if |s| < |p| {
      NotContainsShort(s, p);
    } else if StartsWith(s, p) {
    } else {
      MatchCountPositiveIffContains(s[1..], p);
    }
  }

  lemma {:induction false} NotContainsShort(s: string, p: string)
    requires |s| < |p|
    ensures !Contains(s, p)
    decreases |s|
  {
    if |s| > 0 {
      NotContainsShort(s[1..], p);
    }
  }

  /** Non-overlapping matches of a non-empty pattern fit side by side in `s`. */
  lemma {:induction false} MatchCountBound(s: string, p: string)
    requires p != []
    ensures MatchCount(s, p) * |p| <= |s|
    decreases |s|
  {
    if |s| < |p| {
      assert MatchCount(s, p) == 0;
    } else if StartsWith(s, p) {
      var rest := MatchCount(s[|p|..], p);
      MatchCountBound(s[|p|..], p);
      assert MatchCount(s, p) == 1 + rest;
      OneMoreFits(rest, |p|, |s|);
    } else {
      MatchCountBound(s[1..], p);
      assert MatchCount(s, p) == MatchCount(s[1..], p);
    }
  }

  /** One more match of length `m` fits when the rest fit after it. */
  lemma OneMoreFits(rest: nat, m: nat, len: nat)
    requires m <= len && rest * m <= len - m
    ensures (1 + rest) * m <= len
  {
  }

  /** Overlapping occurrences are not counted twice: "aaa" holds "aa" once. */
  lemma NonOverlappingExample()
    ensures MatchCount("aaa", "aa") == 1
    ensures MatchCount("abab", "ab") == 2
    ensures MatchCount("abc", "") == 4
  {
  }

  // ---------------------------------------------------------------------------
  // Line splitting (`str::lines`)
  // ---------------------------------------------------------------------------

  /** Index of the first `c` in `s`, or `|s|` when there is none. */
  function IndexOf(s: string, c: char): (i: nat)
    ensures i <= |s|
    ensures i < |s| ==> s[i] == c
    ensures forall j :: 0 <= j < i ==> s[j] != c
    decreases |s|
  {
    if s == [] then 0
    else if s[0] == c then 0
    else 1 + IndexOf(s[1..], c)
  }

  /** Removes one trailing carriage return, if there is one. */
  function StripCr(line: string): string {
    if |line| > 0 && line[|line| - 1] == '\r' then line[..|line| - 1] else line
  }

  /** `s.lines()`: split at each '\n'; a line ended by "\r\n" loses the '\r';
      a final line ending is optional, so no empty line follows a trailing
      '\n'; a bare '\r' at the very end of an unterminated last line stays. */
  function Lines(s: string): (r: seq<string>)
    ensures r == [] <==> s == []
    ensures |r| <= |s|
    decreases |s|
  {
    if s == [] then []
    else
      var i := IndexOf(s, '\n');
      if i == |s| then [s]
      else [StripCr(s[..i])] + Lines(s[i + 1..])
  }

  /** No line returned by `lines` contains a line feed. */
  lemma {:induction false} LinesHaveNoNewline(s: string)
    ensures forall k :: 0 <= k < |Lines(s)| ==> '\n' !in Lines(s)[k]
    decreases |s|
  {
    if s != [] {
      var i := IndexOf(s, '\n');
      if i < |s| {
        LinesHaveNoNewline(s[i + 1..]);
        assert '\n' !in s[..i];
      }
    }
  }

  /** Every line followed by `terminator`, concatenated. */
  function Terminated(ls: seq<string>, terminator: string): string {
    if ls == [] then [] else ls[0] + terminator + Terminated(ls[1..], terminator)
  }

  /** Splitting undoes joining with '\n' after every line, as long as no line
      holds a line feed or ends in a carriage return. */
  lemma {:induction false} LinesOfLfTerminated(ls: seq<string>)
    requires forall k :: 0 <= k < |ls| ==> '\n' !in ls[k]
    requires forall k :: 0 <= k < |ls| ==> StripCr(ls[k]) == ls[k]
    ensures Lines(Terminated(ls, "\n")) == ls
  {
    if ls != [] {
      var s := Terminated(ls, "\n");
      var rest := Terminated(ls[1..], "\n");
      assert s == ls[0] + "\n" + rest;
      IndexOfAfterLine(ls[0], rest);
      assert s[..|ls[0]|] == ls[0];
      assert s[|ls[0]| + 1..] == rest;
      LinesOfLfTerminated(ls[1..]);
    }
  }

  /** Splitting undoes joining with "\r\n" after every line, as long as no line
      holds a line feed (a line may even end in '\r'). */
  lemma {:induction false} LinesOfCrlfTerminated(ls: seq<string>)
    requires forall k :: 0 <= k < |ls| ==> '\n' !in ls[k]
    ensures Lines(Terminated(ls, "\r\n")) == ls
  {
    if ls != [] {
      var s := Terminated(ls, "\r\n");
      var rest := Terminated(ls[1..], "\r\n");
      assert s == (ls[0] + "\r") + "\n" + rest;
      IndexOfAfterLine(ls[0] + "\r", rest);
      assert s[..|ls[0]| + 1] == ls[0] + "\r";
      assert StripCr(ls[0] + "\r") == ls[0];
      assert s[|ls[0]| + 2..] == rest;
      LinesOfCrlfTerminated(ls[1..]);
    }
  }

  /** The first line feed after a line free of line feeds is the one that ends it. */
  lemma IndexOfAfterLine(line: string, rest: string)
    requires '\n' !in line
    ensures IndexOf(line + "\n" + rest, '\n') == |line|
  {
    var s := line + "\n" + rest;
    forall j | 0 <= j < |line| ensures s[j] != '\n' {
      assert s[j] == line[j];
    }
    assert s[|line|] == '\n';
  }

  /** A trailing '\n' adds no empty line. */
  lemma LinesTrailingNewline()
    ensures Lines("a\nb\n") == ["a", "b"]
  {
    LinesOfLfTerminated(["a", "b"]);
    assert Terminated(["a", "b"], "\n") == "a\nb\n";
  }

  /** "\r\n" ends a line like '\n' does. */
  lemma LinesCrlf()
    ensures Lines("a\r\nb") == ["a", "b"]
  {
    var s := "a\r\nb";
    assert IndexOf(s, '\n') == 2;
    assert s[..2] == "a\r";
    assert StripCr("a\r") == "a";
    assert s[3..] == "b";
    assert IndexOf("b", '\n') == 1;
  }

  /** Empty text has no lines, and an empty line in the middle is kept. */
  lemma LinesEmptyAndBlank()
    ensures Lines("") == []
    ensures Lines("a\n\nb") == ["a", "", "b"]
  {
    var s := "a\n\nb";
    assert IndexOf(s, '\n') == 1;
    assert s[..1] == "a";
    assert s[2..] == "\nb";
    assert IndexOf("\nb", '\n') == 0;
    assert "\nb"[1..] == "b";
  }

  /** A bare '\r' ending the last line is not a line ending. */
  lemma LinesBareCr()
    ensures Lines("a\r") == ["a\r"]
  {
  }

  // ---------------------------------------------------------------------------
  // Lowercasing
  // ---------------------------------------------------------------------------

  /** `char::to_ascii_lowercase`: 'A'..'Z' become 'a'..'z', all else stays. */
  function AsciiLower(c: char): char {
    if 'A' <= c <= 'Z' then (c as int + 32) as char else c
  }

  /** `str::to_ascii_lowercase`. */
  function AsciiLowerStr(s: string): (r: string)
    ensures |r| == |s|
    ensures forall k :: 0 <= k < |r| ==> !('A' <= r[k] <= 'Z')
    ensures forall k :: 0 <= k < |r| && !('A' <= s[k] <= 'Z') ==> r[k] == s[k]
    ensures forall k :: 0 <= k < |r| && 'A' <= s[k] <= 'Z' ==> r[k] as int == s[k] as int + 32
  {
    seq(|s|, k requires 0 <= k < |s| => AsciiLower(s[k]))
  }

  /** `str::to_lowercase`, taken as the char-wise application of `fold`, the
      per-character lower-case mapping. */
  function Lower(fold: char -> char, s: string): (r: string)
    ensures |r| == |s|
  {
    seq(|s|, k requires 0 <= k < |s| => fold(s[k]))
  }

  /** `fold` lowercases ASCII exactly as `to_ascii_lowercase` does, as Unicode's
      lower-case mapping does. */
  ghost predicate AgreesOnAscii(fold: char -> char) {
    forall c: char :: c < 128 as char ==> fold(c) == AsciiLower(c)
  }

  /** On ASCII text both lowerings coincide. */
  lemma AsciiLoweringsAgree(fold: char -> char, s: string)
    requires AgreesOnAscii(fold)
    requires forall k :: 0 <= k < |s| ==> s[k] < 128 as char
    ensures Lower(fold, s) == AsciiLowerStr(s)
  {
  }

  /** Lowering both sides char-wise keeps every occurrence. */
  lemma {:induction false} ContainsLowered(fold: char -> char, s: string, p: string)
    requires Contains(s, p)
    ensures Contains(Lower(fold, s), Lower(fold, p))
  {
    ContainsIffOccurs(s, p);
    var i :| OccursAt(s, p, i);
    assert Lower(fold, s)[i..i + |p|] == Lower(fold, p);
    assert OccursAt(Lower(fold, s), Lower(fold, p), i);
    ContainsIffOccurs(Lower(fold, s), Lower(fold, p));
  }
}
