/** The search engine of minigrep: `search` and `search_case_insensitive`
    walk the lines of the file contents in order, test the lines that contain
    the query together with their 0-based line number, and add up the query's
    non-overlapping occurrences in the kept lines. */
module MinigrepSearch {
  import opened StrModel

  /** One reported line: its 0-based position in `contents.lines()` and the
      line itself (a slice of the contents, not a lowered copy). */
  datatype LineInfo = LineInfo(lineNumber: nat, lineContent: string)

  datatype SearchResult = SearchResult(lineInfo: seq<LineInfo>, count: nat)

  /** The test a search applies to each line. */
  datatype Test =
    | Exact(query: string)                        // `line.contains(query)`
    | Folded(fold: char -> char, query: string)   // `line.to_lowercase().contains(&query.to_lowercase())`

  /** What a kept line adds to the count. */
  datatype Tally =
    | Occurrences(query: string)                                // `line.matches(query).count()`
    | AsciiLoweredOccurrences(fold: char -> char, query: string) // `line.to_ascii_lowercase().matches(&query.to_lowercase()).count()`
    | LoweredOccurrences(fold: char -> char, query: string)      // `line.to_lowercase().matches(&query.to_lowercase()).count()`

  /** True iff `test` keeps `line`. */
  predicate Keeps(test: Test, line: string) {
    match test
    case Exact(q) => Contains(line, q)
    case Folded(fold, q) => Contains(Lower(fold, line), Lower(fold, q))
  }

  /** What `line` adds to the count under `tally`. */
  function Weight(tally: Tally, line: string): nat {
    match tally
    case Occurrences(q) => MatchCount(line, q)
    case AsciiLoweredOccurrences(fold, q) => MatchCount(AsciiLowerStr(line), Lower(fold, q))
    case LoweredOccurrences(fold, q) => MatchCount(Lower(fold, line), Lower(fold, q))
  }

  // ---------------------------------------------------------------------------
  // Specification: which lines are reported and what they add to the count
  // ---------------------------------------------------------------------------

  /** The lines of `ls` that `test` keeps, each with its index, in order. */
  function Hits(ls: seq<string>, test: Test): seq<LineInfo>
    decreases |ls|
  {
    if ls == [] then []
    else
      var n := |ls| - 1;
      Hits(ls[..n], test) + (if Keeps(test, ls[n]) then [LineInfo(n, ls[n])] else [])
  }

  /** What the lines of `ls` that `test` keeps add to the count under `tally`. */
  function Total(ls: seq<string>, test: Test, tally: Tally): nat
    decreases |ls|
  {
    if ls == [] then 0
    else
      var n := |ls| - 1;
      Total(ls[..n], test, tally) + (if Keeps(test, ls[n]) then Weight(tally, ls[n]) else 0)
  }

  /** What the given reported lines add to the count under `tally`. */
  function SumWeights(infos: seq<LineInfo>, tally: Tally): nat
    decreases |infos|
  {
    if infos == [] then 0
    else SumWeights(infos[..|infos| - 1], tally) + Weight(tally, infos[|infos| - 1].lineContent)
  }

  /** Every line of `ls`, numbered from 0. */
  function Numbered(ls: seq<string>): seq<LineInfo> {
    seq(|ls|, k requires 0 <= k < |ls| => LineInfo(k, ls[k]))
  }

  /** The total length of the lines of `ls`. */
  function LengthSum(ls: seq<string>): nat
    decreases |ls|
  {
    if ls == [] then 0 else LengthSum(ls[..|ls| - 1]) + |ls[|ls| - 1]|
  }

  /** Extending the scanned prefix by one line extends the report by that
      line when it is kept, and the count by its tally. */
  lemma ScanStep(ls: seq<string>, i: nat, test: Test, tally: Tally)
    requires i < |ls|
    ensures Hits(ls[..i + 1], test) == Hits(ls[..i], test) + (if Keeps(test, ls[i]) then [LineInfo(i, ls[i])] else [])
    ensures Total(ls[..i + 1], test, tally) == Total(ls[..i], test, tally) + (if Keeps(test, ls[i]) then Weight(tally, ls[i]) else 0)
  {
    assert ls[..i + 1][..i] == ls[..i];
  }

  // ---------------------------------------------------------------------------
  // The two searches
  // ---------------------------------------------------------------------------

  /** `search`: the lines of `contents` containing `query`, numbered from 0,
      and the number of non-overlapping occurrences of `query` in them. */
  method Search(query: string, contents: string) returns (r: SearchResult)
    ensures r.lineInfo == Hits(Lines(contents), Exact(query))
    ensures r.count == Total(Lines(contents), Exact(query), Occurrences(query))
    ensures query != [] ==> r.count >= |r.lineInfo|
  {
    var lines := Lines(contents);
    var lineInfo: seq<LineInfo> := [];
    var count: nat := 0;
    for lineNo := 0 to |lines|
      invariant lineInfo == Hits(lines[..lineNo], Exact(query))
      invariant count == Total(lines[..lineNo], Exact(query), Occurrences(query))
    {
      var line := lines[lineNo];
      ScanStep(lines, lineNo, Exact(query), Occurrences(query));
      if Contains(line, query) {
        lineInfo := lineInfo + [LineInfo(lineNo, line)];
        count := count + MatchCount(line, query);
      }
    }
    assert lines[..|lines|] == lines;
    r := SearchResult(lineInfo, count);
    if query != [] {
      ExactCountAtLeastLines(query, lines);
    }
  }

  /** `search_case_insensitive`, with `to_lowercase` taken as the char-wise
      `fold`: a line is kept when its lowered form contains the lowered query,
      but its occurrences are counted in its ASCII-lowered form. */
  method SearchCaseInsensitive(query: string, contents: string, fold: char -> char)
    returns (r: SearchResult)
    ensures r.lineInfo == Hits(Lines(contents), Folded(fold, query))
    ensures r.count == Total(Lines(contents), Folded(fold, query), AsciiLoweredOccurrences(fold, query))
  {
    var loweredQuery := Lower(fold, query);
    var lines := Lines(contents);
    var lineInfo: seq<LineInfo> := [];
    var count: nat := 0;
    for lineNo := 0 to |lines|
      invariant lineInfo == Hits(lines[..lineNo], Folded(fold, query))
      invariant count == Total(lines[..lineNo], Folded(fold, query), AsciiLoweredOccurrences(fold, query))
    {
      var line := lines[lineNo];
      ScanStep(lines, lineNo, Folded(fold, query), AsciiLoweredOccurrences(fold, query));
      var lowered := Lower(fold, line);
      if Contains(lowered, loweredQuery) {
        lineInfo := lineInfo + [LineInfo(lineNo, line)];
        count := count + MatchCount(AsciiLowerStr(line), loweredQuery);
      }
    }
    assert lines[..|lines|] == lines;
    r := SearchResult(lineInfo, count);
  }

  /** The case-insensitive search with the count taken on the same lowered
      line that the containment test uses. */
  method SearchCaseInsensitiveCorrected(query: string, contents: string, fold: char -> char)
    returns (r: SearchResult)
    ensures r.lineInfo == Hits(Lines(contents), Folded(fold, query))
    ensures r.count == Total(Lines(contents), Folded(fold, query), LoweredOccurrences(fold, query))
    ensures query != [] ==> r.count >= |r.lineInfo|
  {
    var loweredQuery := Lower(fold, query);
    var lines := Lines(contents);
    var lineInfo: seq<LineInfo> := [];
    var count: nat := 0;
    for lineNo := 0 to |lines|
      invariant lineInfo == Hits(lines[..lineNo], Folded(fold, query))
      invariant count == Total(lines[..lineNo], Folded(fold, query), LoweredOccurrences(fold, query))
    {
      var line := lines[lineNo];
      ScanStep(lines, lineNo, Folded(fold, query), LoweredOccurrences(fold, query));
      var lowered := Lower(fold, line);
      if Contains(lowered, loweredQuery) {
        lineInfo := lineInfo + [LineInfo(lineNo, line)];
        count := count + MatchCount(lowered, loweredQuery);
      }
    }
    assert lines[..|lines|] == lines;
    r := SearchResult(lineInfo, count);
    if query != [] {
      LoweredCountAtLeastLines(fold, query, lines);
    }
  }

  // ---------------------------------------------------------------------------
  // What the reported lines are
  // ---------------------------------------------------------------------------

  /** A line is reported, with its own number and its original text, exactly
      when it is a line of the contents that `test` keeps. */
  lemma {:induction false} HitsMembership(ls: seq<string>, test: Test, info: LineInfo)
    ensures info in Hits(ls, test) <==>
              info.lineNumber < |ls| && info.lineContent == ls[info.lineNumber] && Keeps(test, info.lineContent)
    decreases |ls|
  {
    if ls != [] {
      var n := |ls| - 1;
      HitsMembership(ls[..n], test, info);
    }
  }

  /** Reported line numbers strictly increase: file order, no line twice. */
  lemma {:induction false} HitsOrdered(ls: seq<string>, test: Test)
    ensures forall a, b :: 0 <= a < b < |Hits(ls, test)| ==>
              Hits(ls, test)[a].lineNumber < Hits(ls, test)[b].lineNumber
    decreases |ls|
  {
    if ls != [] {
      var n := |ls| - 1;
      HitsOrdered(ls[..n], test);
      HitsBelow(ls[..n], test);
    }
  }

  /** Every reported line number lies within the lines of the contents. */
  lemma {:induction false} HitsBelow(ls: seq<string>, test: Test)
    ensures forall k :: 0 <= k < |Hits(ls, test)| ==> Hits(ls, test)[k].lineNumber < |ls|
  {
    forall k | 0 <= k < |Hits(ls, test)| ensures Hits(ls, test)[k].lineNumber < |ls| {
      HitsMembership(ls, test, Hits(ls, test)[k]);
    }
  }

  /** The count is the sum of the per-line weights of the reported lines. */
  lemma {:induction false} TotalIsSumOverHits(ls: seq<string>, test: Test, tally: Tally)
    ensures Total(ls, test, tally) == SumWeights(Hits(ls, test), tally)
    decreases |ls|
  {
    if ls != [] {
      var n := |ls| - 1;
      TotalIsSumOverHits(ls[..n], test, tally);
      var kept := Hits(ls[..n], test);
      if Keeps(test, ls[n]) {
        assert Hits(ls, test) == kept + [LineInfo(n, ls[n])];
        SumWeightsAppend(kept, LineInfo(n, ls[n]), tally);
        assert Total(ls, test, tally) == Total(ls[..n], test, tally) + Weight(tally, ls[n]);
      } else {
        assert Hits(ls, test) == kept;
        assert Total(ls, test, tally) == Total(ls[..n], test, tally);
      }
    }
  }

  lemma SumWeightsAppend(infos: seq<LineInfo>, info: LineInfo, tally: Tally)
    ensures SumWeights(infos + [info], tally) == SumWeights(infos, tally) + Weight(tally, info.lineContent)
  {
  }

  /** When every kept line weighs at least one, the count is at least the
      number of reported lines. */
  lemma {:induction false} TotalAtLeastHits(ls: seq<string>, test: Test, tally: Tally)
    requires forall k :: 0 <= k < |ls| && Keeps(test, ls[k]) ==> Weight(tally, ls[k]) >= 1
    ensures Total(ls, test, tally) >= |Hits(ls, test)|
    decreases |ls|
  {
    if ls != [] {
      var n := |ls| - 1;
      assert forall k :: 0 <= k < n ==> ls[..n][k] == ls[k];
      TotalAtLeastHits(ls[..n], test, tally);
    }
  }

  /** When `test` keeps every line, every line is reported in order. */
  lemma {:induction false} HitsOfAll(ls: seq<string>, test: Test)
    requires forall k :: 0 <= k < |ls| ==> Keeps(test, ls[k])
    ensures Hits(ls, test) == Numbered(ls)
    decreases |ls|
  {
    if ls != [] {
      var n := |ls| - 1;
      assert forall k :: 0 <= k < n ==> ls[..n][k] == ls[k];
      HitsOfAll(ls[..n], test);
      assert Numbered(ls) == Numbered(ls[..n]) + [LineInfo(n, ls[n])];
    }
  }

  // ---------------------------------------------------------------------------
  // Properties of `search` and `search_case_insensitive`
  // ---------------------------------------------------------------------------

  /** With a non-empty query every reported line adds at least one to the
      count of `search`. */
  lemma ExactCountAtLeastLines(query: string, ls: seq<string>)
    requires query != []
    ensures Total(ls, Exact(query), Occurrences(query)) >= |Hits(ls, Exact(query))|
  {
    forall k | 0 <= k < |ls| && Keeps(Exact(query), ls[k]) ensures Weight(Occurrences(query), ls[k]) >= 1 {
      MatchCountPositiveIffContains(ls[k], query);
    }
    TotalAtLeastHits(ls, Exact(query), Occurrences(query));
  }

  /** The empty query reports every line, and each line of length n adds
      n + 1 to the count. */
  lemma {:induction false} EmptyQueryReportsAll(ls: seq<string>)
    ensures Hits(ls, Exact([])) == Numbered(ls)
    ensures Total(ls, Exact([]), Occurrences([])) == LengthSum(ls) + |ls|
    decreases |ls|
  {
    forall k | 0 <= k < |ls| ensures Keeps(Exact([]), ls[k]) {
      assert StartsWith(ls[k], []);
    }
    HitsOfAll(ls, Exact([]));
    if ls != [] {
      var n := |ls| - 1;
      EmptyQueryReportsAll(ls[..n]);
      assert StartsWith(ls[n], []);
    }
  }

  /** Empty contents have no lines, so nothing is reported and the count is 0. */
  lemma EmptyContentsReportNothing(test: Test, tally: Tally)
    ensures Hits(Lines(""), test) == [] && Total(Lines(""), test, tally) == 0
  {
  }

  /** For a char-wise `to_lowercase`, every line `search` reports,
      `search_case_insensitive` reports too, with the same number and the
      same original text. */
  lemma CaseInsensitiveSuperset(fold: char -> char, query: string, ls: seq<string>)
    ensures forall info :: info in Hits(ls, Exact(query)) ==> info in Hits(ls, Folded(fold, query))
  {
    forall info | info in Hits(ls, Exact(query)) ensures info in Hits(ls, Folded(fold, query)) {
      HitsMembership(ls, Exact(query), info);
      ContainsLowered(fold, info.lineContent, query);
      HitsMembership(ls, Folded(fold, query), info);
    }
  }

  /** With the count taken on the lowered line, every reported line of a
      non-empty query adds at least one to the count. */
  lemma LoweredCountAtLeastLines(fold: char -> char, query: string, ls: seq<string>)
    requires query != []
    ensures Total(ls, Folded(fold, query), LoweredOccurrences(fold, query)) >= |Hits(ls, Folded(fold, query))|
  {
    forall k | 0 <= k < |ls| && Keeps(Folded(fold, query), ls[k])
      ensures Weight(LoweredOccurrences(fold, query), ls[k]) >= 1
    {
      MatchCountPositiveIffContains(Lower(fold, ls[k]), Lower(fold, query));
    }
    TotalAtLeastHits(ls, Folded(fold, query), LoweredOccurrences(fold, query));
  }

  /** As written, a line whose match needs a non-ASCII lowering is reported
      but adds nothing to the count: query "É" in the contents "É" gives one
      reported line and a count of 0 when `to_lowercase` maps 'É' to 'é'. */
  lemma CaseInsensitiveCountMisses(fold: char -> char)
    requires fold('É') == 'é'
    ensures Hits(Lines("É"), Folded(fold, "É")) == [LineInfo(0, "É")]
    ensures Total(Lines("É"), Folded(fold, "É"), AsciiLoweredOccurrences(fold, "É")) == 0
  {
    var line := "É";
    assert IndexOf(line, '\n') == 1;
    assert Lines(line) == [line];
    assert Lower(fold, line) == "é";
    assert StartsWith("é", "é");
    assert AsciiLowerStr(line) == line;
    assert !StartsWith(line, "é");
    assert [line][..0] == [];
  }

  /** The contents "hello world\nHELLO again\ngoodbye\n" (three lines, each
      ended by a line feed) searched for "hello" ignoring case: the first two
      lines are reported with their original text, and the count is 2. */
  lemma CaseInsensitiveExample(fold: char -> char)
    requires AgreesOnAscii(fold)
    ensures Hits(Lines(Terminated(["hello world", "HELLO again", "goodbye"], "\n")), Folded(fold, "hello"))
            == [LineInfo(0, "hello world"), LineInfo(1, "HELLO again")]
    ensures Total(Lines(Terminated(["hello world", "HELLO again", "goodbye"], "\n")), Folded(fold, "hello"),
                  AsciiLoweredOccurrences(fold, "hello")) == 2
  {
    var ls := ["hello world", "HELLO again", "goodbye"];
    assert StripCr(ls[0]) == ls[0] && StripCr(ls[1]) == ls[1] && StripCr(ls[2]) == ls[2];
    assert '\n' !in ls[0] && '\n' !in ls[1] && '\n' !in ls[2];
    LinesOfLfTerminated(ls);
    ExampleScan(fold);
  }

  lemma ExampleScan(fold: char -> char)
    requires AgreesOnAscii(fold)
    ensures Hits(["hello world", "HELLO again", "goodbye"], Folded(fold, "hello"))
            == [LineInfo(0, "hello world"), LineInfo(1, "HELLO again")]
    ensures Total(["hello world", "HELLO again", "goodbye"], Folded(fold, "hello"),
                  AsciiLoweredOccurrences(fold, "hello")) == 2
  {
    var ls := ["hello world", "HELLO again", "goodbye"];
    var test, tally := Folded(fold, "hello"), AsciiLoweredOccurrences(fold, "hello");
    ExampleFirstLine(fold);
    ExampleSecondLine(fold);
    ExampleLineDropped(fold);
    assert ls[..0] == [];
    ScanStep(ls, 0, test, tally);
    ScanStep(ls, 1, test, tally);
    ScanStep(ls, 2, test, tally);
    assert ls[..3] == ls;
  }

  /** "hello world" is kept and counted once. */
  lemma ExampleFirstLine(fold: char -> char)
    requires AgreesOnAscii(fold)
    ensures Keeps(Folded(fold, "hello"), "hello world")
    ensures Weight(AsciiLoweredOccurrences(fold, "hello"), "hello world") == 1
  {
    ExampleLineKept(fold, "hello world", "hello world");
  }

  /** "HELLO again" is kept and counted once. */
  lemma ExampleSecondLine(fold: char -> char)
    requires AgreesOnAscii(fold)
    ensures Keeps(Folded(fold, "hello"), "HELLO again")
    ensures Weight(AsciiLoweredOccurrences(fold, "hello"), "HELLO again") == 1
  {
    ExampleLineKept(fold, "HELLO again", "hello again");
  }

  /** An ASCII line that lowers to "hello" followed by text without 'h' is
      kept and counted once. */
  lemma ExampleLineKept(fold: char -> char, line: string, lowered: string)
    requires AgreesOnAscii(fold)
    requires forall k :: 0 <= k < |line| ==> line[k] < 128 as char
    requires AsciiLowerStr(line) == lowered
    requires StartsWith(lowered, "hello") && 'h' !in lowered[5..]
    ensures Keeps(Folded(fold, "hello"), line)
    ensures Weight(AsciiLoweredOccurrences(fold, "hello"), line) == 1
  {
    AsciiLoweringsAgree(fold, line);
    AsciiLoweringsAgree(fold, "hello");
    assert AsciiLowerStr("hello") == "hello";
    OneLeadingMatch(lowered, "hello");
  }

  lemma ExampleLineDropped(fold: char -> char)
    requires AgreesOnAscii(fold)
    ensures !Keeps(Folded(fold, "hello"), "goodbye")
  {
    AsciiLoweringsAgree(fold, "goodbye");
    AsciiLoweringsAgree(fold, "hello");
    assert AsciiLowerStr("hello") == "hello";
    assert AsciiLowerStr("goodbye") == "goodbye";
    ContainsFirstChar("goodbye", "hello");
  }

  /** A line that starts with the query and holds no second copy of its first
      char is kept and counted once. */
  lemma OneLeadingMatch(line: string, query: string)
    requires query != [] && StartsWith(line, query)
    requires query[0] !in line[|query|..]
    ensures Contains(line, query) && MatchCount(line, query) == 1
  {
    ContainsFirstChar(line[|query|..], query);
    MatchCountPositiveIffContains(line[|query|..], query);
  }
}
