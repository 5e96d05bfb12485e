# minigrep search engine, modelled in Dafny

minigrep is a small line-oriented search tool written in Rust. Its library
(`src/lib.rs`) has two parts worth modelling:

- **`Arguments::new`** reads the argument vector (token 0 is the program
  name) and decides by the number of tokens. With two tokens, it accepts only
  `minigrep_help`. With three, it accepts `minigrep -v|--version` or
  `<query> <file>`. With four or more, it reads a search with option flags.
  Any other shape is the error "Unknown command, run 'cargo new minigrep_help'
  to learn more".
- **`search`** and **`search_case_insensitive`** walk `contents.lines()` in
  order. They keep each line that contains the query, together with its
  0-based line number. They also add up the query's non-overlapping
  occurrences in the kept lines.

The project has three modules:

- `StrModel` (`str_model.dfy`) models the Rust string operations the engine
  relies on. `Lines` models `str::lines`. `Contains` models `str::contains`.
  `MatchCount` models `str::matches(..).count()`. `AsciiLowerStr` models
  `str::to_ascii_lowercase`. `Lower` models `str::to_lowercase` as a char-wise
  mapping.
- `MinigrepArgs` (`arguments.dfy`) holds the `Arguments` record, its default
  value and `Arguments::new` as the pure function `New`. `New` returns a
  `Result`.
- `MinigrepSearch` (`search.dfy`) holds `LineInfo`, `SearchResult` and the two
  searches as methods. Each method is a loop over the lines. It appends to the
  `line_info` sequence and adds to `count`. Each method is proved against the
  specification functions `Hits` and `Total`. `Hits` gives the kept lines with
  their numbers, in order. `Total` gives what those lines add to the count.
  Lemmas prove what `Hits` and `Total` mean.

Modelling choices:

- `str::lines` follows current Rust. Lines are split at each `'\n'`. A line
  ended by `"\r\n"` loses its `'\r'`. A trailing `'\n'` adds no empty line.
  A bare `'\r'` at the end of an unterminated last line stays in the line.
- Lowercasing is an abstract char-wise function. `str::to_lowercase` is
  modelled as `Lower(fold, s)`, with `fold: char -> char` a parameter of the
  case-insensitive search. Lemmas that need `to_lowercase` to agree with ASCII
  lowercasing on ASCII characters state this as the predicate `AgreesOnAscii`.
  `str::to_ascii_lowercase` is modelled exactly: `'A'..'Z'` map to
  `'a'..'z'`, and every other char stays as it is.
- Strings are sequences of chars. A substring of valid UTF-8 text matches on
  bytes exactly when it matches on chars, so this agrees with Rust's
  byte-level search.
- The flags in the four-or-more-token case follow the code. The `else` at
  `src/lib.rs:103-105` belongs to the `-c` test, so a call without
  `-c`/`--query-count` is an error, even when `-i` or `-n` is present. The
  program's own examples are such calls: the comment at `src/lib.rs:75`
  (`hello hello_world.txt -i -n`) and the help menu at `src/lib.rs:213`,
  `221` and `231` (`hello hello_world.txt -i`, `... -n`). `New` models the
  code as written, and `NewCorrected` models the parser with every flag
  optional (see "## Findings"). A three-token call
  `minigrep <anything but -v/--version>` is an error as well. It is not a
  search.

## Model

| member | source | states |
|---|---|---|
| `MinigrepArgs.DefaultArguments` | src/lib.rs:25-37 | `Arguments::default()` has an empty query and file name and every option off |
| `MinigrepArgs.HasFlag` | src/lib.rs:86-99 | a flag is present iff some option token equals its short or its long spelling |
| `MinigrepArgs.New` | src/lib.rs:41-111 | The result is `Ok` exactly for two tokens ending in `minigrep_help`, for three tokens unless the first argument is `minigrep` and the second is not `-v`/`--version`, and for four or more tokens with `-c`/`--query-count` among tokens 3..; every `Err` carries the "Unknown command" message; no `Ok` has both `help_option` and `view_version`; a search takes `args[1]` as query and `args[2]` as file name |
| `MinigrepArgs.HelpShape` | src/lib.rs:46-53 | `[_, "minigrep_help"]` gives `help_option` set and every other field at its default |
| `MinigrepArgs.VersionShape` | src/lib.rs:54-63 | `[_, "minigrep", "-v"]` and `[_, "minigrep", "--version"]` give `view_version` set and every other field at its default |
| `MinigrepArgs.PlainSearchShape` | src/lib.rs:64-72 | three tokens whose first argument is not `minigrep` give query `args[1]`, file `args[2]` and every flag off |
| `MinigrepArgs.FlagShape` | src/lib.rs:73-108 | with four or more tokens the call succeeds iff `-c`/`--query-count` is among tokens 3..; then `case_ignore` and `line_number` are set iff one spelling of their flag is among those tokens, and `query_count` is set |
| `MinigrepArgs.FlagsWithoutCountRejected` | src/lib.rs:98-105 | the calls `hello hello_world.txt -i`, `... -n` and `... -i -n` (no `-c`) are the "Unknown command" error |
| `MinigrepArgs.RejectedShapes` | src/lib.rs:46-110 | fewer than two tokens, two tokens without `minigrep_help`, and `minigrep` followed by anything but a version flag all give the "Unknown command" error |
| `MinigrepArgs.NewCorrected` | src/lib.rs:73-108 | with every flag optional: `Ok` exactly for the accepted two- and three-token shapes and for every call of four or more tokens; a call of four or more tokens gives query `args[1]`, file `args[2]`, and each of `case_ignore`, `line_number` and `query_count` set iff one spelling of its flag is among tokens 3..; it agrees with `New` wherever `New` succeeds and on every call of fewer than four tokens |
| `MinigrepArgs.HelpExamplesAccepted` | src/lib.rs:213-231 | under the corrected parser, `hello hello_world.txt -i` and `... -n` are searches with exactly that flag set |
| `StrModel.Lines` | src/lib.rs:167 | `contents.lines()` is empty iff the contents are empty, and it has at most one line per char |
| `StrModel.Contains` | src/lib.rs:169 | the empty query is contained in every line, and a contained query is no longer than the line |
| `StrModel.MatchCount` | src/lib.rs:174 | the empty query matches once per char boundary, that is the line length plus one times; a non-empty query matches at most as many times as the line has chars |
| `StrModel.AsciiLowerStr` | src/lib.rs:194 | `to_ascii_lowercase` keeps the length, turns each `'A'..'Z'` into the char 32 code points higher (its `'a'..'z'`), leaves no `'A'..'Z'`, and changes no other char |
| `StrModel.Lower` | src/lib.rs:189 | the char-wise `to_lowercase` keeps the length |
| `StrModel.LinesTrailingNewline` | src/lib.rs:167 | `"a\nb\n"` splits into `["a", "b"]`: a trailing line feed adds no empty line |
| `StrModel.LinesCrlf` | src/lib.rs:167 | `"a\r\nb"` splits into `["a", "b"]` |
| `StrModel.LinesEmptyAndBlank` | src/lib.rs:167 | `""` has no lines, and `"a\n\nb"` keeps the empty middle line |
| `StrModel.LinesBareCr` | src/lib.rs:167 | a bare `'\r'` ending the last line stays in it: `"a\r"` gives `["a\r"]` |
| `StrModel.LinesHaveNoNewline` | src/lib.rs:167 | no line produced by the split contains a line feed |
| `StrModel.LinesOfLfTerminated` | src/lib.rs:167 | splitting undoes writing each line followed by `'\n'`, for lines without `'\n'` and without a trailing `'\r'` |
| `StrModel.LinesOfCrlfTerminated` | src/lib.rs:187 | splitting undoes writing each line followed by `"\r\n"`, for any lines without `'\n'` |
| `StrModel.ContainsIffOccurs` | src/lib.rs:169 | `contains` holds iff the query occurs as a contiguous slice at some position |
| `StrModel.MatchCountPositiveIffContains` | src/lib.rs:169-174 | `matches(q).count()` is positive iff the line contains `q`, the empty query included |
| `StrModel.MatchCountBound` | src/lib.rs:174 | for a non-empty query, count times query length is at most the line length, as non-overlapping matches must |
| `StrModel.NonOverlappingExample` | src/lib.rs:174 | `"aaa"` holds `"aa"` once, `"abab"` holds `"ab"` twice, `"abc"` holds `""` four times |
| `StrModel.ContainsLowered` | src/lib.rs:189 | lowering line and query with the same char-wise mapping keeps every occurrence |
| `StrModel.AsciiLoweringsAgree` | src/lib.rs:189-194 | on ASCII text, `to_lowercase` and `to_ascii_lowercase` give the same string |
| `MinigrepSearch.ScanStep` | src/lib.rs:167-176 | one loop iteration: a kept line extends `line_info` by `(line_no, line)` and `count` by its weight; a dropped line changes neither |
| `MinigrepSearch.Search` | src/lib.rs:162-179 | `line_info` is exactly the lines of `contents.lines()` that contain the query, numbered from 0 and in order; `count` is the sum of their non-overlapping occurrence counts; with a non-empty query, `count >= line_info.len()` |
| `MinigrepSearch.SearchCaseInsensitive` | src/lib.rs:181-199 | `line_info` is exactly the lines whose `to_lowercase` contains the lowered query, numbered from 0 and in order, with their original text; `count` is the sum of the lowered query's occurrences in each kept line's `to_ascii_lowercase` |
| `MinigrepSearch.SearchCaseInsensitiveCorrected` | src/lib.rs:181-199 | the same report, with occurrences counted in the lowered line; with a non-empty query, `count >= line_info.len()` |
| `MinigrepSearch.HitsMembership` | src/lib.rs:167-173 | a record `(n, text)` is reported iff `n` is a line index of the contents, `text` is that line, and the test keeps it: reported lines are sound, carry their own 0-based number, and no kept line is missed |
| `MinigrepSearch.HitsOrdered` | src/lib.rs:167-173 | reported line numbers strictly increase: file order, each line at most once |
| `MinigrepSearch.HitsBelow` | src/lib.rs:167-173 | every reported line number is below the number of lines |
| `MinigrepSearch.TotalIsSumOverHits` | src/lib.rs:169-174 | the count is the sum of the per-line weights over exactly the reported lines |
| `MinigrepSearch.TotalAtLeastHits` | src/lib.rs:169-174 | when every kept line weighs at least one, the count is at least the number of reported lines |
| `MinigrepSearch.HitsOfAll` | src/lib.rs:167-173 | when every line is kept, every line is reported with its own number, in order |
| `MinigrepSearch.ExactCountAtLeastLines` | src/lib.rs:169-174 | with a non-empty query, each line `search` reports adds at least one to the count |
| `MinigrepSearch.EmptyQueryReportsAll` | src/lib.rs:167-174 | the empty query reports every line in order, and each line of length n adds n + 1 to the count |
| `MinigrepSearch.EmptyContentsReportNothing` | src/lib.rs:163-178 | empty contents give no records and a count of 0 |
| `MinigrepSearch.CaseInsensitiveSuperset` | src/lib.rs:182-193 | for a char-wise `to_lowercase`, every record `search` reports is also reported by `search_case_insensitive`, with the same line number and the same original text |
| `MinigrepSearch.LoweredCountAtLeastLines` | src/lib.rs:189-194 | when occurrences are counted in the lowered line, every kept line of a non-empty query adds at least one |
| `MinigrepSearch.CaseInsensitiveCountMisses` | src/lib.rs:189-194 | as written, query `"É"` in contents `"É"` reports one line but counts 0, whenever `to_lowercase` maps `'É'` to `'é'` |
| `MinigrepSearch.CaseInsensitiveExample` | src/lib.rs:181-199 | the contents `"hello world\nHELLO again\ngoodbye\n"` searched for `"hello"` ignoring case report lines 0 and 1 with their original text, and count 2 |

## Left out

- `run` (`src/lib.rs:115-160`) is not modelled. It reads the file, prints and colours the output, and prints "No results". All of that is I/O. It calls `search_case_insensitive` exactly when `case_ignore` is set, and `search` otherwise (`src/lib.rs:131-135`).
- `view_help_menu` and `view_version` (`src/lib.rs:201-253`) only print text, so they are not modelled.
- `src/main.rs` only collects `env::args` and exits the process. It is not part of this model.
- `SearchCaseInsensitive` takes `to_lowercase` as a char-wise mapping `fold`. Rust's full Unicode lowercasing can also turn one char into several (`'İ'`) and treats final sigma by context. These cases are not modelled.
- CaseInsensitiveSuperset holds only for a char-wise `to_lowercase`. Rust's final-sigma rule breaks it: with query `"Σ"` and contents `"ΑΣ"`, `search` reports line 0, but `search_case_insensitive` lowers the query to `"σ"` and the line to `"ας"`, so it drops the line.
- `Search` and `SearchCaseInsensitive` count with an unbounded `nat`. Overflow of the `usize` count is not modelled.
- `LineInfo.lineContent` is a copy of the line rather than a borrowed slice. The borrow and lifetime rules of `&'a str` are not modelled.
- `str::lines` is modelled with current Rust semantics. An older Rust release also strips a bare `'\r'` at the very end of the text. Under that release, `"a\r"` gives `["a"]` rather than `["a\r"]`.

## Findings

| source | as written | input that shows it | evidently intended | confidence | as-written member | corrected member |
|---|---|---|---|---|---|---|
| src/lib.rs:98-105 | the `else` returning the error belongs to the `-c` test, so a call of four or more tokens without `-c`/`--query-count` is rejected | `cargo run hello hello_world.txt -i`, the help menu's own example at src/lib.rs:213: "Unknown command" | `-i`, `-n` and `-c` are each optional, as the help menu and the comment at src/lib.rs:75 show | not executed | `MinigrepArgs.FlagsWithoutCountRejected` | `MinigrepArgs.NewCorrected` |
| src/lib.rs:189-194 | a line is kept when `line.to_lowercase()` contains the lowered query, but its occurrences are counted in `line.to_ascii_lowercase()`, which leaves non-ASCII capitals unchanged | query `"É"` with contents `"É"` and `-i -c`: the line is printed but `Count: 0` | count the occurrences in the same lowered line that the test used, so that every printed line adds at least one to the count | not executed | `MinigrepSearch.CaseInsensitiveCountMisses` | `MinigrepSearch.SearchCaseInsensitiveCorrected` |
