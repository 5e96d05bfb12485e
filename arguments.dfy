/** The command-line model of minigrep: the `Arguments` record and its
    constructor `Arguments::new`, which reads the token vector (token 0 is the
    program name) and decides by the number of tokens. */
module MinigrepArgs {

  datatype Result<T, E> = Ok(value: T) | Err(error: E)

  /** The parsed invocation. */
  datatype Arguments = Arguments(
    query: string,       // word to search for
    fileName: string,    // file to search in
    helpOption: bool,    // show the help menu
    viewVersion: bool,   // show the version
    caseIgnore: bool,    // -i, --ignore-case
    lineNumber: bool,    // -n, --line-number
    queryCount: bool     // -c, --query-count
  )

  /** `Arguments::default()`: empty strings and every option off. */
  function DefaultArguments(): (a: Arguments)
    ensures a.query == [] && a.fileName == []
    ensures !a.helpOption && !a.viewVersion && !a.caseIgnore && !a.lineNumber && !a.queryCount
  {
    Arguments("", "", false, false, false, false, false)
  }

  /** The one error `Arguments::new` reports. */
  const UnknownCommand := "Unknown command, run 'cargo new minigrep_help' to learn more\n"

  /** True iff one of the option tokens `options` is the flag's `short` or
      `long` spelling (case-sensitive, exact token equality). */
  predicate HasFlag(options: seq<string>, short: string, long: string): (r: bool)
    ensures r <==> exists k :: 0 <= k < |options| && (options[k] == short || options[k] == long)
  {
    short in options || long in options
  }

  /** `Arguments::new`. Two tokens: only `minigrep_help` is accepted. Three
      tokens: `minigrep -v|--version` asks for the version, `minigrep` with
      anything else is rejected, any other pair is a plain search. Four or
      more: a search whose flags come from tokens 3.., and which is rejected
      unless `-c|--query-count` is among them. */
  function New(args: seq<string>): (r: Result<Arguments, string>)
    ensures r.Err? ==> r.error == UnknownCommand
    ensures r.Ok? <==>
              || (|args| == 2 && args[1] == "minigrep_help")
              || (|args| == 3 && (args[1] != "minigrep" || args[2] in ["-v", "--version"]))
              || (|args| >= 4 && HasFlag(args[3..], "-c", "--query-count"))
    ensures r.Ok? ==> !(r.value.helpOption && r.value.viewVersion)
    ensures r.Ok? && |args| >= 3 && args[1] != "minigrep" ==>
              r.value.query == args[1] && r.value.fileName == args[2]
  {
    if |args| == 2 then
      if args[1] == "minigrep_help" then Ok(DefaultArguments().(helpOption := true))
      else Err(UnknownCommand)
    else if |args| == 3 then
      if args[1] == "minigrep" then
        if args[2] == "-v" || args[2] == "--version" then Ok(DefaultArguments().(viewVersion := true))
        else Err(UnknownCommand)
      else Ok(DefaultArguments().(query := args[1], fileName := args[2]))
    else if |args| >= 4 then
      var options := args[3..];
      var argument := DefaultArguments().(query := args[1], fileName := args[2]);
      var argument := if HasFlag(options, "-i", "--ignore-case") then argument.(caseIgnore := true) else argument;
      var argument := if HasFlag(options, "-n", "--line-number") then argument.(lineNumber := true) else argument;
      if HasFlag(options, "-c", "--query-count") then Ok(argument.(queryCount := true))
      else Err(UnknownCommand)
    else Err(UnknownCommand)
  }

  /** `["_", "minigrep_help"]` asks for help and nothing else. */
  lemma HelpShape(program: string)
    ensures New([program, "minigrep_help"]) == Ok(DefaultArguments().(helpOption := true))
  {
  }

  /** `["_", "minigrep", "-v"|"--version"]` asks for the version and nothing else. */
  lemma VersionShape(program: string, flag: string)
    requires flag == "-v" || flag == "--version"
    ensures New([program, "minigrep", flag]) == Ok(DefaultArguments().(viewVersion := true))
  {
  }

  /** Any three tokens not starting with `minigrep` are a plain search. */
  lemma PlainSearchShape(args: seq<string>)
    requires |args| == 3 && args[1] != "minigrep"
    ensures New(args) == Ok(Arguments(args[1], args[2], false, false, false, false, false))
  {
  }

  /** With four or more tokens, each flag is set exactly when one of its
      spellings occurs after the file name, and the call fails without `-c`. */
  lemma FlagShape(args: seq<string>)
    requires |args| >= 4
    ensures New(args).Ok? <==> HasFlag(args[3..], "-c", "--query-count")
    ensures New(args).Ok? ==>
              New(args).value == Arguments(args[1], args[2], false, false,
                                           HasFlag(args[3..], "-i", "--ignore-case"),
                                           HasFlag(args[3..], "-n", "--line-number"),
                                           true)
  {
  }

  /** `-i` and `-n` without `-c` do not make a four-token call valid: the
      help menu's own examples `hello hello_world.txt -i` and
      `hello hello_world.txt -n` are rejected, and so is `-i -n`. */
  lemma FlagsWithoutCountRejected(program: string)
    ensures New([program, "hello", "hello_world.txt", "-i"]) == Err(UnknownCommand)
    ensures New([program, "hello", "hello_world.txt", "-n"]) == Err(UnknownCommand)
    ensures New([program, "hello", "hello_world.txt", "-i", "-n"]) == Err(UnknownCommand)
  {
  }

  /** The rejected shapes: too few tokens, two tokens without the help
      trigger, and `minigrep` followed by anything but a version flag. */
  lemma RejectedShapes(args: seq<string>)
    requires || |args| < 2
             || (|args| == 2 && args[1] != "minigrep_help")
             || (|args| == 3 && args[1] == "minigrep" && args[2] != "-v" && args[2] != "--version")
    ensures New(args) == Err(UnknownCommand)
  {
  }

  /** `Arguments::new` with each flag optional, as the help menu describes
      them: four or more tokens are always a search, and `-c` only sets
      `query_count`. */
  function NewCorrected(args: seq<string>): (r: Result<Arguments, string>)
    ensures r.Err? ==> r.error == UnknownCommand
    ensures r.Ok? <==>
              || (|args| == 2 && args[1] == "minigrep_help")
              || (|args| == 3 && (args[1] != "minigrep" || args[2] in ["-v", "--version"]))
              || |args| >= 4
    ensures |args| < 4 ==> r == New(args)
    ensures |args| >= 4 && New(args).Ok? ==> r == New(args)
    ensures |args| >= 4 ==>
              r == Ok(Arguments(args[1], args[2], false, false,
                                HasFlag(args[3..], "-i", "--ignore-case"),
                                HasFlag(args[3..], "-n", "--line-number"),
                                HasFlag(args[3..], "-c", "--query-count")))
  {
    if |args| >= 4 then
      var options := args[3..];
      Ok(DefaultArguments().(query := args[1], fileName := args[2],
                             caseIgnore := HasFlag(options, "-i", "--ignore-case"),
                             lineNumber := HasFlag(options, "-n", "--line-number"),
                             queryCount := HasFlag(options, "-c", "--query-count")))
    else New(args)
  }

  /** The help menu's examples are searches under the corrected parser. */
  lemma HelpExamplesAccepted(program: string)
    ensures NewCorrected([program, "hello", "hello_world.txt", "-i"])
            == Ok(Arguments("hello", "hello_world.txt", false, false, true, false, false))
    ensures NewCorrected([program, "hello", "hello_world.txt", "-n"])
            == Ok(Arguments("hello", "hello_world.txt", false, false, false, true, false))
  {
  }
}
