/** The `typify.cli` command line: the same scan as the `typify` tool with
    its own argument test, but an exit code that starts at 1. */
module TypifyCli {
  import opened Wrappers
  import opened Text
  import TypifyTool

  /** `IsArg(candidate, shortName, longName)`: "-" and the short name, or
      "--" and the long name; a missing name disables that form. */
  predicate IsArg(candidate: string, shortName: Option<string>, longName: Option<string>)
  {
    (shortName.Some? && candidate == "-" + shortName.value) || (longName.Some? && candidate == "--" + longName.value)
  }

  /** `IsArg(candidate, longName)`: the long form only. */
  predicate IsLongArg(candidate: string, longName: string)
  {
    IsArg(candidate, Option.None, Some(longName))
  }

  /** The test is the named argument's test of the `typify` tool, so both
      programs split their arguments alike; the long-only form never
      matches a single dash followed by the name. */
  lemma IsArgAgrees(candidate: string, shortName: Option<string>, longName: Option<string>)
    ensures IsArg(candidate, shortName, longName) <==> TypifyTool.IsArg(TypifyTool.AppArg(longName, shortName), candidate)
    ensures longName.Some? ==> (IsLongArg(candidate, longName.value) <==> candidate == "--" + longName.value)
    ensures longName.Some? && longName.value != "" && longName.value[0] != '-' ==> !IsLongArg("-" + longName.value, longName.value)
  {
    if longName.Some? && longName.value != "" && longName.value[0] != '-' {
      var n := longName.value;
      assert ("-" + n)[1] != ("--" + n)[1];
    }
  }

  /** `Main` over `ProcessArgs`: help gives 0 without printing anything; an
      unknown option prints help and gives 1 before the verbose variable is
      set; otherwise only a built-in replaces the starting exit code 1. */
  function Run(args: seq<string>, builtIn: seq<string> -> Result<int>): TypifyTool.Outcome
  {
    match TypifyTool.ScanArgs(args)
    case HelpRequested => TypifyTool.Outcome(0, false, false, Option.None)
    case Scanned(verbose, success, command, appArgs) =>
      if !success then TypifyTool.Outcome(1, false, true, Option.None)
      else if TypifyTool.CommandName(command) in TypifyTool.BuiltIns then
        TypifyTool.Outcome(TypifyTool.ExitCodeOf(builtIn(appArgs)), verbose, false, Some(appArgs))
      else TypifyTool.Outcome(1, verbose, false, Option.None)
  }

  /** `ProcessArgs`: the scanning loop, then the exit code. */
  method ProcessArgs(args: seq<string>, builtIn: seq<string> -> Result<int>) returns (o: TypifyTool.Outcome)
    ensures o == Run(args, builtIn)
  {
    var verbose := false;
    var success := true;
    var command := "";
    var lastArg := 0;
    var exitCode := 1;
    while lastArg < |args|
      invariant lastArg <= |args|
      invariant forall j :: 0 <= j < lastArg ==> !TypifyTool.EndsScan(args[j])
      invariant verbose == exists j :: 0 <= j < lastArg && TypifyTool.IsVerbose(args[j])
      invariant success == forall j :: 0 <= j < lastArg ==> !TypifyTool.IsUnknownOption(args[j])
      invariant command == ""
    {
      var arg := args[lastArg];
      IsArgAgrees(arg, Some("d"), Some("diagnostics"));
      IsArgAgrees(arg, Some("h"), Some("help"));
      if IsArg(arg, Some("d"), Some("diagnostics")) {
        verbose := true;
      } else if IsArg(arg, Some("h"), Some("help")) || arg == "-?" || arg == "/?" {
        TypifyTool.ScanEndIs(args, lastArg);
        return TypifyTool.Outcome(0, false, false, Option.None);
      } else if StartsWith(arg, "-") {
        success := false;
      } else {
        command := arg;
        break;
      }
      lastArg := lastArg + 1;
    }
    TypifyTool.ScanEndIs(args, lastArg);
    if !success {
      return TypifyTool.Outcome(1, false, true, Option.None);
    }
    var appArgs := if lastArg + 1 >= |args| then [] else args[lastArg + 1..];
    if command == "" {
      command := "help";
    }
    var invoked: Option<seq<string>> := Option.None;
    if command in TypifyTool.BuiltIns {
      var result := builtIn(appArgs);
      exitCode := if result.Ok? then result.value else 1;
      invoked := Some(appArgs);
    }
    return TypifyTool.Outcome(exitCode, verbose, false, invoked);
  }

  /** Both programs run a built-in on the same arguments and then agree on
      the exit code; they differ where none runs: help gives 0 in both, an
      unknown option 1 in both, and a missing or unknown command 1 here
      but 0 in the `typify` tool. */
  lemma ComparedWithTool(args: seq<string>, builtIn: seq<string> -> Result<int>)
    ensures var o := Run(args, builtIn);
      var t := TypifyTool.Run(args, builtIn);
      && o.invoked == t.invoked
      && (o.invoked.Some? ==> o.exitCode == t.exitCode && o.verboseSet == t.verboseSet)
      && (TypifyTool.ScanArgs(args).HelpRequested? ==> o.exitCode == 0 && t.exitCode == 0 && !o.helpShown && t.helpShown)
      && (o.invoked.None? && !o.helpShown && TypifyTool.ScanArgs(args).Scanned? ==> o.exitCode == 1 && t.exitCode == 0)
  {
  }

  /** Without a command (only `-d` flags, or nothing) the exit code is 1. */
  lemma NoCommandFails(args: seq<string>, builtIn: seq<string> -> Result<int>)
    requires forall j :: 0 <= j < |args| ==> TypifyTool.IsVerbose(args[j])
    ensures Run(args, builtIn) == TypifyTool.Outcome(1, |args| > 0, false, Option.None)
  {
    TypifyTool.NoCommandSucceeds(args, builtIn);
  }
}
