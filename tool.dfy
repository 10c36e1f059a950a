/** The `typify` command line: named arguments, the scan over the
    arguments that finds the command, and the exit code. */
module TypifyTool {
  import opened Wrappers
  import opened Text

  /** A named argument with a long and a short form; a missing name
      disables that form. */
  datatype AppArg = AppArg(longName: Option<string>, shortName: Option<string>)

  /** `IsArg`: the candidate is "-" and the short name, or "--" and the long
      name. */
  predicate IsArg(a: AppArg, candidate: string)
  {
    (a.shortName.Some? && candidate == "-" + a.shortName.value)
      || (a.longName.Some? && candidate == "--" + a.longName.value)
  }

  /** Only dashed forms match: a match starts with "-", and what follows the
      dash (or the two dashes) is the short (or the long) name; without
      names nothing matches. */
  lemma IsArgForms(a: AppArg, candidate: string)
    ensures IsArg(a, candidate) ==> StartsWith(candidate, "-")
    ensures IsArg(a, candidate) ==>
      (a.shortName.Some? && candidate[1..] == a.shortName.value)
      || (a.longName.Some? && StartsWith(candidate, "--") && candidate[2..] == a.longName.value)
    ensures a.shortName.None? && a.longName.None? ==> !IsArg(a, candidate)
  {
    if IsArg(a, candidate) {
      if a.shortName.Some? && candidate == "-" + a.shortName.value {
        assert candidate[1..] == a.shortName.value;
      } else {
        assert candidate[2..] == a.longName.value;
      }
    }
  }

  const VerboseArg := AppArg(Some("diagnostics"), Some("d"))
  const HelpArg := AppArg(Some("help"), Some("h"))

  /** With ("help", "h"), "-h" and "--help" match; "-help", "--h" and the
      bare "help" do not. */
  lemma HelpArgForms()
    ensures IsArg(HelpArg, "-h") && IsArg(HelpArg, "--help")
    ensures !IsArg(HelpArg, "-help") && !IsArg(HelpArg, "--h") && !IsArg(HelpArg, "help")
  {
    assert ("-" + "help")[1] != ("--" + "help")[1];
    assert |"-help"| != |"-h"| && |"--h"| != |"--help"|;
    assert "help"[0] != '-';
  }

  /** The four kinds of argument, in the order the scan tests them. */
  predicate IsVerbose(arg: string)
  {
    IsArg(VerboseArg, arg)
  }

  predicate IsHelp(arg: string)
  {
    !IsVerbose(arg) && (IsArg(HelpArg, arg) || arg == "-?" || arg == "/?")
  }

  predicate IsUnknownOption(arg: string)
  {
    !IsVerbose(arg) && !IsHelp(arg) && StartsWith(arg, "-")
  }

  predicate IsCommand(arg: string)
  {
    !IsVerbose(arg) && !IsHelp(arg) && !StartsWith(arg, "-")
  }

  /** The scan stops at a help flag or at the command. */
  predicate EndsScan(arg: string)
  {
    IsHelp(arg) || IsCommand(arg)
  }

  function ScanEndFrom(args: seq<string>, i: nat): (k: nat)
    requires i <= |args|
    ensures i <= k <= |args|
    ensures forall j :: i <= j < k ==> !EndsScan(args[j])
    ensures k < |args| ==> EndsScan(args[k])
    decreases |args| - i
  {
    if i == |args| || EndsScan(args[i]) then i else ScanEndFrom(args, i + 1)
  }

  /** Where the scan stops: the first help flag or command, or the end. */
  function ScanEnd(args: seq<string>): (k: nat)
    ensures k <= |args|
    ensures forall j :: 0 <= j < k ==> !EndsScan(args[j])
    ensures k < |args| ==> EndsScan(args[k])
  {
    ScanEndFrom(args, 0)
  }

  /** The first stopping point is unique. */
  lemma ScanEndIs(args: seq<string>, i: nat)
    requires i <= |args|
    requires forall j :: 0 <= j < i ==> !EndsScan(args[j])
    requires i < |args| ==> EndsScan(args[i])
    ensures ScanEnd(args) == i
  {
    var k := ScanEnd(args);
    assert k < |args| ==> EndsScan(args[k]);
    assert i < |args| ==> EndsScan(args[i]);
  }

  /** What the scan leaves: help was asked for, or the verbose flag, whether
      every option was known, the command ("" if none) and the arguments
      after it. */
  datatype Scan = HelpRequested | Scanned(verbose: bool, success: bool, command: string, appArgs: seq<string>)

  function ScanArgs(args: seq<string>): Scan
  {
    var k := ScanEnd(args);
    if k < |args| && IsHelp(args[k]) then HelpRequested
    else Scanned(
      exists j :: 0 <= j < k && IsVerbose(args[j]),
      forall j :: 0 <= j < k ==> !IsUnknownOption(args[j]),
      if k < |args| then args[k] else "",
      if k + 1 >= |args| then [] else args[k + 1..])
  }

  /** What a run shows: the exit code, whether the verbose variable was set,
      whether help was printed, and the arguments a built-in was run with. */
  datatype Outcome = Outcome(exitCode: int, verboseSet: bool, helpShown: bool, invoked: Option<seq<string>>)

  /** The built-in commands. */
  const BuiltIns: set<string> := {"generate"}

  /** An empty command stands for "help". */
  function CommandName(command: string): (r: string)
    ensures r != ""
  {
    if command == "" then "help" else command
  }

  /** A built-in that raises ends the run with 1. */
  function ExitCodeOf(r: Result<int>): int
  {
    if r.Ok? then r.value else 1
  }

  const HelpOutcome := Outcome(0, false, true, Option.None)

  /** `Main` over `ProcessArgs`; `builtIn` runs the matched built-in on its
      arguments. */
  function Run(args: seq<string>, builtIn: seq<string> -> Result<int>): Outcome
  {
    match ScanArgs(args)
    case HelpRequested => HelpOutcome
    case Scanned(verbose, success, command, appArgs) =>
      if !success then Outcome(1, verbose, true, Option.None)
      else if CommandName(command) in BuiltIns then Outcome(ExitCodeOf(builtIn(appArgs)), verbose, false, Some(appArgs))
      else Outcome(0, verbose, false, Option.None)
  }

  /** `ProcessArgs`: the scanning loop, then the exit code. */
  method ProcessArgs(args: seq<string>, builtIn: seq<string> -> Result<int>) returns (o: Outcome)
    ensures o == Run(args, builtIn)
  {
    var verbose := false;
    var success := true;
    var command := "";
    var lastArg := 0;
    var exitCode := 0;
    while lastArg < |args|
      invariant lastArg <= |args|
      invariant forall j :: 0 <= j < lastArg ==> !EndsScan(args[j])
      invariant verbose == exists j :: 0 <= j < lastArg && IsVerbose(args[j])
      invariant success == forall j :: 0 <= j < lastArg ==> !IsUnknownOption(args[j])
      invariant command == ""
    {
      var arg := args[lastArg];
      if IsArg(VerboseArg, arg) {
        verbose := true;
      } else if IsArg(HelpArg, arg) || arg == "-?" || arg == "/?" {
        ScanEndIs(args, lastArg);
        return HelpOutcome;
      } else if StartsWith(arg, "-") {
        success := false;
      } else {
        command := arg;
        break;
      }
      lastArg := lastArg + 1;
    }
    ScanEndIs(args, lastArg);
    var helpShown := false;
    if !success {
      helpShown := true;
      exitCode := 1;
    }
    var appArgs := if lastArg + 1 >= |args| then [] else args[lastArg + 1..];
    if command == "" {
      command := "help";
    }
    var invoked: Option<seq<string>> := Option.None;
    if exitCode == 0 && command in BuiltIns {
      var result := builtIn(appArgs);
      exitCode := if result.Ok? then result.value else 1;
      invoked := Some(appArgs);
    }
    return Outcome(exitCode, verbose, helpShown, invoked);
  }

  /** A help flag before any command prints help and gives 0 at once:
      nothing runs and the verbose variable is not set. */
  lemma HelpBeforeCommand(args: seq<string>, i: nat, builtIn: seq<string> -> Result<int>)
    requires i < |args| && IsHelp(args[i])
    requires forall j :: 0 <= j < i ==> !IsCommand(args[j]) && !IsHelp(args[j])
    ensures Run(args, builtIn) == HelpOutcome
  {
    ScanEndIs(args, i);
  }

  /** The first argument that is not an option is the command; exactly the
      arguments after it go to the built-in, whose exit code is the run's;
      any other command runs nothing and gives 0. */
  lemma CommandTakesTheRest(args: seq<string>, i: nat, builtIn: seq<string> -> Result<int>)
    requires i < |args| && IsCommand(args[i])
    requires forall j :: 0 <= j < i ==> !IsCommand(args[j]) && !IsHelp(args[j]) && !IsUnknownOption(args[j])
    ensures var o := Run(args, builtIn);
      && !o.helpShown
      && (args[i] in BuiltIns ==> o.invoked == Some(args[i + 1..]) && o.exitCode == ExitCodeOf(builtIn(args[i + 1..])))
      && (args[i] !in BuiltIns ==> o.invoked.None? && o.exitCode == 0)
  {
    ScanEndIs(args, i);
    assert i + 1 >= |args| ==> args[i + 1..] == [];
  }

  /** An unknown option before the command prints help and runs nothing;
      the exit code is 1, unless a help flag follows before the command. */
  lemma UnknownOptionFails(args: seq<string>, i: nat, builtIn: seq<string> -> Result<int>)
    requires i < |args| && IsUnknownOption(args[i])
    requires forall j :: 0 <= j < i ==> !IsCommand(args[j]) && !IsHelp(args[j])
    ensures var o := Run(args, builtIn);
      o == HelpOutcome || (o.exitCode == 1 && o.helpShown && o.invoked.None?)
  {
    var k := ScanEnd(args);
    assert k < |args| ==> EndsScan(args[k]);
    assert !EndsScan(args[i]);
  }

  /** With no command and no unknown option, "help" is used: it is not a
      built-in, so the exit code is 0 and nothing runs. */
  lemma NoCommandSucceeds(args: seq<string>, builtIn: seq<string> -> Result<int>)
    requires forall j :: 0 <= j < |args| ==> IsVerbose(args[j])
    ensures Run(args, builtIn) == Outcome(0, |args| > 0, false, Option.None)
  {
    ScanEndIs(args, |args|);
    if |args| > 0 {
      assert IsVerbose(args[0]);
    }
    assert "help" !in BuiltIns;
  }

  /** `typify -d generate -a lib.dll` sets the verbose variable and runs
      `generate` on ["-a", "lib.dll"]; `typify --verbose generate` stops at
      the unknown option. */
  lemma GenerateExamples(builtIn: seq<string> -> Result<int>)
    ensures Run(["-d", "generate", "-a", "lib.dll"], builtIn)
      == Outcome(ExitCodeOf(builtIn(["-a", "lib.dll"])), true, false, Some(["-a", "lib.dll"]))
    ensures Run(["--verbose", "generate"], builtIn) == Outcome(1, false, true, Option.None)
  {
    var args := ["-d", "generate", "-a", "lib.dll"];
    assert IsVerbose(args[0]);
    assert args[1] == "generate" && args[1][0] == 'g';
    assert !StartsWith(args[1], "-") && !IsArg(HelpArg, args[1]) && !IsVerbose(args[1]);
    ScanEndIs(args, 1);
    assert args[2..] == ["-a", "lib.dll"];
    var other := ["--verbose", "generate"];
    assert !IsVerbose(other[0]) by {
      assert |other[0]| != |"--diagnostics"| && |other[0]| != |"-d"|;
    }
    assert !IsArg(HelpArg, other[0]) by {
      assert |other[0]| != |"--help"| && |other[0]| != |"-h"|;
    }
    assert StartsWith(other[0], "-");
    assert other[1] == "generate" && other[1][0] == 'g';
    assert !StartsWith(other[1], "-") && !IsArg(HelpArg, other[1]) && !IsVerbose(other[1]);
    ScanEndIs(other, 1);
  }
}
