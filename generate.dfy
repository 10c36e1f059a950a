/** The `generate` command of the `typify` tool: it fills a fresh options
    object from the parsed command-line options and runs the generator. */
module GenerateCommand {
  import opened Wrappers
  import opened Host
  import opened Naming
  import opened Options
  import opened Typifier

  /** The values the command-line parser hands over: `--assembly`,
      `--naming-strategy`, `--multiple-files` and `--output`. */
  datatype GivenOptions = GivenOptions(
    assembly: Option<string>,
    namingStrategy: Option<string>,
    multipleFiles: bool,
    output: Option<string>)

  const InvalidNamingStrategy := Failure("Not a valid naming strategy value.")
  const AssemblyRequired := Failure("Assembly file required.")

  /** `MapStringToNamingStrategyOption`: exact, case-sensitive names. */
  function NamingStrategyOf(name: string): (r: Result<NamingStrategy>)
    ensures r.Ok? <==> name in {"camel", "camelcase", "snake", "snakecase", "none"}
    ensures r == Ok(CamelCase) <==> name == "camel" || name == "camelcase"
    ensures r == Ok(SnakeCase) <==> name == "snake" || name == "snakecase"
    ensures r == Ok(NamingStrategy.None) <==> name == "none"
    ensures r.Err? ==> r.fault == InvalidNamingStrategy
  {
    match name
    case "camel" => Ok(CamelCase)
    case "camelcase" => Ok(CamelCase)
    case "snake" => Ok(SnakeCase)
    case "snakecase" => Ok(SnakeCase)
    case "none" => Ok(NamingStrategy.None)
    case _ => Err(InvalidNamingStrategy)
  }

  /** Names are not case-folded and the generator's own spellings are not
      accepted. */
  lemma NamingStrategyCaseSensitive()
    ensures NamingStrategyOf("Camel").Err? && NamingStrategyOf("CamelCase").Err?
    ensures NamingStrategyOf("snake_case").Err? && NamingStrategyOf("None").Err?
  {
  }

  /** The settings `Execute` puts into the fresh options object: the
      assembly is required, the naming strategy is mapped when given, the
      flag sets one file per namespace, the output is the destination;
      everything else keeps the constructor's default. */
  function GeneratedSettings(given: GivenOptions): (r: Result<Settings>)
    ensures given.assembly.None? ==> r == Err(AssemblyRequired)
    ensures r.Err? <==> given.assembly.None? || (given.namingStrategy.Some? && NamingStrategyOf(given.namingStrategy.value).Err?)
    ensures r.Ok? ==>
      && r.value.assemblyFile == given.assembly.value
      && r.value.oneFilePerNamespace == given.multipleFiles
      && r.value.destination == (if given.output.Some? then given.output.value else DefaultSettings.destination)
      && r.value.namingStrategy == (if given.namingStrategy.Some? then NamingStrategyOf(given.namingStrategy.value).value
                                    else DefaultSettings.namingStrategy)
      && r.value.targetTypeScriptVersion == DefaultSettings.targetTypeScriptVersion
  {
    if given.assembly.None? then Err(AssemblyRequired)
    else
      var s := DefaultSettings.(assemblyFile := given.assembly.value);
      var s :- if given.namingStrategy.Some? then
        var strategy :- NamingStrategyOf(given.namingStrategy.value);
        Ok(s.(namingStrategy := strategy))
      else Ok(s);
      var s := if given.multipleFiles then s.(oneFilePerNamespace := true) else s;
      Ok(if given.output.Some? then s.(destination := given.output.value) else s)
  }

  /** `Execute`: 0 after a successful run; the generator's own failures and
      the two above are raised. */
  function ExecuteResult(given: GivenOptions, roots: seq<HostType>, currentDirectory: string): (r: Result<int>)
  {
    var s :- GeneratedSettings(given);
    var _ :- TypifyOutput(s, roots, currentDirectory);
    Ok(0)
  }

  /** A run succeeds only with an assembly named, a valid naming strategy
      if one was given, and settings the generator accepts; it then
      returns 0. Without an assembly the generator is never reached. */
  lemma ExecuteSpec(given: GivenOptions, roots: seq<HostType>, currentDirectory: string)
    ensures var r := ExecuteResult(given, roots, currentDirectory);
      && (r.Ok? ==> r.value == 0 && given.assembly.Some? && given.assembly.value != "")
      && (r.Ok? ==> ValidateOptions(GeneratedSettings(given).value).Ok?)
      && (given.assembly.None? ==> r == Err(AssemblyRequired))
  {
    var r := ExecuteResult(given, roots, currentDirectory);
    if r.Ok? {
      var s := GeneratedSettings(given).value;
      assert TypifyOutput(s, roots, currentDirectory).Ok?;
      assert ValidateOptions(s).Ok?;
    }
  }

  /** `Execute`, writing the options object field by field. */
  method Execute(given: GivenOptions, roots: seq<HostType>, currentDirectory: string) returns (r: Result<int>)
    ensures r == ExecuteResult(given, roots, currentDirectory)
  {
    var options := new TypifyOptions();
    if given.assembly.Some? {
      options.assemblyFile := given.assembly.value;
    } else {
      return Err(AssemblyRequired);
    }
    if given.namingStrategy.Some? {
      var strategy := NamingStrategyOf(given.namingStrategy.value);
      if strategy.Err? {
        return Err(strategy.fault);
      }
      options.namingStrategy := strategy.value;
    }
    if given.multipleFiles {
      options.oneFilePerNamespace := true;
    }
    if given.output.Some? {
      options.destination := given.output.value;
    }
    assert options.Snapshot() == GeneratedSettings(given).value;
    var result := Typify(options, roots, currentDirectory);
    if result.Err? {
      return Err(result.fault);
    }
    return Ok(0);
  }
}
