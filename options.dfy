/** The options record the generator runs under: a mutable object whose
    constructor sets the defaults and which the command line overwrites field
    by field. */
module Options {
  import opened Naming

  /** The values of the five settings at one moment. */
  datatype Settings = Settings(
    namingStrategy: NamingStrategy,
    oneFilePerNamespace: bool,
    destination: string,
    assemblyFile: string,
    targetTypeScriptVersion: string)

  /** The settings a fresh options object holds. */
  const DefaultSettings := Settings(CamelCase, false, "", "", "2.2")

  class TypifyOptions {
    var namingStrategy: NamingStrategy
    var oneFilePerNamespace: bool
    var destination: string
    var assemblyFile: string
    var targetTypeScriptVersion: string

    /** The current value of every setting. */
    function Snapshot(): Settings
      reads this
    {
      Settings(namingStrategy, oneFilePerNamespace, destination, assemblyFile, targetTypeScriptVersion)
    }

    /** Camel case, one file, no destination, no assembly file, TypeScript 2.2. */
    constructor()
      ensures Snapshot() == DefaultSettings
    {
      namingStrategy := CamelCase;
      oneFilePerNamespace := false;
      destination := "";
      assemblyFile := "";
      targetTypeScriptVersion := "2.2";
    }
  }

  /** `options ?? new TypifyOptions()`, as the settings it yields. */
  function OrDefault(options: TypifyOptions?): (s: Settings)
    reads options
    ensures options == null ==> s == DefaultSettings
    ensures options != null ==> s == options.Snapshot()
  {
    if options == null then DefaultSettings else options.Snapshot()
  }
}
