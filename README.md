# Typify, modelled in Dafny

Typify reads the types of a .NET assembly and writes a TypeScript
declaration file (`typified.d.ts`): an `export interface` for every class a
`[Typify]` attribute names, for the types its properties reach, and an
`export enum` for every enum, grouped into one `declare module` per
namespace. This project models the generator in both of its generations:

- the current library, `Typify.NET`;
- the first generation, `Typify`.

It also models the two command-line front ends, `typify` (with its
`generate` command) and `typify.cli`.

The modules follow the program:

- `Host` is the reflection view of .NET types, as a finite tree of type descriptions. Its members cover binding flags, generic arity, system types and `Nullable<>`.
- `TypeScriptUtils` holds the framework-type table and the namespace conversion.
- `Naming` holds `ToCamelCase`, `ToSnakeCase` and the capital-letter splitter.
- `Collections` holds `DistinctBy`, LINQ `Distinct`, `GroupBy` and the lazy append.
- `Platform` holds `Path.GetExtension`, `Path.IsPathRooted` and `Version.TryParse`.
- `Options` holds `TypifyOptions`.
- `Render` holds member lines and indented blocks, each with a decoder that reads the text back.
- `RootGeneration` holds the declarations the current `Typifier` instantiates: a property whose mapper sets `IsImport` as it recurses, the enum declaration and the generic interface declaration.
- `Models` holds the `Models` declarations and their factories.
- `Worklist` holds the growth of the list of types to declare.
- `Typifier` is the current pipeline: validation, collection, declaration, deduplication, imports and file text.
- `Legacy` is the first generation's `Typifier` with its own table, mapper, declarations and file text.
- `TypifyTool` covers `typify`'s argument scan and exit code.
- `TypifyCli` covers `typify.cli`.
- `GenerateCommand` covers the `generate` command's `Execute`.

Exceptions the source raises are the `Err` side of a `Result` (`Wrappers`).
Null namespaces are `Option.None`.
Reflection results are fields of `HostType` and `Member`.
Writing the file is left to the caller: the pipeline returns the file name and the text.

## Model

The first generation's `Typify/Utilities.cs` repeats the type lookup (lines 16-37), the namespace conversion (77-80), `DistinctBy` (82-93), the word splitter (95-103), `ToCamelCase` (39-54) and `ToSnakeCase` (56-69) unchanged. Each is modelled once, and its row below cites the current generation's copy.

| member | source | states |
|---|---|---|
| Host.SelectMembers | src/Typify.NET/Utils/TypeUtils.cs:8-9 | exactly the members of the requested kind whose static-ness the flags admit; with `DeclaredOnly` only declared ones, and without `FlattenHierarchy` no inherited static one |
| Host.BindingFlagsScope | src/Typify.NET/Utilities/TypeUtils.cs:8-9 | `MemberBindingFlags` lists only members declared on the type; `PropertyBindingFlags` lists every declared property and every inherited instance property, but no inherited static one (neither flag set has `FlattenHierarchy`) |
| Host.NameWithoutGenericArity | src/Typify.NET/Utils/TypeUtils.cs:11-16 | the result is the prefix of the name before its first backtick and holds no backtick; a name without one is unchanged |
| Host.NameWithoutGenericArityIdempotent | src/Typify.NET/Utils/TypeUtils.cs:11-16 | stripping the arity twice equals stripping it once |
| Host.NameWithoutGenericArityOfSuffixed | src/Typify.NET/Utilities/TypeUtils.cs:11-16 | whatever follows the first backtick is dropped |
| Host.GenericClassArity | src/Typify.NET/Utils/TypeUtils.cs:11-16 | "GenericClass`2" loses its arity |
| Host.IsSystemType | src/Typify.NET/Utils/TypeUtils.cs:18-21 | raises exactly when the namespace is null; otherwise true exactly for a system namespace |
| Host.SystemNamespaceShape | src/Typify.NET/Utilities/TypeUtils.cs:18-21 | a system namespace is "System" or starts with "System."; nothing else qualifies |
| Host.SystemNamespaceExamples | src/Typify.NET/Utils/TypeUtils.cs:18-21 | "System" and "System.Collections.Generic" qualify; "SystemX" and "Sys" do not |
| TypeScriptUtils.LookupName | src/Typify.NET/Utils/TypeScriptUtils.cs:28-31 | the lookup yields a name exactly when it contains the type, and that name is the first of its group |
| TypeScriptUtils.FlattenedTable | src/Typify.NET/Utils/TypeScriptUtils.cs:13-31 | the flattened dictionary is the listed (type, name) sequence, in dictionary order |
| TypeScriptUtils.FlattenedTableUnique | src/Typify.NET/Utils/TypeScriptUtils.cs:13-31 | no framework type is listed under two names |
| TypeScriptUtils.LookupSingleName | src/Typify.NET/Utils/TypeScriptUtils.cs:28-31 | every listed type has exactly one name, the table's; an unlisted type has none, so `First()` never fails on a contained type |
| TypeScriptUtils.LookupIsTable | src/Typify.NET/Utils/TypeScriptUtils.cs:11-32 | `Contains`, `First()` and the groups of "number"/"string" agree with reading the table directly |
| TypeScriptUtils.ToTypeScriptNamespace | src/Typify.NET/Utils/TypeScriptUtils.cs:34-37 | same length; every '.' becomes '-'; every other character is lower-cased; the result has no '.' and no upper-case letter |
| TypeScriptUtils.ConvertedNamespace | src/Typify.NET/TypeScriptEnumDefinition.cs:12 | a null namespace raises `NullReferenceException`; otherwise the converted namespace |
| TypeScriptUtils.ToTypeScriptNamespaceIdempotent | src/Typify.NET/Utils/TypeScriptUtils.cs:34-37 | converting a converted namespace changes nothing |
| TypeScriptUtils.NamespaceExample | src/Typify.NET/Utils/TypeScriptUtils.cs:34-37 | "Typify.NET.Tests" becomes "typify-net-tests" |
| Naming.SplitOnCapitalLetters | src/Typify.NET/Utilities/StringUtils.cs:39-47 | the split always yields at least one word |
| Naming.SplitSpec | src/Typify.NET/Utilities/StringUtils.cs:39-47 | the words are non-empty and concatenate back to the input; each later word starts where the pattern matches; no position inside a word matches |
| Naming.ToCamelCase | src/Typify.NET/Utilities/StringUtils.cs:7-22 | the word-by-word loop computes the camel-case text |
| Naming.CamelCaseSpec | src/Typify.NET/Utilities/StringUtils.cs:7-22 | same length as the input; the first word is lower-cased; each later word's first character is upper-cased; every other character is kept |
| Naming.ShortNamesUnchanged | src/Typify.NET/Utilities/StringUtils.cs:9-10 | names shorter than two characters pass through both conversions unchanged |
| Naming.ToSnakeCase | src/Typify.NET/Utilities/StringUtils.cs:24-37 | the in-place lower-casing loop and the join compute the snake-case text |
| Naming.SnakeCaseSpec | src/Typify.NET/Utilities/StringUtils.cs:24-37 | no upper-case letter; one "_" per word boundary; without the separators it is the lower-cased input |
| Naming.FormatName | src/Typify.NET/Models/TypeScriptProperty.cs:57-69 | camel or snake case by strategy; any other strategy keeps the name verbatim |
| Naming.NullableIntExample | src/Typify.NET/Utilities/StringUtils.cs:39-47 | "NullableInt" splits into "Nullable" and "Int", giving "nullableInt" and "nullable_int" |
| Collections.DistinctBy | src/Typify.NET/Utilities/EnumerableUtils.cs:8-19 | the seen-key loop yields the first element of each key, in order |
| Collections.DistinctSubsequence | src/Typify.NET/Utilities/EnumerableUtils.cs:8-19 | the output is a subsequence of the input, and each kept element is the first one with its key |
| Collections.DistinctKeySets | src/Typify.NET/Utilities/EnumerableUtils.cs:8-19 | output keys are pairwise distinct and are exactly the input keys |
| Collections.DistinctOfDistinctKeys | src/Typify.NET/Utilities/EnumerableUtils.cs:8-19 | an input with distinct keys comes back unchanged |
| Collections.DistinctIdempotent | src/Typify.NET/Utilities/EnumerableUtils.cs:8-19 | applying `DistinctBy` twice equals applying it once; empty input gives empty output |
| Collections.DistinctByIdentity | src/Typify.NET/Typifier.cs:77 | LINQ `Distinct()` keeps every element exactly once |
| Collections.GroupByShape | src/Typify.NET/Typifier.cs:35 | group keys are distinct and are exactly the input's keys; each group is non-empty and is exactly the input's elements of its key, in input order |
| Collections.GroupByOrder | src/Typify.NET/Typifier.cs:35 | groups come in the order their keys first occur: each group starts at the first element of its key, and those positions increase |
| Collections.WithKeySubsequence | src/Typify.NET/Typifier.cs:35 | a group's elements are taken from the input at exactly the positions holding its key, in increasing order |
| Collections.AppendAbsentSpec | src/Typify.NET/Typifier.cs:73 | the old list stays a prefix; nothing is duplicated; the result holds exactly the elements of both inputs |
| Platform.GetExtensionSpec | src/Typify.NET/Typifier.cs:194 | the extension is empty, or a '.' and at least one character ending the path with no '.' or '/' after it |
| Platform.ExtensionExamples | src/Typify.NET/Typifier.cs:153 | "typified.d.ts" gives ".ts"; "Entity.cs" gives ".cs"; "out.d/typings", "notes." and "" give "" |
| Platform.ParseVersion | src/Typify.NET/Typifier.cs:201 | a version has 2 to 4 components; build is -1 exactly with two components, revision -1 exactly with fewer than four |
| Platform.BelowTwoIffMajor | src/Typify.NET/Typifier.cs:200-201 | a parsed version is below 2.0 exactly when its major part is below 2 |
| Platform.DefaultVersionParses | src/Typify.NET/TypifyOptions.cs:21 | the default "2.2" parses as 2.2 |
| Platform.OldVersionParses | test/Typify.NET.Tests/TypifierUnitTests.cs:87 | "1.8" parses with major part 1 |
| Platform.NonVersionsFail | test/Typify.NET.Tests/TypifierUnitTests.cs:86 | "notaversionnumber" and "2" are not versions |
| Options.TypifyOptions.constructor | src/Typify.NET/TypifyOptions.cs:15-22 | camel case, one file, empty destination, empty assembly file, TypeScript "2.2" |
| Options.OrDefault | src/Typify.NET/Typifier.cs:18 | null options stand for fresh defaults; otherwise the object's current values |
| Render.MemberLineRoundTrip | src/Typify.NET/Models/TypeScriptProperty.cs:52-55 | every member line decodes to its read-only flag, name, nullable flag and type |
| Render.BlockLines | src/Typify.NET/TypeScriptEnumDefinition.cs:18-23 | a block splits into its header, one indented line per item (a suffix on all but the last) and the closing line |
| Render.BlockLinesPlain | src/Typify.NET/TypeScriptGenericInterfaceDefinition.cs:28-33 | with no suffix each item line is the indent then the item |
| RootGeneration.ImportValue | src/Typify.NET/TypeScriptProperty.cs:121-122 | `IsSystemType` raises exactly when the namespaces differ and the type has none; the flag is "namespaces differ and not a system type" |
| RootGeneration.ArgumentTexts | src/Typify.NET/TypeScriptProperty.cs:115 | one mapped text per generic argument |
| RootGeneration.RootProperty.constructor | src/Typify.NET/TypeScriptProperty.cs:36-41 | the type text is the mapper's text; `IsImport` is what the mapper wrote |
| RootGeneration.RootProperty.Namespace | src/Typify.NET/TypeScriptProperty.cs:20 | raises on a property type without a namespace; otherwise the converted namespace |
| RootGeneration.RootProperty.MapTypeToTypeScriptType | src/Typify.NET/TypeScriptProperty.cs:62-134 | the recursive method returns the mapping function's text and leaves `IsImport` as the function says |
| RootGeneration.RootProperty.MapArguments | src/Typify.NET/TypeScriptProperty.cs:115 | the generic arguments are mapped in order, giving the mapping function's argument texts; `IsImport` is written when any argument writes it |
| RootGeneration.MappedTypesFirst | src/Typify.NET/TypeScriptProperty.cs:67-70 | a table-listed type gets its table name and never writes `IsImport` |
| RootGeneration.NullableMapsToArgument | src/Typify.NET/TypeScriptProperty.cs:107-110 | `Nullable<X>` maps exactly as `X` does |
| RootGeneration.ImportIsPropertyWide | src/Typify.NET/TypeScriptProperty.cs:119-125 | a property ends up imported only when its namespace differs from the declaring type's and is not a system one |
| RootGeneration.DictionaryExample | src/Typify.NET/TypeScriptProperty.cs:79-91 | `Dictionary<string, int>` gives "{ [key: string]: number; }" |
| RootGeneration.ObjectKeyExample | src/Typify.NET/TypeScriptProperty.cs:92 | a dictionary with an `object` key gives "Object" |
| RootGeneration.EnumerableOfParameterExample | src/Typify.NET/TypeScriptProperty.cs:97-104 | `IEnumerable<T2>` gives "T2[]" and writes `IsImport` |
| RootGeneration.NestedListExample | src/Typify.NET/TypeScriptProperty.cs:97-104 | `List<List<int>>` gives "number[][]" |
| RootGeneration.EnumEntries | src/Typify.NET/TypeScriptEnumDefinition.cs:25-29 | one "Label = value" entry per constant |
| RootGeneration.EnumLines | src/Typify.NET/TypeScriptEnumDefinition.cs:18-29 | an enum splits into its header, one "Label = value" line per constant in order (a comma on all but the last), and the brace |
| RootGeneration.NewInterfaceDefinition | src/Typify.NET/TypeScriptGenericInterfaceDefinition.cs:23-26 | null options become fresh defaults |
| RootGeneration.InterfaceName | src/Typify.NET/TypeScriptGenericInterfaceDefinition.cs:17 | the generic declaration's name is the type name up to its arity, with no backtick; shorter exactly when there was an arity |
| RootGeneration.GenericArgumentsReadBack | src/Typify.NET/TypeScriptGenericInterfaceDefinition.cs:35-38 | the parameter list splits at its commas back into the parameter names |
| RootGeneration.GenericClassParameters | src/Typify.NET/TypeScriptGenericInterfaceDefinition.cs:35-38 | parameters T and T2 give "T,T2" |
| RootGeneration.InterfaceProperties | src/Typify.NET/TypeScriptGenericInterfaceDefinition.cs:40-44 | exactly the properties of the generic definition (`Source`, line 13), inherited instance ones included and inherited static ones left out, each once |
| RootGeneration.NullablePropertyLine | src/Typify.NET/TypeScriptProperty.cs:107-110 | a `Nullable<X>` property's line reads back as nullable, with the text `X` maps to as its type |
| RootGeneration.InterfaceToTypeScriptString | src/Typify.NET/TypeScriptGenericInterfaceDefinition.cs:28-33 | builds a property object per member and renders the block |
| RootGeneration.InterfaceLines | src/Typify.NET/TypeScriptGenericInterfaceDefinition.cs:28-33 | the declaration splits into its header, one line per property one tab deeper, and the brace |
| RootGeneration.PropertyLineReadsBack | src/Typify.NET/TypeScriptProperty.cs:43-46 | each member line decodes to the read-only flag, formatted name, nullable flag and mapped type |
| Models.NewProperty | src/Typify.NET/Models/TypeScriptProperty.cs:24-50 | other members raise `TypifyException`; a null namespace raises; otherwise formatted name, converted namespace, nullable flag, and read-only exactly for `[Editable(false)]` or a property without setter |
| Models.FieldReadonlyOnlyByAttribute | src/Typify.NET/Models/TypeScriptProperty.cs:49 | a field is read-only exactly when it carries `[Editable(false)]` |
| Models.PropertyLineReadsBack | src/Typify.NET/Models/TypeScriptProperty.cs:52-55 | the line decodes to the property's flags, name and type |
| Models.BuildFromMemberInfo | src/Typify.NET/TypeScriptPropertyFactory.cs:9-17 | fails exactly when the constructor does; imported exactly when the namespace differs and the type is neither listed nor a system type |
| Models.ImportsAreForeign | src/Typify.NET/TypeScriptPropertyFactory.cs:12-14 | listed types and same-namespace types are never imported; an import is never a system type |
| Models.BuildBaseClass | src/Typify.NET/TypeScriptBaseClassFactory.cs:9-26 | no base for a missing, listed or system type; else its name and converted namespace, imported exactly when the namespace differs |
| Models.DeclaredMembers | src/Typify.NET/Models/TypeScriptInterfaceDefinition.cs:41-47 | exactly the declared properties and fields; a prefix holds the properties, each once, and the rest the fields |
| Models.DeclaredMembersOrder | src/Typify.NET/Models/TypeScriptInterfaceDefinition.cs:44-46 | the distinct declared properties first, in declaration order, then the declared fields, in declaration order |
| Models.SelectedInOrder | src/Typify.NET/Models/TypeScriptInterfaceDefinition.cs:44-45 | the selected members keep their declaration order |
| Models.BuildAll | src/Typify.NET/Models/TypeScriptInterfaceDefinition.cs:46 | one factory-built property per member, in order; fails exactly when one member fails |
| Models.GetTypeScriptProperties | src/Typify.NET/Models/TypeScriptInterfaceDefinition.cs:41-47 | one property per declared member; the only failure is a null namespace |
| Models.NewInterfaceDefinition | src/Typify.NET/Models/TypeScriptInterfaceDefinition.cs:15-19 | namespace, base and properties are those the factories build |
| Models.DependencyTypes | src/Typify.NET/Models/TypeScriptInterfaceDefinition.cs:24-29 | exactly the types of the properties that pass the filter |
| Models.CreateInterface | src/Typify.NET/Models/TypeScriptInterfaceDefinition.cs:21-32 | the definition and its dependent types; fails exactly when the constructor fails |
| Models.CreateGeneric | src/Typify.NET/Models/TypeScriptGenericInterfaceDefinition.cs:15-33 | dependent types without repeats; the null base entry is present exactly when there is a base |
| Models.BuildFromType | src/Typify.NET/TypesScriptDefinitionFactory.cs:11-31 | an enum gets an enum definition with no dependents; a generic type the generic interface; other types the plain one |
| Models.BuildAllFactoryBuilt | src/Typify.NET/TypeScriptPropertyFactory.cs:9-17 | every built property satisfies the factory's import rule |
| Models.UserDependencies | src/Typify.NET/Models/TypeScriptInterfaceDefinition.cs:24-29 | no dependent type is listed or a system type |
| Models.DependenciesAreUserTypes | src/Typify.NET/TypesScriptDefinitionFactory.cs:11-31 | the factory never reports a listed or system type as a dependency |
| Models.InterfaceProperties | src/Typify.NET/Models/TypeScriptInterfaceDefinition.cs:41-47 | one property per declared member, in order; imports come from other namespaces |
| Models.DefinitionName | src/Typify.NET/Models/TypeScriptGenericInterfaceDefinition.cs:42-45 | the generic name is a prefix of the source name without backtick; others keep the source name |
| Models.PropertyLines | src/Typify.NET/Models/TypeScriptInterfaceDefinition.cs:38 | one line per property |
| Models.InterfaceLines | src/Typify.NET/Models/TypeScriptInterfaceDefinition.cs:34-39 | header, one property line per property one tab deeper, brace |
| Models.EnumRender | src/Typify.NET/Models/TypeScriptEnumDefinition.cs:18-34 | the `Models` enum renders exactly as the enum declaration the current `Typifier` uses |
| Models.EnumLines | src/Typify.NET/Models/TypeScriptEnumDefinition.cs:18-29 | header "export enum Name {", one "Label = value" line per constant in order with commas between, closing brace |
| Models.ObjectBaseNotExtended | src/Typify.NET/Models/TypeScriptInterfaceDefinition.cs:54-72 | a listed base type (such as `object`) gives no `extends` |
| Worklist.SearchAll | src/Typify.NET/Typifier.cs:77 | everything found was found by searching one of the inputs; when it succeeds, every input's search succeeded and everything that search found is in the result |
| Worklist.SearchAllStops | src/Typify.NET/Typifier.cs:77 | the first failing search fails the whole `SelectMany` |
| Worklist.GrowSpec | src/Typify.NET/Typifier.cs:66-80 | no repeats; the roots first, in first-seen order; every root is listed, and everything its search finds is too |
| Worklist.GrowFound | src/Typify.NET/Typifier.cs:77-78 | every non-root was found by searching a root |
| Worklist.GetTypesToTypify | src/Typify.NET/Typifier.cs:66-80 | the append loops and the search compute the grown list |
| Typifier.ValidateOptions | src/Typify.NET/Typifier.cs:188-206 | passes exactly for a non-empty assembly file, an extension of "" or ".ts", and a version of at least 2.0; otherwise the first failing check names its option |
| Typifier.DefaultOptionsValidation | src/Typify.NET/TypifyOptions.cs:15-22 | fresh options fail on the assembly file; with one set they pass |
| Typifier.RejectedOptions | test/Typify.NET.Tests/TypifierUnitTests.cs:63-106 | the destination "Entity.cs" and the versions "notaversionnumber" and "1.8" are rejected under their option names |
| Typifier.DefaultFileExtension | src/Typify.NET/Typifier.cs:161 | a path ending in "/typified.d.ts" has extension ".ts" |
| Typifier.DestinationIsTypeScriptFile | src/Typify.NET/Typifier.cs:144-170 | after validation the file written always has extension ".ts": the default name, the destination itself, or "typified.d.ts" inside it |
| Typifier.TypifiableMembers | src/Typify.NET/Typifier.cs:113-120 | exactly the members whose type is neither listed nor a system type; raises exactly when an unlisted type has no namespace |
| Typifier.PropertyTypesToTypify | src/Typify.NET/Typifier.cs:111-124 | everything found is worth declaring |
| Typifier.NestedPropertyTypes | src/Typify.NET/Typifier.cs:121 | everything found below the members is worth declaring |
| Typifier.PropertyTypesComplete | src/Typify.NET/Typifier.cs:111-124 | every typifiable declared property's type is found, its own search succeeds, and everything that search finds is found too |
| Typifier.NestedComplete | src/Typify.NET/Typifier.cs:121 | for each selected property, its type's search succeeds and all it finds is in the nested result |
| Typifier.PathTypesFound | src/Typify.NET/Typifier.cs:111-124 | the type at the end of any chain of typifiable declared properties is found, at any depth |
| Typifier.TypesToTypifySpec | src/Typify.NET/Typifier.cs:39-81 | no repeats; the roots come first; every other type is worth declaring; every type a root reaches through a chain of typifiable declared properties, at any depth, is listed |
| Typifier.GenerateDefinition | src/Typify.NET/Typifier.cs:83-109 | an enum gets the enum declaration; a generic type the generic one; other types the plain one; fails only for open generics and non-enum structs |
| Typifier.Declare | src/Typify.NET/Typifier.cs:26 | the declaration, its name and its converted namespace |
| Typifier.DeclareAll | src/Typify.NET/Typifier.cs:24-26 | one declaration per type, in order |
| Typifier.DeclareAllStops | src/Typify.NET/Typifier.cs:24-26 | the first failing type ends the run |
| Typifier.KeptAsWrittenKeepsRepeats | src/Typify.NET/Typifier.cs:27-29 | see Findings: two "GenericClass" declarations in one namespace are both kept |
| Typifier.KeptAsWrittenStep | src/Typify.NET/Typifier.cs:24-33 | a new declaration is dropped exactly when an earlier one is named after the namespace both share; otherwise it is appended |
| Typifier.KeptSelfNamed | src/Typify.NET/Typifier.cs:27-29 | the kept declarations hold one named after a namespace exactly when the input does |
| Typifier.KeptAsWrittenRule | src/Typify.NET/Typifier.cs:24-33 | the kept declarations are a subsequence of the input, and a position is kept exactly when no earlier declaration is named after its namespace |
| Typifier.KeptAsWrittenKeepsAll | src/Typify.NET/Typifier.cs:27-31 | when no declaration is named after its own namespace, every declaration is kept, in order |
| Typifier.KeptAsWrittenNamespaces | src/Typify.NET/Typifier.cs:24-35 | only input declarations are kept, and every namespace keeps at least one |
| Typifier.DeclareAndKeep | src/Typify.NET/Typifier.cs:24-33 | the loop fails with the first type that cannot be declared; otherwise it yields what the rule as written keeps of all the declarations |
| Typifier.KeptSpec | src/Typify.NET/Typifier.cs:24-33 | kept declarations are in order, unique by name and namespace, and cover every name and namespace |
| Typifier.KeptDropsRepeats | src/Typify.NET/Typifier.cs:24-33 | the corrected loop keeps only the first of two same-named declarations |
| Typifier.KeptNamespaces | src/Typify.NET/Typifier.cs:24-35 | the corrected loop loses no namespace |
| Typifier.InterfaceImports | src/Typify.NET/Typifier.cs:177-178 | each import is a property the mapper flagged, with its name, namespace and type text |
| Typifier.ImportGroupsSpec | src/Typify.NET/Typifier.cs:172-186 | one import line per namespace; each holds only that namespace's imports; every flagged property is imported |
| Typifier.ImportLinesRead | src/Typify.NET/Typifier.cs:182-185 | the imports read back as one line per namespace group, "\timport { T1, T2 } from 'ns';", in group order |
| Typifier.Renders | src/Typify.NET/Typifier.cs:133 | one rendering per declaration |
| Typifier.RenderAll | src/Typify.NET/Typifier.cs:133 | the loop renders every declaration at one tab |
| Typifier.WriteGroup | src/Typify.NET/Typifier.cs:131-133 | one module: imports, then declarations |
| Typifier.GroupTextRead | src/Typify.NET/Typifier.cs:131-133 | a module reads back as its header, its import lines, its declarations' lines and "}" |
| Typifier.WriteDefinitions | src/Typify.NET/Typifier.cs:126-142 | the accumulated text is the banner followed by every module in order |
| Typifier.ModulesRead | src/Typify.NET/Typifier.cs:129-134 | the modules read back as each module's lines, in group order |
| Typifier.FileRead | src/Typify.NET/Typifier.cs:128-134 | the file reads back as the three banner lines, each module's lines in order, and the empty piece after the final line break |
| Typifier.FileOutputSpec | src/Typify.NET/Typifier.cs:126-170 | a ".ts" path ("typified.d.ts" without destination); the banner first; one module per namespace, in first-met order, holding exactly that namespace's kept declarations in order; the text read line by line |
| Typifier.TypifyOutputSpec | src/Typify.NET/Typifier.cs:16-37 | a successful run writes that file for the declarations the loop as written keeps, with every namespace present |
| Typifier.TypifyOutputIntendedSpec | src/Typify.NET/Typifier.cs:16-37 | the corrected loop writes the same kind of file, and its declarations are unique by name and namespace |
| Typifier.Typify | src/Typify.NET/Typifier.cs:16-37 | the run, with the dedup loop as written, computes the pipeline's output from the options, or from defaults when they are null |
| Legacy.FlattenedLegacyTable | Typify/Typifier.cs:20-30 | the first generation's dictionary, flattened in order |
| Legacy.LegacyLookupSingleName | Typify/Typifier.cs:28-30 | each listed type has exactly its table name; others have none |
| Legacy.LegacyLookupIsTable | Typify/Typifier.cs:20-30 | `Contains` is reading the table |
| Legacy.LegacyTableIncluded | Typify/Typifier.cs:20-26 | every legacy entry is in the later table with the same name; byte and object are only in the later one |
| Legacy.LegacyMapType | Typify/Typifier.cs:103-153 | the only failure is an index out of range |
| Legacy.LegacyMapTypeTotal | Typify/Typifier.cs:130-133 | the mapper fails only on an open `Nullable<>` |
| Legacy.NestedListPrefix | Typify/Typifier.cs:122-129 | `n` nested lists of `int` give `n` bracket pairs then "number" |
| Legacy.ListTexts | Typify/Typifier.cs:122-129 | `List<int>` is "[]number" here and "number[]" in the current mapper |
| Legacy.LegacyDictionaries | Typify/Typifier.cs:107-121 | `Dictionary<string, int>` gives "[string]: number"; a `bool` key gives the class name |
| Legacy.LegacyScalars | Typify/Typifier.cs:130-152 | `bool`, `char` and enums give "any"; `int?` gives "number" |
| Legacy.LegacyPropertyLineReadsBack | Typify/TypeScriptProperty.cs:17-20 | the line decodes to read-only flag, name, nullable flag and type |
| Legacy.MapPropertyInfo | Typify/Typifier.cs:89-101 | fails exactly when the mapper fails; otherwise the raw name and the mapped type |
| Legacy.ReadonlyFromTypeAttribute | Typify/Typifier.cs:91-99 | read-only exactly when the property's type carries `[Editable(false)]`; the property's own attribute is ignored |
| Legacy.GenerateDefinition | Typify/Typifier.cs:74-87 | the raw name and namespace and exactly the type's properties, less inherited static ones |
| Legacy.InterfaceRender | Typify/TypeScriptInterfaceDefinition.cs:18-23 | fails exactly when some property's type cannot be mapped |
| Legacy.InterfaceLines | Typify/TypeScriptInterfaceDefinition.cs:18-23 | header, one property per line one tab deeper, brace; never an `extends` |
| Legacy.LegacyEnumEntries | Typify/TypeScriptEnumDefinition.cs:24-28 | one entry per constant |
| Legacy.LegacyEnumLines | Typify/TypeScriptEnumDefinition.cs:17-28 | header, "Label = v," for every constant in order (the last one too), brace |
| Legacy.LegacyEnumNamespace | Typify/TypeScriptEnumDefinition.cs:11 | a null namespace raises; otherwise same length, no '.', no upper case |
| Legacy.SelectedMembers | Typify/Typifier.cs:157-164 | exactly the members worth declaring; raises exactly when an unlisted type has no namespace |
| Legacy.LegacyPropertyTypes | Typify/Typifier.cs:155-168 | everything found is worth declaring |
| Legacy.NestedPropertyTypes | Typify/Typifier.cs:165 | everything found below the members is worth declaring |
| Legacy.LegacyPropertyTypesComplete | Typify/Typifier.cs:155-168 | every typifiable property's type is found, its own search succeeds, and everything that search finds is found too |
| Legacy.NestedComplete | Typify/Typifier.cs:165 | for each selected property, its type's search succeeds and all it finds is in the nested result |
| Legacy.PathTypesFound | Typify/Typifier.cs:155-168 | the type at the end of any chain of typifiable properties is found, at any depth |
| Legacy.LegacyTypesToTypifySpec | Typify/Typifier.cs:53-72 | no repeats; roots first; the others are worth declaring; every type a root reaches through a chain of typifiable properties is listed |
| Legacy.KeptAsWrittenKeepsRepeats | Typify/Typifier.cs:41-43 | see Findings: two "GenericClass`2" definitions in one namespace are both kept |
| Legacy.KeptAsWrittenStep | Typify/Typifier.cs:38-47 | a new definition is dropped exactly when an earlier one is named after the namespace both share; otherwise it is appended |
| Legacy.KeptSelfNamed | Typify/Typifier.cs:41-43 | the kept definitions hold one named after a namespace exactly when the input does |
| Legacy.KeptAsWrittenRule | Typify/Typifier.cs:38-47 | a subsequence of the input; a position is kept exactly when no earlier definition is named after its namespace |
| Legacy.KeptAsWrittenKeepsAll | Typify/Typifier.cs:41-45 | when no definition is named after its own namespace, every definition is kept, in order |
| Legacy.KeptAsWrittenNamespaces | Typify/Typifier.cs:38-49 | only input definitions are kept, and every namespace keeps at least one |
| Legacy.KeepDefinitions | Typify/Typifier.cs:36-47 | the loop keeps exactly what the rule as written keeps of the definitions |
| Legacy.KeptSpec | Typify/Typifier.cs:38-47 | kept definitions are unique by name and namespace and cover all of them |
| Legacy.KeptDropsRepeats | Typify/Typifier.cs:38-47 | the corrected loop keeps only the first |
| Legacy.KeptNamespaces | Typify/Typifier.cs:38-49 | the corrected loop loses no namespace |
| Legacy.FileStartsWithModule | Typify/Typifier.cs:172-177 | no banner: an empty file without definitions, otherwise it opens with `declare module "` |
| Legacy.WriteDefinitions | Typify/Typifier.cs:170-186 | the accumulated text is every module back to back |
| Legacy.LinesRead | Typify/Typifier.cs:173-178 | the text reads back as each module's header (the first at the start, the others right after the previous "}"), its definitions' lines, and the last "}" |
| Legacy.FileOutputSpec | Typify/Typifier.cs:170-186 | "typified.d.ts"; one module per namespace, in first-met order, holding exactly that namespace's kept definitions in order; the text read line by line |
| Legacy.FileOutputNeedsNamespaces | Typify/Typifier.cs:175 | a definition without a namespace makes the write fail |
| Legacy.TypifyOutputSpec | Typify/Typifier.cs:33-51 | a successful run writes that file for the definitions the loop as written keeps; a definition without a namespace fails the run |
| Legacy.TypifyOutputIntendedSpec | Typify/Typifier.cs:33-51 | the corrected loop writes the same kind of file, and its definitions are unique by name and namespace |
| Legacy.Typify | Typify/Typifier.cs:33-51 | the run, with the dedup loop as written, computes the pipeline's output |
| TypifyTool.IsArgForms | src/typify/AppArg.cs:15-19 | a match starts with "-" and the rest is the short name, or after "--" the long name; no names match nothing |
| TypifyTool.HelpArgForms | src/typify/Program.cs:19-23 | "-h" and "--help" match; "-help", "--h" and "help" do not |
| TypifyTool.ScanEnd | src/typify/Program.cs:48-71 | the scan stops at the first help flag or command, or at the end |
| TypifyTool.ScanEndIs | src/typify/Program.cs:48-71 | that stopping point is unique |
| TypifyTool.CommandName | src/typify/Program.cs:86-89 | the command name is never empty |
| TypifyTool.ProcessArgs | src/typify/Program.cs:39-108 | the loop with `break` computes the run's exit code, verbose setting, help output and invoked built-in |
| TypifyTool.HelpBeforeCommand | src/typify/Program.cs:55-59 | a help flag before the command returns 0 at once; nothing runs |
| TypifyTool.CommandTakesTheRest | src/typify/Program.cs:65-105 | the first non-option is the command; a built-in gets exactly the arguments after it and its exit code is the run's; other commands give 0 |
| TypifyTool.UnknownOptionFails | src/typify/Program.cs:60-77 | an unknown option prints help and gives 1 with nothing run, unless help is asked for before the command |
| TypifyTool.NoCommandSucceeds | src/typify/Program.cs:86-91 | with only `-d` flags the command is "help", which is no built-in: exit 0 |
| TypifyTool.GenerateExamples | src/typify/Program.cs:48-105 | `-d generate -a lib.dll` runs generate on `-a lib.dll`; `--verbose generate` fails with 1 |
| TypifyCli.IsArgAgrees | src/typify.cli/Program.cs:91-99 | the same test as the tool's `AppArg.IsArg`; the long-only form matches only "--name" |
| TypifyCli.ProcessArgs | src/typify.cli/Program.cs:30-89 | the loop computes the exit code, which starts at 1 |
| TypifyCli.ComparedWithTool | src/typify.cli/Program.cs:37-88 | both run the same built-in with the same arguments; only a missing or unknown command differs (1 here, 0 in the tool) |
| TypifyCli.NoCommandFails | src/typify.cli/Program.cs:76-85 | with only `-d` flags nothing runs and the exit code stays 1 |
| GenerateCommand.NamingStrategyOf | src/typify/commands/typify-generate/Program.cs:72-87 | accepts exactly camel/camelcase, snake/snakecase and none; anything else is the invalid-value error |
| GenerateCommand.NamingStrategyCaseSensitive | src/typify/commands/typify-generate/Program.cs:72-87 | "Camel", "CamelCase", "snake_case" and "None" are rejected |
| GenerateCommand.GeneratedSettings | src/typify/commands/typify-generate/Program.cs:44-68 | the assembly is required; each given option replaces its default; the version stays the default |
| GenerateCommand.ExecuteSpec | src/typify/commands/typify-generate/Program.cs:42-90 | success returns 0 and needs an assembly plus settings the generator accepts; no assembly fails before generation |
| GenerateCommand.Execute | src/typify/commands/typify-generate/Program.cs:42-90 | filling the options object field by field gives the same result as the settings function |

## Findings

| source | as written | input that shows it | evidently intended | confidence | as-written member | corrected member |
|---|---|---|---|---|---|---|
| src/Typify.NET/Typifier.cs:27-29 | a new definition is dropped when a kept one's `Name` equals the new one's `Namespace` in the same namespace | `GenericClass<int, string>` and `GenericClass<string, int>`: two declarations named "GenericClass" in "typify-net-tests-library" are both kept, so the module declares the interface twice | compare `Name` with `Name` and `Namespace` with `Namespace`, keeping the first | not executed | Typifier.KeptAsWrittenKeepsRepeats | Typifier.KeptDropsRepeats |
| Typify/Typifier.cs:41-43 | the same test compares `Name` with `Namespace` | two closed `GenericClass` types, both named "GenericClass`2" in "Typify.Test", are both kept | deduplicate by name and namespace | not executed | Legacy.KeptAsWrittenKeepsRepeats | Legacy.KeptDropsRepeats |

The pipelines (`Typifier.TypifyOutput`, `Legacy.TypifyOutput` and the two `Typify` methods) keep the test as written (`KeptAsWritten`). The corrected deduplication (`Typifier.Kept`, `Legacy.Kept`) drives `TypifyOutputIntended` in each module. `TypifyOutputIntendedSpec` proves the same file properties for it, and also that the kept declarations are unique by name and namespace.

## Left out

- Assembly loading, `GetTypes`, the `[Typify]` attribute scan and the `FileLoadException` fallback are left out. The pipeline takes the attribute types, in scanning order, as `roots`.
- Creating the file and its directory is left out. The pipeline returns the file name and the text.
- `Directory.GetCurrentDirectory()` is a parameter (`currentDirectory`).
- The test that expects a missing assembly file to be rejected is not modelled. The validator does not check that the file exists, and the failure happens at load time, which is outside the model.
- Reflection is a finite tree of type descriptions. A type that reaches itself through its properties cannot be described, so the non-terminating search the source would run on it is not modelled.
- `GetGenericTypeDefinition` is represented by two fields of a generic `HostType`: `typeParams`, the definition's parameter names, and `definitionMembers`, the definition's members. The definition is not a `HostType` of its own.
- `Activator.CreateInstance` with the `where T : class` and `struct` constraints is modelled as a failure for structs and open generics. No other reflection failure is modelled.
- `Models.NewProperty`: `ToTypeScriptType` is not part of this model. The property's TypeScript type reuses the current mapper's text.
- The `Models` declarations are modelled as values built eagerly. The source's `Properties` is a lazy LINQ query, so it fails later than the model does.
- `Legacy.InterfaceRender`: for the same reason, a legacy property whose type cannot be mapped fails when the definition is rendered, not when it is created.
- The legacy `TypeScriptDefinition` base type is not part of this model. Its interface layout stands in for it.
- The legacy generic definition (`Typify/TypeScriptGenericInterfaceDefinition.cs`) calls a `TypeScriptProperty` constructor that the legacy property does not declare. It is left out.
- `src/Typify.NET/TypeScriptInterfaceDefinition.cs` only throws `NotImplementedException`, so it is not modelled.
- `Typifier.ImportsOfMembers`: the import line (src/Typify.NET/Typifier.cs:185) reads `TypeScriptType`, which the current `TypeScriptProperty` does not declare. The model uses that property's mapped type text, `Type` (src/Typify.NET/TypeScriptProperty.cs:22,39), in its place.
- `Typifier.InterfaceImports`: for the same reason, each import's type text is the mapper's text for the property's type.
- `Platform.GetExtension` follows the Unix rules only: '/' is the only directory separator. Windows separators and drive letters are not modelled.
- `Platform.IsPathRooted` follows the Unix rule only: a rooted path starts with '/'.
- Enum constants carry `int` values (src/Typify.NET/TypeScriptEnumDefinition.cs:33, Typify/TypeScriptEnumDefinition.cs:32): an enum whose underlying type is not `int` (the unboxing cast throws whatever the values) is not modelled; `HostType` carries no underlying type.
- Typifier.Declare: converts the namespace as each type is declared. In src/Typify.NET/Typifier.cs the `Namespace` getter is lazy; the duplicate test (line 28) reads it for every definition but the first, which is read only by the grouping (line 35). When the first type has no namespace and a later type fails to declare, the model reports the missing namespace and the source the later failure; the run fails either way, and with every type declared both fail on the missing namespace.
- Case conversion is ASCII-only. Culture-sensitive `ToLower`/`ToUpper` and `StartsWith` are modelled as ordinal.
- `Platform.ParseVersion`: leading or trailing white space and signs, which `Version.TryParse` also accepts, are not modelled.
- Null strings (a null `Destination` or argument) are not modelled. Null namespaces are. Null options are modelled only where the source falls back to the defaults: `Typifier.Typify` (src/Typify.NET/Typifier.cs:18, through `Options.OrDefault`) and `RootGeneration.NewInterfaceDefinition` (src/Typify.NET/TypeScriptInterfaceDefinition`1.cs:25, src/Typify.NET/TypeScriptGenericInterfaceDefinition.cs:25). The `Models` property and definitions take non-null `Settings`; the source's `Models/TypeScriptProperty` constructor (src/Typify.NET/Models/TypeScriptProperty.cs:24-26) has no fallback, and a null options there raises when the type or name is formatted, which is not modelled.
- `HostType.editableFalse` may be set on any type, but `EditableAttribute` applies to properties and fields only, so no reflected type carries it. The first generation's `readonly` (Typify/Typifier.cs:91-99, `Legacy.ReadonlyFromTypeAttribute`) is therefore never written by the real program; the model admits inputs that would write it.
- `Typifier.Typify` takes a snapshot of the options object. Aliasing between the options and the caller is not modelled.
- `TypifyTool.ProcessArgs`: printing help, "Unknown option" and exception text is represented only by the `helpShown` flag. Setting the verbose environment variable is represented by `verboseSet`.
- `TypifyCli.ProcessArgs`: the "Unknown option", "Matched command" and "Returning exit code" output (src/typify.cli/Program.cs:53,83,87) is not modelled. Only the exit code and the built-in that runs are.
- `TypifyTool.ProcessArgs`: a `TypifyException` and any other exception from a built-in both give exit code 1, the first through `ProcessArgs` and the second through `Main`. The built-in is a parameter.
- The `CommandLineApplication` option parsing and `Run` of the `generate` command (src/typify/commands/typify-generate/Program.cs:14-40) are left out. `GenerateCommand` starts from the parsed values.
- The `typify.cli` `generate` stub and the MSBuild helpers are outside the core and are not modelled.
