/** The root-level generation of declarations: a property whose recursive type
    mapper records, as it goes, whether the property must be imported; the
    enum declaration; and the generic interface declaration built from a
    generic type definition. */
module RootGeneration {
  import opened Wrappers
  import opened Text
  import opened Host
  import opened TypeScriptUtils
  import opened Naming
  import opened Options
  import opened Render
  import opened Collections

  /** What one run of the mapper gives: the TypeScript text, and whether some
      branch stored a value into `IsImport` on the way. */
  datatype Mapping = Mapping(text: string, wrote: bool)

  /** The value every write of `IsImport` stores: the declaring type's namespace
      differs from the property type's and the property type is not a system
      type. When the namespaces differ and the property type has none,
      `IsSystemType` raises instead. */
  function ImportValue(m: Member): (r: Result<bool>)
    ensures r.Err? <==> m.declaringNs != m.memberType.ns && m.memberType.ns.None?
    ensures r.Ok? ==> (r.value <==>
      m.declaringNs != m.memberType.ns && m.memberType.ns.Some? && !IsSystemNamespace(m.memberType.ns.value))
  {
    if m.declaringNs == m.memberType.ns then Ok(false)
    else
      match IsSystemType(m.memberType)
      case Ok(isSystem) => Ok(!isSystem)
      case Err(f) => Err(f)
  }

  /** The dictionary key test: a type the table maps to "number" or "string". */
  predicate NumberOrString(t: HostType)
  {
    MapsTo(t, "number") || MapsTo(t, "string")
  }

  /** `MapTypeToTypeScriptType`, first matching rule wins; `v` is the value an
      `IsImport` write would store. Every exception inside one level (a
      missing generic argument, `IsSystemType` raising) is caught there and
      gives "any". */
  function MapText(t: HostType, v: Result<bool>): (r: Mapping)
    ensures r.wrote ==> v.Ok?
    decreases t
  {
    if Mapped(t) then Mapping(MappedName(t), false)
    else
      var gta := GenericTypeArguments(t);
      if t.dictionaryLike && |gta| == 2 then
        if NumberOrString(gta[0]) then
          var key := MapText(gta[0], v);
          var value := MapText(gta[1], v);
          Mapping("{ [key: " + key.text + "]: " + value.text + "; }", key.wrote || value.wrote)
        else Mapping("Object", false)
      else if t.enumerableLike && |gta| == 1 then
        var element := MapText(gta[0], v);
        Mapping(element.text + "[]", element.wrote)
      else if IsNullable(t) then
        if |gta| == 0 then Mapping("any", false) else MapText(gta[0], v)
      else if IsGenericType(t) then
        Mapping(GetNameWithoutGenericArity(t) + "<" + Join(",", ArgumentTexts(t, v)) + ">",
                exists i | 0 <= i < |t.typeArgs| :: MapText(t.typeArgs[i], v).wrote)
      else if IsClass(t) || IsEnum(t) then
        if v.Ok? then Mapping(t.name, true) else Mapping("any", false)
      else Mapping("any", false)
  }

  /** The mapped generic arguments, in order. */
  function ArgumentTexts(t: HostType, v: Result<bool>): (r: seq<string>)
    ensures |r| == |t.typeArgs|
    decreases t, 0
  {
    seq(|t.typeArgs|, i requires 0 <= i < |t.typeArgs| => MapText(t.typeArgs[i], v).text)
  }

  /** `IsImport` after construction: false unless some branch wrote it. */
  function ImportAfterMapping(m: Member): bool
  {
    var mapping := MapText(m.memberType, ImportValue(m));
    mapping.wrote && ImportValue(m).value
  }

  /** `IsReadonly`: `[Editable(false)]`, no public setter, or not writable. */
  predicate IsReadonlyMember(m: Member)
  {
    m.editableFalse || !m.hasPublicSetter || !m.canWrite
  }

  /** The member line a property built under `options` renders. */
  function PropertyLine(m: Member, options: Settings): string
  {
    MemberLine(IsReadonlyMember(m), FormatName(m.name, options.namingStrategy),
               IsNullable(m.memberType), MapText(m.memberType, ImportValue(m)).text)
  }

  /** The root-level `TypeScriptProperty`: its type text is computed once, at
      construction, and the mapper sets `IsImport` while it runs. */
  class RootProperty {
    const source: Member
    const options: Settings
    var tsType: string
    var isImport: bool

    constructor(source: Member, options: Settings)
      ensures this.source == source && this.options == options
      ensures tsType == MapText(source.memberType, ImportValue(source)).text
      ensures isImport == ImportAfterMapping(source)
    {
      this.source := source;
      this.options := options;
      tsType := "";
      isImport := false;
      new;
      tsType := MapTypeToTypeScriptType(source.memberType);
    }

    /** `Namespace`: the property type's namespace, converted; a type without
        one raises. */
    function Namespace(): (r: Result<string>)
      ensures r.Err? <==> source.memberType.ns.None?
      ensures r.Ok? ==> r.value == ToTypeScriptNamespace(source.memberType.ns.value)
    {
      ConvertedNamespace(source.memberType)
    }

    /** `ToTypeScriptString`. */
    function ToTypeScriptString(): string
      reads this
    {
      MemberLine(IsReadonlyMember(source), FormatName(source.name, options.namingStrategy),
                 IsNullable(source.memberType), tsType)
    }

    /** One level of the mapper; the recursion follows the type's arguments. */
    method MapTypeToTypeScriptType(t: HostType) returns (text: string)
      modifies this
      ensures text == MapText(t, ImportValue(source)).text
      ensures isImport == if MapText(t, ImportValue(source)).wrote then ImportValue(source).value else old(isImport)
      ensures tsType == old(tsType)
      decreases t, 1
    {
      var v := ImportValue(source);
      if Mapped(t) {
        return MappedName(t);
      }
      var gta := GenericTypeArguments(t);
      if t.dictionaryLike && |gta| == 2 {
        if NumberOrString(gta[0]) {
          var key := MapTypeToTypeScriptType(gta[0]);
          var value := MapTypeToTypeScriptType(gta[1]);
          return "{ [key: " + key + "]: " + value + "; }";
        }
        return "Object";
      }
      if t.enumerableLike && |gta| == 1 {
        var element := MapTypeToTypeScriptType(gta[0]);
        return element + "[]";
      }
      if IsNullable(t) {
        if |gta| == 0 {
          return "any";
        }
        text := MapTypeToTypeScriptType(gta[0]);
        return;
      }
      if IsGenericType(t) {
        var texts := MapArguments(t);
        return GetNameWithoutGenericArity(t) + "<" + Join(",", texts) + ">";
      }
      if IsClass(t) || IsEnum(t) {
        if v.Err? {
          return "any";
        }
        isImport := v.value;
        return t.name;
      }
      return "any";
    }

    /** `GenericTypeArguments.Select(MapTypeToTypeScriptType)`, in order. */
    method MapArguments(t: HostType) returns (texts: seq<string>)
      modifies this
      ensures texts == ArgumentTexts(t, ImportValue(source))
      ensures isImport == if exists k | 0 <= k < |t.typeArgs| :: MapText(t.typeArgs[k], ImportValue(source)).wrote
                          then ImportValue(source).value else old(isImport)
      ensures tsType == old(tsType)
      decreases t, 0
    {
      var v := ImportValue(source);
      texts := [];
      for i := 0 to |t.typeArgs|
        invariant texts == ArgumentTexts(t, v)[..i]
        invariant isImport == if exists k | 0 <= k < i :: MapText(t.typeArgs[k], v).wrote then v.value else old(isImport)
        invariant tsType == old(tsType)
      {
        var s := MapTypeToTypeScriptType(t.typeArgs[i]);
        texts := texts + [s];
      }
      assert texts == ArgumentTexts(t, v)[..|t.typeArgs|];
    }
  }

  /** The table is consulted first: a listed type gets its single table name
      and never touches `IsImport`, whatever else it is (a string is also an
      enumerable of characters). */
  lemma MappedTypesFirst(t: HostType, v: Result<bool>)
    requires Mapped(t)
    ensures MapText(t, v) == Mapping(TableName(t.builtin.value).value, false)
  {
  }

  /** `Nullable<X>` maps to exactly what `X` maps to; the optionality shows only
      as the member's "?". */
  lemma NullableMapsToArgument(t: HostType, v: Result<bool>)
    requires IsNullable(t) && !t.openDefinition && !Mapped(t)
    requires !t.dictionaryLike && !t.enumerableLike
    ensures MapText(t, v) == MapText(t.typeArgs[0], v)
  {
  }

  /** Whenever the mapper writes `IsImport` it stores the same value, so the
      final flag does not depend on how many branches wrote it. */
  lemma ImportIsPropertyWide(m: Member)
    ensures ImportAfterMapping(m) ==> ImportValue(m) == Ok(true)
    ensures ImportAfterMapping(m) ==> m.declaringNs != m.memberType.ns && !IsSystemNamespace(m.memberType.ns.value)
  {
  }

  /** A type description for the worked examples below. */
  function Simple(name: string, ns: string, kind: Kind, builtin: Option<Builtin>): HostType
  {
    HostType(name, Some(ns), kind, builtin, [], false, [], false, false, false, Option.None, [], [], false, [])
  }

  /** A closed generic type from "System.Collections.Generic". */
  function Constructed(name: string, args: seq<HostType>, dictionary: bool): HostType
  {
    HostType(name, Some("System.Collections.Generic"), Class, Option.None, args, false, [], false, dictionary, true,
             Option.None, [], [], false, [])
  }

  const Int32Type := Simple("Int32", "System", Struct, Some(Int))
  const StringType := Simple("String", "System", Class, Some(String))
  const ObjectType := Simple("Object", "System", Class, Some(Object))
  const T2Type := Simple("T2", "Typify.NET.Tests.Library", GenericParameter, Option.None)

  /** `Dictionary<string, int>`: a string key gives an index signature. */
  lemma DictionaryExample(v: Result<bool>)
    ensures MapText(Constructed("Dictionary`2", [StringType, Int32Type], true), v)
      == Mapping("{ [key: string]: number; }", false)
  {
    var t := Constructed("Dictionary`2", [StringType, Int32Type], true);
    assert GenericTypeArguments(t) == [StringType, Int32Type];
    assert NumberOrString(StringType);
    DictionaryText(t, v);
    MappedText(StringType, v);
    MappedText(Int32Type, v);
    assert "{ [key: " + "string" + "]: " + "number" + "; }" == "{ [key: string]: number; }";
  }

  /** A type the lookup lists is named by it. */
  lemma MappedText(t: HostType, v: Result<bool>)
    requires Mapped(t)
    ensures MapText(t, v) == Mapping(MappedName(t), false)
  {
  }

  /** A dictionary with a number or string key gives an index signature. */
  lemma DictionaryText(t: HostType, v: Result<bool>)
    requires !Mapped(t) && t.dictionaryLike && |GenericTypeArguments(t)| == 2
    requires NumberOrString(GenericTypeArguments(t)[0])
    ensures var key, value := MapText(GenericTypeArguments(t)[0], v), MapText(GenericTypeArguments(t)[1], v);
      MapText(t, v) == Mapping("{ [key: " + key.text + "]: " + value.text + "; }", key.wrote || value.wrote)
  {
  }

  /** `Dictionary<object, int>`: any other key gives "Object". */
  lemma ObjectKeyExample(v: Result<bool>)
    ensures MapText(Constructed("Dictionary`2", [ObjectType, Int32Type], true), v) == Mapping("Object", false)
  {
    var t := Constructed("Dictionary`2", [ObjectType, Int32Type], true);
    assert GenericTypeArguments(t) == [ObjectType, Int32Type];
    assert !NumberOrString(ObjectType);
  }

  /** `IEnumerable<T2>`: a generic parameter counts as a class, so the
      element is named as it is and `IsImport` is written. */
  lemma EnumerableOfParameterExample(v: Result<bool>)
    requires v.Ok?
    ensures MapText(Constructed("IEnumerable`1", [T2Type], false), v) == Mapping("T2[]", true)
  {
    var t := Constructed("IEnumerable`1", [T2Type], false);
    assert GenericTypeArguments(t) == [T2Type];
    assert MapText(T2Type, v) == Mapping("T2", true);
  }

  /** `List<List<int>>`: nested enumerables nest the brackets. */
  lemma NestedListExample(v: Result<bool>)
    ensures MapText(Constructed("List`1", [Constructed("List`1", [Int32Type], false)], false), v)
      == Mapping("number[][]", false)
  {
    var inner := Constructed("List`1", [Int32Type], false);
    var t := Constructed("List`1", [inner], false);
    assert GenericTypeArguments(inner) == [Int32Type];
    assert MapText(Int32Type, v) == Mapping("number", false);
    assert MapText(inner, v) == Mapping("number[]", false);
    assert GenericTypeArguments(t) == [inner];
  }

  /** `FormatEnumValue`: "Label = value". */
  function FormatEnumValue(constant: (string, int)): string
  {
    constant.0 + " = " + IntToString(constant.1)
  }

  function EnumEntries(constants: seq<(string, int)>): (r: seq<string>)
    ensures |r| == |constants|
  {
    seq(|constants|, i requires 0 <= i < |constants| => FormatEnumValue(constants[i]))
  }

  /** `ToTypeScriptString(n)` of an enum declaration. */
  function EnumToTypeScriptString(t: HostType, n: nat): string
  {
    Block(Tabs(n) + "export enum " + t.name + " {", Tabs(n) + "\t", ",", EnumEntries(t.enumConstants), Tabs(n) + "}")
  }

  lemma TabsNoNewline(n: nat)
    ensures '\n' !in Tabs(n) && '\n' !in Tabs(n) + "\t" && '\n' !in Tabs(n) + "}"
  {
  }

  /** An enum declaration reads back line by line: the header, one line per
      constant, in order, each "Label = value" with a comma after every one
      but the last, and the closing brace. */
  lemma EnumLines(t: HostType, n: nat)
    requires '\n' !in t.name
    requires forall k :: 0 <= k < |t.enumConstants| ==> '\n' !in t.enumConstants[k].0
    ensures var lines := Split(EnumToTypeScriptString(t, n), '\n');
      var m := |t.enumConstants|;
      && lines[0] == Tabs(n) + "export enum " + t.name + " {"
      && lines[|lines| - 1] == Tabs(n) + "}"
      && (m > 0 ==> |lines| == m + 2 && forall k :: 0 <= k < m ==>
            lines[k + 1] == Tabs(n) + "\t" + FormatEnumValue(t.enumConstants[k]) + (if k < m - 1 then "," else ""))
      && (m == 0 ==> lines == [Tabs(n) + "export enum " + t.name + " {", Tabs(n) + "\t", Tabs(n) + "}"])
  {
    var entries := EnumEntries(t.enumConstants);
    TabsNoNewline(n);
    forall k | 0 <= k < |entries| ensures '\n' !in entries[k] {
      IntToStringNoNewline(t.enumConstants[k].1);
    }
    BlockLines(Tabs(n) + "export enum " + t.name + " {", Tabs(n) + "\t", ",", entries, Tabs(n) + "}");
  }

  lemma {:induction false} IntToStringNoNewline(n: int)
    ensures '\n' !in IntToString(n)
    decreases if n < 0 then -n + 1 else n
  {
    if n < 0 {
      IntToStringNoNewline(-n);
    } else if n >= 10 {
      IntToStringNoNewline(n / 10);
    }
  }

  /** The two root-level interface declarations, each built from a type and
      options: `TypeScriptInterfaceDefinition<T>` (`generic` false) and
      `TypeScriptGenericInterfaceDefinition<T>` (`generic` true, where the
      type stands for the generic definition of `T`). */
  datatype InterfaceDefinition = InterfaceDefinition(source: HostType, options: Settings, generic: bool)

  /** Both constructors: `options ?? new TypifyOptions()`. */
  function NewInterfaceDefinition(source: HostType, options: Option<Settings>, generic: bool): (d: InterfaceDefinition)
    ensures d.source == source && d.generic == generic
    ensures options.None? ==> d.options == DefaultSettings
    ensures options.Some? ==> d.options == options.value
  {
    InterfaceDefinition(source, if options.None? then DefaultSettings else options.value, generic)
  }

  /** `Name`: the type's name, without its arity for the generic declaration. */
  function InterfaceName(d: InterfaceDefinition): (r: string)
    ensures !d.generic ==> r == d.source.name
    ensures d.generic ==> '`' !in r && |r| <= |d.source.name| && d.source.name[..|r|] == r
    ensures d.generic ==> ('`' in d.source.name <==> |r| < |d.source.name|)
  {
    if d.generic then GetNameWithoutGenericArity(d.source) else d.source.name
  }

  /** `GetGenericArgumentsString`: the parameter names joined by ",". */
  function GenericArgumentsString(t: HostType): string
  {
    Join(",", t.typeParams)
  }

  /** The parameter list splits back at its commas into the parameter names. */
  lemma GenericArgumentsReadBack(t: HostType)
    requires |t.typeParams| > 0
    requires forall i :: 0 <= i < |t.typeParams| ==> ',' !in t.typeParams[i]
    ensures Split(GenericArgumentsString(t), ',') == t.typeParams
  {
    JoinSplit(t.typeParams, ',');
  }

  lemma GenericClassParameters(t: HostType)
    requires t.typeParams == ["T", "T2"]
    ensures GenericArgumentsString(t) == "T,T2"
  {
    assert t.typeParams[1..] == ["T2"];
    assert Join(",", ["T2"]) == "T2";
    assert Join(",", t.typeParams) == "T" + "," + "T2";
  }

  /** The members of `Source`: the type's own, or for the generic
      declaration those of its generic definition. */
  function SourceMembers(d: InterfaceDefinition): seq<Member>
  {
    if d.generic then d.source.definitionMembers else d.source.members
  }

  /** `GetTypeScriptProperties`: the distinct public instance and static
      properties of `Source`, inherited instance ones included, each exactly
      once; an inherited static property is left out. */
  function InterfaceProperties(d: InterfaceDefinition): (r: seq<Member>)
    ensures forall m :: m in r ==> m in SourceMembers(d) && m.kind == Property && (m.declaredHere || !m.isStatic)
    ensures forall m :: m in SourceMembers(d) && m.kind == Property && (m.declaredHere || !m.isStatic) ==> m in r
    ensures NoDuplicates(r)
  {
    var ps := SelectMembers(SourceMembers(d), true, PropertyBindingFlags);
    DistinctByIdentity(ps);
    Distinct(ps, Identity)
  }

  /** The first line: the name, the parameter list of a generic declaration,
      and never an `extends`. */
  function InterfaceHeader(d: InterfaceDefinition, n: nat): string
  {
    Tabs(n) + "export interface " + InterfaceName(d)
      + (if d.generic then "<" + GenericArgumentsString(d.source) + ">" else "") + " {"
  }

  /** The lines of the members, one per distinct property. */
  function InterfaceMemberLines(d: InterfaceDefinition): (r: seq<string>)
    ensures |r| == |InterfaceProperties(d)|
  {
    var ps := InterfaceProperties(d);
    seq(|ps|, i requires 0 <= i < |ps| => PropertyLine(ps[i], d.options))
  }

  /** What `ToTypeScriptString(n)` renders. */
  function InterfaceRender(d: InterfaceDefinition, n: nat): string
  {
    Block(InterfaceHeader(d, n), Tabs(n) + "\t", "", InterfaceMemberLines(d), Tabs(n) + "}")
  }

  /** `ToTypeScriptString(n)`: a property object is built for each member and
      asked for its line. */
  method InterfaceToTypeScriptString(d: InterfaceDefinition, n: nat) returns (s: string)
    ensures s == InterfaceRender(d, n)
  {
    var ps := InterfaceProperties(d);
    var lines: seq<string> := [];
    for i := 0 to |ps|
      invariant lines == InterfaceMemberLines(d)[..i]
    {
      var p := new RootProperty(ps[i], d.options);
      lines := lines + [p.ToTypeScriptString()];
    }
    assert lines == InterfaceMemberLines(d);
    s := Block(InterfaceHeader(d, n), Tabs(n) + "\t", "", lines, Tabs(n) + "}");
  }

  /** The declaration reads back line by line as its header, one line per
      property, indented one tab deeper, and the closing brace. */
  lemma InterfaceLines(d: InterfaceDefinition, n: nat)
    requires '\n' !in InterfaceHeader(d, n)
    requires forall k :: 0 <= k < |InterfaceMemberLines(d)| ==> '\n' !in InterfaceMemberLines(d)[k]
    ensures var lines := Split(InterfaceRender(d, n), '\n');
      var members := InterfaceMemberLines(d);
      && lines[0] == InterfaceHeader(d, n)
      && lines[|lines| - 1] == Tabs(n) + "}"
      && (|members| > 0 ==> |lines| == |members| + 2 && forall k :: 0 <= k < |members| ==>
            lines[k + 1] == Tabs(n) + "\t" + members[k])
  {
    TabsNoNewline(n);
    BlockLinesPlain(InterfaceHeader(d, n), Tabs(n) + "\t", InterfaceMemberLines(d), Tabs(n) + "}");
  }

  /** Each member line reads back as the property's flags, its formatted name
      and its mapped type. */
  lemma PropertyLineReadsBack(m: Member, options: Settings)
    requires PlainName(FormatName(m.name, options.namingStrategy))
    ensures DecodeMemberLine(PropertyLine(m, options)) == Some((IsReadonlyMember(m),
      FormatName(m.name, options.namingStrategy), IsNullable(m.memberType), MapText(m.memberType, ImportValue(m)).text))
  {
    MemberLineRoundTrip(IsReadonlyMember(m), FormatName(m.name, options.namingStrategy),
      IsNullable(m.memberType), MapText(m.memberType, ImportValue(m)).text);
  }

  /** A nullable property reads back with the nullable flag set and the text
      of the type it wraps. */
  lemma NullablePropertyLine(m: Member, options: Settings)
    requires IsNullable(m.memberType) && !m.memberType.openDefinition && !Mapped(m.memberType)
    requires !m.memberType.dictionaryLike && !m.memberType.enumerableLike
    requires PlainName(FormatName(m.name, options.namingStrategy))
    ensures DecodeMemberLine(PropertyLine(m, options)) == Some((IsReadonlyMember(m),
      FormatName(m.name, options.namingStrategy), true, MapText(m.memberType.typeArgs[0], ImportValue(m)).text))
  {
    PropertyLineReadsBack(m, options);
    NullableMapsToArgument(m.memberType, ImportValue(m));
  }
}
