/** The first generation of the generator: its own small table, a mapper
    that puts array brackets in front, properties read off the property's
    type, interfaces for every type, and modules without a banner. */
module Legacy {
  import opened Wrappers
  import opened Text
  import opened Host
  import opened TypeScriptUtils
  import opened Collections
  import opened Render
  import opened Worklist
  import opened RootGeneration

  /** The dictionary the generator's lookup is built from. */
  const LegacyTypeScriptToDotNet: seq<(string, seq<Builtin>)> := [
    ("number", [Int, Float, Decimal, Long]),
    ("string", [String, Char]),
    ("boolean", [Bool]),
    ("Date", [DateTime, DateTimeOffset])
  ]

  /** The name that dictionary gives each framework type. */
  function LegacyTableName(b: Builtin): Option<string>
  {
    match b
    case Int => Some("number") case Float => Some("number") case Decimal => Some("number")
    case Long => Some("number")
    case String => Some("string") case Char => Some("string")
    case Bool => Some("boolean")
    case DateTime => Some("Date") case DateTimeOffset => Some("Date")
    case _ => Option.None
  }

  lemma FlattenedLegacyTable()
    ensures Flatten(LegacyTypeScriptToDotNet) == [
      (Int, "number"), (Float, "number"), (Decimal, "number"), (Long, "number"),
      (String, "string"), (Char, "string"), (Bool, "boolean"),
      (DateTime, "Date"), (DateTimeOffset, "Date")]
  {
    var t := LegacyTypeScriptToDotNet;
    assert t[1..][1..][1..][1..] == [];
    assert Flatten(t[1..][1..][1..]) == [(DateTime, "Date"), (DateTimeOffset, "Date")];
    assert Flatten(t[1..][1..]) == [(Bool, "boolean"), (DateTime, "Date"), (DateTimeOffset, "Date")];
  }

  /** Where the flattened dictionary lists a framework type. */
  function LegacyTableIndex(b: Builtin): int
  {
    match b
    case Int => 0 case Float => 1 case Decimal => 2 case Long => 3
    case String => 4 case Char => 5 case Bool => 6
    case DateTime => 7 case DateTimeOffset => 8
    case _ => -1
  }

  lemma FlattenedLegacyTableUnique()
    ensures UniqueTypes(Flatten(LegacyTypeScriptToDotNet))
  {
    FlattenedLegacyTable();
    var f := Flatten(LegacyTypeScriptToDotNet);
    forall i, j | 0 <= i < j < |f| ensures f[i].0 != f[j].0 {
    }
  }

  lemma LegacyTableIndexPairs(b: Builtin)
    ensures LegacyTableName(b).Some? ==>
      0 <= LegacyTableIndex(b) < |Flatten(LegacyTypeScriptToDotNet)|
      && Flatten(LegacyTypeScriptToDotNet)[LegacyTableIndex(b)] == (b, LegacyTableName(b).value)
    ensures LegacyTableName(b).None? ==>
      forall i :: 0 <= i < |Flatten(LegacyTypeScriptToDotNet)| ==> Flatten(LegacyTypeScriptToDotNet)[i].0 != b
  {
    FlattenedLegacyTable();
  }

  lemma LegacyLookupAt(b: Builtin, i: int)
    requires 0 <= i < |Flatten(LegacyTypeScriptToDotNet)| && Flatten(LegacyTypeScriptToDotNet)[i].0 == b
    ensures LookupNames(LegacyTypeScriptToDotNet, b) == [Flatten(LegacyTypeScriptToDotNet)[i].1]
  {
    FlattenedLegacyTableUnique();
    NamesOfUnique(Flatten(LegacyTypeScriptToDotNet), b, i);
  }

  /** The lookup gives every listed type exactly one name, the one the
      dictionary pairs it with, and nothing to any other type. */
  lemma LegacyLookupSingleName(b: Builtin)
    ensures LegacyTableName(b).Some? ==> LookupNames(LegacyTypeScriptToDotNet, b) == [LegacyTableName(b).value]
    ensures LegacyTableName(b).None? ==> LookupNames(LegacyTypeScriptToDotNet, b) == []
  {
    LegacyTableIndexPairs(b);
    if LegacyTableName(b).Some? {
      LegacyLookupAt(b, LegacyTableIndex(b));
    } else {
      NamesOfAbsent(Flatten(LegacyTypeScriptToDotNet), b);
    }
  }

  /** `DotNetTypeToTypeScriptTypeLookup.Contains(t)`, read off the table. */
  predicate InLegacyLookup(t: HostType)
  {
    t.builtin.Some? && LegacyTableName(t.builtin.value).Some?
  }

  lemma LegacyLookupIsTable(t: HostType)
    ensures InLegacyLookup(t) <==> InLookup(LegacyTypeScriptToDotNet, t)
  {
    if t.builtin.Some? {
      LegacyLookupSingleName(t.builtin.value);
    }
  }

  /** Every type this dictionary lists is listed by the later table with the
      same name; the later table adds the small integers, `double`-free
      floating types and `object`. */
  lemma LegacyTableIncluded(b: Builtin)
    ensures LegacyTableName(b).Some? ==> TableName(b) == LegacyTableName(b)
    ensures TableName(Byte).Some? && LegacyTableName(Byte).None?
    ensures TableName(Object) == Some("any") && LegacyTableName(Object).None?
  {
  }

  /** The mapper's own `numberTypes`: int, float, decimal and long. */
  predicate IsNumberType(t: HostType)
  {
    t.builtin == Some(Int) || t.builtin == Some(Float) || t.builtin == Some(Decimal) || t.builtin == Some(Long)
  }

  predicate IsDateType(t: HostType)
  {
    t.builtin == Some(DateTime) || t.builtin == Some(DateTimeOffset)
  }

  /** `MapTypeToTypeScriptType` of the first generation: first matching rule
      wins and nothing is caught, so an open `Nullable<>` raises. */
  function LegacyMapType(t: HostType): (r: Result<string>)
    ensures r.Err? ==> r.fault == IndexOutOfRange
    decreases t
  {
    var gta := GenericTypeArguments(t);
    if t.dictionaryLike && |gta| == 2 && (IsNumberType(gta[0]) || gta[0].builtin == Some(String)) then
      var key :- LegacyMapType(gta[0]);
      var value :- LegacyMapType(gta[1]);
      Ok("[" + key + "]: " + value)
    else if t.enumerableLike && |gta| == 1 then
      var element :- LegacyMapType(gta[0]);
      Ok("[]" + element)
    else if IsNullable(t) then
      if |gta| == 0 then Err(IndexOutOfRange) else LegacyMapType(gta[0])
    else if IsNumberType(t) then Ok("number")
    else if t.builtin == Some(String) then Ok("string")
    else if IsDateType(t) then Ok("Date")
    else if IsClass(t) then Ok(t.name)
    else Ok("any")
  }

  /** An open `Nullable<>` somewhere in the type. */
  predicate HasOpenNullable(t: HostType)
  {
    (IsNullable(t) && t.openDefinition)
      || exists i :: 0 <= i < |t.typeArgs| && HasOpenNullable(t.typeArgs[i])
  }

  /** The mapper fails only on an open `Nullable<>`; everywhere else it gives
      a text. */
  lemma {:induction false} LegacyMapTypeTotal(t: HostType)
    requires !HasOpenNullable(t)
    ensures LegacyMapType(t).Ok?
    decreases t
  {
    var gta := GenericTypeArguments(t);
    forall i | 0 <= i < |gta| ensures LegacyMapType(gta[i]).Ok? {
      assert gta[i] == t.typeArgs[i];
      LegacyMapTypeTotal(gta[i]);
    }
  }

  /** An enumerable that is not a dictionary: brackets, then its element. */
  lemma LegacyEnumerableText(t: HostType)
    requires !t.dictionaryLike && t.enumerableLike && |GenericTypeArguments(t)| == 1
    ensures LegacyMapType(t) == (var e :- LegacyMapType(GenericTypeArguments(t)[0]); Ok("[]" + e))
  {
  }

  /** `List<...<List<E>>...>`, `n` levels deep. */
  function NestedList(n: nat, element: HostType): HostType
  {
    if n == 0 then element else Constructed("List`1", [NestedList(n - 1, element)], false)
  }

  function Brackets(n: nat): string
  {
    if n == 0 then "" else "[]" + Brackets(n - 1)
  }

  /** Brackets stack in front: `n` nested lists of `int` give `n` pairs of
      brackets, then "number". */
  lemma {:induction false} NestedListPrefix(n: nat)
    ensures LegacyMapType(NestedList(n, Int32Type)) == Ok(Brackets(n) + "number")
  {
    if n > 0 {
      NestedListPrefix(n - 1);
      var inner := NestedList(n - 1, Int32Type);
      var t := Constructed("List`1", [inner], false);
      assert NestedList(n, Int32Type) == t;
      assert GenericTypeArguments(t) == [inner];
      LegacyEnumerableText(t);
      assert "[]" + (Brackets(n - 1) + "number") == Brackets(n) + "number";
    } else {
      assert LegacyMapType(Int32Type) == Ok("number");
      assert Brackets(0) + "number" == "number";
    }
  }

  /** `List<int>`: the first generation writes "[]number", the later mapper
      "number[]". */
  lemma ListTexts(v: Result<bool>)
    ensures LegacyMapType(NestedList(1, Int32Type)) == Ok("[]number")
    ensures MapText(NestedList(1, Int32Type), v).text == "number[]"
  {
    NestedListPrefix(1);
    assert Brackets(1) == "[]";
    assert Brackets(1) + "number" == "[]number";
    var t := NestedList(1, Int32Type);
    assert GenericTypeArguments(t) == [Int32Type];
  }

  /** `Dictionary<string, int>` gives "[string]: number"; a `bool` key falls
      through every rule to the class name. */
  lemma LegacyDictionaries()
    ensures LegacyMapType(Constructed("Dictionary`2", [StringType, Int32Type], true)) == Ok("[string]: number")
    ensures LegacyMapType(Constructed("Dictionary`2", [Simple("Boolean", "System", Struct, Some(Bool)), Int32Type], true))
      == Ok("Dictionary`2")
  {
    var t := Constructed("Dictionary`2", [StringType, Int32Type], true);
    assert GenericTypeArguments(t) == [StringType, Int32Type];
    assert LegacyMapType(StringType) == Ok("string");
    assert LegacyMapType(Int32Type) == Ok("number");
    assert LegacyMapType(t) == Ok("[" + "string" + "]: " + "number");
    assert "[" + "string" + "]: " + "number" == "[string]: number";
    var u := Constructed("Dictionary`2", [Simple("Boolean", "System", Struct, Some(Bool)), Int32Type], true);
    assert GenericTypeArguments(u) == [Simple("Boolean", "System", Struct, Some(Bool)), Int32Type];
  }

  /** `bool`, `char` and enums are not classes and none of the rules names
      them: they give "any". `int?` gives "number". */
  lemma LegacyScalars()
    ensures LegacyMapType(Simple("Boolean", "System", Struct, Some(Bool))) == Ok("any")
    ensures LegacyMapType(Simple("Char", "System", Struct, Some(Char))) == Ok("any")
    ensures LegacyMapType(Simple("Color", "Typify.Test", Enum, Option.None)) == Ok("any")
    ensures LegacyMapType(HostType("Nullable`1", Some("System"), Struct, Option.None, [Int32Type], false, [],
      true, false, false, Option.None, [], [], false, [])) == Ok("number")
  {
    var t := HostType("Nullable`1", Some("System"), Struct, Option.None, [Int32Type], false, [],
      true, false, false, Option.None, [], [], false, []);
    assert GenericTypeArguments(t) == [Int32Type];
  }

  /** The first generation's `TypeScriptProperty`: a record of settable
      values. */
  datatype LegacyProperty = LegacyProperty(source: Member, name: string, tsType: string, isNullable: bool, isReadonly: bool)

  /** `ToTypescriptString`. */
  function LegacyPropertyLine(p: LegacyProperty): string
  {
    MemberLine(p.isReadonly, p.name, p.isNullable, p.tsType)
  }

  /** The line reads back as its four parts: "readonly " exactly when the
      property is readonly, "?" exactly when it is nullable, then the name
      and, after ": ", the type. */
  lemma LegacyPropertyLineReadsBack(p: LegacyProperty)
    requires PlainName(p.name)
    ensures DecodeMemberLine(LegacyPropertyLine(p)) == Some((p.isReadonly, p.name, p.isNullable, p.tsType))
  {
    MemberLineRoundTrip(p.isReadonly, p.name, p.isNullable, p.tsType);
  }

  /** `MapPropertyInfoToTypeScriptProperty`: the raw name, the mapped type,
      nullable for `Nullable<>`, readonly when the property's TYPE carries
      `[Editable(false)]`. */
  function MapPropertyInfo(m: Member): (r: Result<LegacyProperty>)
    ensures r.Err? <==> LegacyMapType(m.memberType).Err?
    ensures r.Ok? ==> r.value.source == m && r.value.name == m.name && LegacyMapType(m.memberType) == Ok(r.value.tsType)
  {
    var tsType :- LegacyMapType(m.memberType);
    Ok(LegacyProperty(m, m.name, tsType, IsNullable(m.memberType), m.memberType.editableFalse))
  }

  /** The attribute on the property itself changes nothing; only the one on
      its type makes it readonly. */
  lemma ReadonlyFromTypeAttribute(m: Member)
    requires MapPropertyInfo(m).Ok?
    ensures MapPropertyInfo(m).value.isReadonly <==> m.memberType.editableFalse
    ensures MapPropertyInfo(m).value.isNullable <==> IsNullable(m.memberType)
    ensures MapPropertyInfo(m.(editableFalse := !m.editableFalse)).value.isReadonly == MapPropertyInfo(m).value.isReadonly
  {
  }

  /** The first generation's interface definition: a record whose properties
      are a lazy projection, mapped each time they are read. */
  datatype LegacyInterface = LegacyInterface(source: HostType, name: string, namespace: Option<string>, properties: seq<Member>)

  /** `GenerateTypeScriptDefinition`: the raw name and namespace, and the
      public instance and static properties, inherited instance ones included;
      an inherited static property is left out. */
  function GenerateDefinition(t: HostType): (d: LegacyInterface)
    ensures d.name == t.name && d.namespace == t.ns
    ensures forall m :: m in d.properties <==> m in t.members && m.kind == Property && (m.declaredHere || !m.isStatic)
  {
    LegacyInterface(t, t.name, t.ns, GetProperties(t, PropertyBindingFlags))
  }

  function PropertyLineOf(m: Member): Result<string>
  {
    var p :- MapPropertyInfo(m);
    Ok(LegacyPropertyLine(p))
  }

  function InterfaceHeader(d: LegacyInterface, n: nat): string
  {
    Tabs(n) + "export interface " + d.name + " {"
  }

  /** `ToTypescriptString(n)`: the header, one property per line one tab
      deeper, the closing brace; the first property whose type cannot be
      mapped stops it. */
  function InterfaceRender(d: LegacyInterface, n: nat): (r: Result<string>)
    ensures r.Err? <==> exists k :: 0 <= k < |d.properties| && LegacyMapType(d.properties[k].memberType).Err?
  {
    var lines :- MapAll(d.properties, PropertyLineOf);
    Ok(Block(InterfaceHeader(d, n), Tabs(n) + "\t", "", lines, Tabs(n) + "}"))
  }

  lemma LineWithoutBreak(m: Member, line: string)
    requires '\n' !in m.name
    requires LegacyMapType(m.memberType).Ok? && '\n' !in LegacyMapType(m.memberType).value
    requires PropertyLineOf(m) == Ok(line)
    ensures '\n' !in line
  {
    var p := MapPropertyInfo(m).value;
    MemberLinePlain(p.isReadonly, p.name, p.isNullable, p.tsType);
  }

  /** Read line by line, the render is its header, each property at one tab
      deeper, in order, and the closing brace; there is never an `extends`. */
  lemma InterfaceLines(d: LegacyInterface, n: nat)
    requires InterfaceRender(d, n).Ok?
    requires '\n' !in d.name
    requires forall k :: 0 <= k < |d.properties| ==>
      '\n' !in d.properties[k].name && '\n' !in LegacyMapType(d.properties[k].memberType).value
    ensures var lines := Split(InterfaceRender(d, n).value, '\n');
      && lines[0] == Tabs(n) + "export interface " + d.name + " {"
      && lines[|lines| - 1] == Tabs(n) + "}"
      && (|d.properties| > 0 ==> |lines| == |d.properties| + 2 && forall k :: 0 <= k < |d.properties| ==>
            lines[k + 1] == Tabs(n) + "\t" + LegacyPropertyLine(MapPropertyInfo(d.properties[k]).value))
  {
    var items := MapAll(d.properties, PropertyLineOf).value;
    PropertyItems(d);
    InterfacePartsPlain(d, n);
    assert InterfaceRender(d, n).value == Block(InterfaceHeader(d, n), Tabs(n) + "\t", "", items, Tabs(n) + "}");
    BlockLinesPlain(InterfaceHeader(d, n), Tabs(n) + "\t", items, Tabs(n) + "}");
  }

  /** The header, the indent and the closing line hold no line break. */
  lemma InterfacePartsPlain(d: LegacyInterface, n: nat)
    requires '\n' !in d.name
    ensures '\n' !in InterfaceHeader(d, n) && '\n' !in Tabs(n) + "\t" && '\n' !in Tabs(n) + "}"
  {
    TabsNoNewline(n);
  }

  /** The property lines of a render that succeeds, one per property. */
  lemma PropertyItems(d: LegacyInterface)
    requires MapAll(d.properties, PropertyLineOf).Ok?
    requires forall k :: 0 <= k < |d.properties| ==>
      '\n' !in d.properties[k].name && '\n' !in LegacyMapType(d.properties[k].memberType).value
    ensures var items := MapAll(d.properties, PropertyLineOf).value;
      forall k :: 0 <= k < |items| ==> '\n' !in items[k] && items[k] == LegacyPropertyLine(MapPropertyInfo(d.properties[k]).value)
  {
    var items := MapAll(d.properties, PropertyLineOf).value;
    forall k | 0 <= k < |items|
      ensures '\n' !in items[k] && items[k] == LegacyPropertyLine(MapPropertyInfo(d.properties[k]).value)
    {
      assert PropertyLineOf(d.properties[k]) == Ok(items[k]);
      LineWithoutBreak(d.properties[k], items[k]);
    }
  }

  /** The enum declaration of the first generation: every entry, the last
      one included, carries its own comma. */
  function LegacyFormatEnumValue(constant: (string, int)): string
  {
    constant.0 + " = " + IntToString(constant.1) + ","
  }

  function LegacyEnumEntries(constants: seq<(string, int)>): (r: seq<string>)
    ensures |r| == |constants|
  {
    seq(|constants|, i requires 0 <= i < |constants| => LegacyFormatEnumValue(constants[i]))
  }

  /** `ToTypescriptString(n)` of the enum declaration: entries joined by a
      line break and the indent only. */
  function LegacyEnumRender(t: HostType, n: nat): string
  {
    Block(Tabs(n) + "export enum " + t.name + " {", Tabs(n) + "\t", "", LegacyEnumEntries(t.enumConstants), Tabs(n) + "}")
  }

  /** Read line by line: the header, one entry per constant in order, each
      "Label = v," with its comma, and the closing brace. */
  lemma LegacyEnumLines(t: HostType, n: nat)
    requires '\n' !in t.name
    requires forall k :: 0 <= k < |t.enumConstants| ==> '\n' !in t.enumConstants[k].0
    ensures var lines := Split(LegacyEnumRender(t, n), '\n');
      var m := |t.enumConstants|;
      && lines[0] == Tabs(n) + "export enum " + t.name + " {"
      && lines[|lines| - 1] == Tabs(n) + "}"
      && (m > 0 ==> |lines| == m + 2 && forall k :: 0 <= k < m ==>
            lines[k + 1] == Tabs(n) + "\t" + t.enumConstants[k].0 + " = " + IntToString(t.enumConstants[k].1) + ",")
  {
    var entries := LegacyEnumEntries(t.enumConstants);
    EnumEntriesPlain(t.enumConstants);
    EnumPartsPlain(t, n);
    BlockLinesPlain(Tabs(n) + "export enum " + t.name + " {", Tabs(n) + "\t", entries, Tabs(n) + "}");
    forall k | 0 <= k < |entries|
      ensures Tabs(n) + "\t" + entries[k]
        == Tabs(n) + "\t" + t.enumConstants[k].0 + " = " + IntToString(t.enumConstants[k].1) + ","
    {
      assert entries[k] == t.enumConstants[k].0 + " = " + IntToString(t.enumConstants[k].1) + ",";
    }
  }

  lemma EnumEntriesPlain(constants: seq<(string, int)>)
    requires forall k :: 0 <= k < |constants| ==> '\n' !in constants[k].0
    ensures forall k :: 0 <= k < |constants| ==> '\n' !in LegacyEnumEntries(constants)[k]
  {
    var entries := LegacyEnumEntries(constants);
    forall k | 0 <= k < |entries| ensures '\n' !in entries[k] {
      IntToStringNoNewline(constants[k].1);
      assert entries[k] == constants[k].0 + " = " + IntToString(constants[k].1) + ",";
    }
  }

  lemma EnumPartsPlain(t: HostType, n: nat)
    requires '\n' !in t.name
    ensures '\n' !in Tabs(n) + "export enum " + t.name + " {" && '\n' !in Tabs(n) + "\t" && '\n' !in Tabs(n) + "}"
  {
    TabsNoNewline(n);
  }

  /** `Namespace` of the enum declaration: the converted host namespace. */
  function LegacyEnumNamespace(t: HostType): (r: Result<string>)
    ensures r.Ok? ==> t.ns.Some? && '.' !in r.value && NoUpper(r.value) && |r.value| == |t.ns.value|
    ensures r.Err? <==> t.ns.None?
  {
    ConvertedNamespace(t)
  }

  /** A property type worth declaring for this generation. */
  predicate LegacyTypifiable(t: HostType)
  {
    !InLegacyLookup(t) && t.ns.Some? && !IsSystemNamespace(t.ns.value)
  }

  /** The filter of `GetPropertyTypes`: the lookup first, then the namespace
      tests, the second of which raises on a type without namespace. */
  function SelectedMembers(ms: seq<Member>): (r: Result<seq<Member>>)
    ensures r.Ok? ==> forall m :: m in r.value ==> m in ms && LegacyTypifiable(m.memberType)
    ensures r.Ok? ==> forall m :: m in ms && LegacyTypifiable(m.memberType) ==> m in r.value
    ensures r.Err? <==> exists m :: m in ms && !InLegacyLookup(m.memberType) && m.memberType.ns.None?
    ensures r.Err? ==> r.fault == NullReference
  {
    if |ms| == 0 then Ok([])
    else
      assert forall m :: m in ms <==> m == ms[0] || m in ms[1..];
      if InLegacyLookup(ms[0].memberType) then SelectedMembers(ms[1..])
      else
        var isSystem :- IsSystemType(ms[0].memberType);
        var rest :- SelectedMembers(ms[1..]);
        Ok(if isSystem then rest else [ms[0]] + rest)
  }

  /** `GetPropertyTypes`: the selected property types (inherited properties
      included), then, made distinct, what the same search finds in each. */
  function LegacyPropertyTypes(t: HostType): (r: Result<seq<HostType>>)
    ensures r.Ok? ==> forall u :: u in r.value ==> LegacyTypifiable(u)
    decreases t, 1
  {
    var ms :- SelectedMembers(GetProperties(t, PropertyBindingFlags));
    var nested :- NestedPropertyTypes(t, ms);
    DistinctElements(nested, Identity);
    Ok(MemberTypes(ms) + Distinct(nested, Identity))
  }

  function NestedPropertyTypes(t: HostType, ms: seq<Member>): (r: Result<seq<HostType>>)
    requires forall m :: m in ms ==> m in t.members
    ensures r.Ok? ==> forall u :: u in r.value ==> LegacyTypifiable(u)
    decreases t, 0, |ms|
  {
    if |ms| == 0 then Ok([])
    else
      assert ms[0] in t.members;
      var here :- LegacyPropertyTypes(ms[0].memberType);
      var rest :- NestedPropertyTypes(t, ms[1..]);
      Ok(here + rest)
  }

  /** Every selected property type is found, and so is everything the same
      search finds in it. */
  lemma LegacyPropertyTypesComplete(t: HostType)
    requires LegacyPropertyTypes(t).Ok?
    ensures forall m :: m in GetProperties(t, PropertyBindingFlags) && LegacyTypifiable(m.memberType) ==>
      && m.memberType in LegacyPropertyTypes(t).value
      && LegacyPropertyTypes(m.memberType).Ok?
      && forall u :: u in LegacyPropertyTypes(m.memberType).value ==> u in LegacyPropertyTypes(t).value
  {
    var ms := SelectedMembers(GetProperties(t, PropertyBindingFlags)).value;
    var nested := NestedPropertyTypes(t, ms).value;
    DistinctByIdentity(nested);
    forall m | m in GetProperties(t, PropertyBindingFlags) && LegacyTypifiable(m.memberType)
      ensures m.memberType in LegacyPropertyTypes(t).value
      ensures LegacyPropertyTypes(m.memberType).Ok?
      ensures forall u :: u in LegacyPropertyTypes(m.memberType).value ==> u in LegacyPropertyTypes(t).value
    {
      var i :| 0 <= i < |ms| && ms[i] == m;
      assert MemberTypes(ms)[i] == m.memberType;
      NestedComplete(t, ms, m);
    }
  }

  lemma {:induction false} NestedComplete(t: HostType, ms: seq<Member>, m: Member)
    requires forall x :: x in ms ==> x in t.members
    requires NestedPropertyTypes(t, ms).Ok? && m in ms
    ensures LegacyPropertyTypes(m.memberType).Ok?
    ensures forall u :: u in LegacyPropertyTypes(m.memberType).value ==> u in NestedPropertyTypes(t, ms).value
    decreases |ms|
  {
    assert ms[0] in ms && forall x :: x in ms[1..] ==> x in ms;
    var here, rest := LegacyPropertyTypes(ms[0].memberType), NestedPropertyTypes(t, ms[1..]);
    assert here.Ok? && rest.Ok? && NestedPropertyTypes(t, ms).value == here.value + rest.value;
    var found := here.value + rest.value;
    if ms[0] == m {
      assert forall u :: u in here.value ==> u in found;
    } else {
      assert ms == [ms[0]] + ms[1..];
      NestedComplete(t, ms[1..], m);
      assert forall u :: u in rest.value ==> u in found;
    }
  }

  /** `path` is a chain of selected properties starting at `t`: each one's
      type declares the next. */
  predicate PropertyPath(t: HostType, path: seq<Member>)
  {
    && |path| > 0
    && path[0] in GetProperties(t, PropertyBindingFlags) && LegacyTypifiable(path[0].memberType)
    && forall k :: 0 < k < |path| ==>
         path[k] in GetProperties(path[k - 1].memberType, PropertyBindingFlags) && LegacyTypifiable(path[k].memberType)
  }

  /** The search reaches through properties to any depth. */
  lemma {:induction false} PathTypesFound(t: HostType, path: seq<Member>)
    requires LegacyPropertyTypes(t).Ok? && PropertyPath(t, path)
    ensures path[|path| - 1].memberType in LegacyPropertyTypes(t).value
    decreases |path|
  {
    LegacyPropertyTypesComplete(t);
    if |path| > 1 {
      var next := path[0].memberType;
      assert PropertyPath(next, path[1..]) by {
        forall k | 0 < k < |path[1..]|
          ensures path[1..][k] in GetProperties(path[1..][k - 1].memberType, PropertyBindingFlags)
        {
          assert path[1..][k] == path[k + 1] && path[1..][k - 1] == path[k];
        }
      }
      PathTypesFound(next, path[1..]);
    }
  }

  /** `GetTypesToTypify`: `roots` are the attribute types in scanning order. */
  function LegacyTypesToTypify(roots: seq<HostType>): Result<seq<HostType>>
  {
    Grow(roots, LegacyPropertyTypes)
  }

  lemma LegacyTypesToTypifySpec(roots: seq<HostType>)
    requires LegacyTypesToTypify(roots).Ok?
    ensures var r := LegacyTypesToTypify(roots).value;
      && NoDuplicates(r)
      && (forall t :: t in roots ==> t in r)
      && (forall t :: t in r && t !in roots ==> LegacyTypifiable(t))
      && (forall t, path: seq<Member> :: t in roots && PropertyPath(t, path) ==> path[|path| - 1].memberType in r)
  {
    GrowSpec(roots, LegacyPropertyTypes);
    var r := LegacyTypesToTypify(roots).value;
    forall t | t in r && t !in roots ensures LegacyTypifiable(t) {
      GrowFound(roots, LegacyPropertyTypes, t);
    }
    forall t, path: seq<Member> | t in roots && PropertyPath(t, path) ensures path[|path| - 1].memberType in r {
      PathTypesFound(t, path);
    }
  }

  /** The loop's test as written: a kept definition whose `Name` equals the
      new one's `Namespace`, in the same namespace. */
  predicate ClashAsWritten(kept: seq<LegacyInterface>, d: LegacyInterface)
  {
    exists k :: 0 <= k < |kept| && Some(kept[k].name) == d.namespace && kept[k].namespace == d.namespace
  }

  function KeptAsWritten(ds: seq<LegacyInterface>): seq<LegacyInterface>
  {
    if |ds| == 0 then []
    else
      var kept := KeptAsWritten(ds[..|ds| - 1]);
      if ClashAsWritten(kept, ds[|ds| - 1]) then kept else kept + [ds[|ds| - 1]]
  }

  /** `GenericClass<int, string>` and `GenericClass<string, int>` both have
      the name "GenericClass`2" in "Typify.Test": both are kept as written. */
  lemma KeptAsWrittenKeepsRepeats(a: HostType, b: HostType)
    ensures var x := LegacyInterface(a, "GenericClass`2", Some("Typify.Test"), []);
      var y := LegacyInterface(b, "GenericClass`2", Some("Typify.Test"), []);
      KeptAsWritten([x, y]) == [x, y]
  {
    var x := LegacyInterface(a, "GenericClass`2", Some("Typify.Test"), []);
    var y := LegacyInterface(b, "GenericClass`2", Some("Typify.Test"), []);
    assert [x, y][..1] == [x];
    assert [x][..0] == [];
    assert !ClashAsWritten([], x);
    assert KeptAsWritten([x]) == [x];
    assert !ClashAsWritten([x], y) by {
      assert |"GenericClass`2"| != |"Typify.Test"|;
    }
  }

  lemma KeptAsWrittenSnoc(ds: seq<LegacyInterface>, d: LegacyInterface)
    ensures KeptAsWritten(ds + [d])
      == if ClashAsWritten(KeptAsWritten(ds), d) then KeptAsWritten(ds) else KeptAsWritten(ds) + [d]
  {
    assert (ds + [d])[..|ds|] == ds;
  }

  /** Some definition of `ds` is named after its own namespace `ns`. */
  predicate SelfNamedIn(ds: seq<LegacyInterface>, ns: Option<string>)
  {
    exists j :: 0 <= j < |ds| && Some(ds[j].name) == ns && ds[j].namespace == ns
  }

  lemma SelfNamedSnoc(ds: seq<LegacyInterface>, d: LegacyInterface, ns: Option<string>)
    ensures SelfNamedIn(ds + [d], ns) <==> SelfNamedIn(ds, ns) || (Some(d.name) == ns && d.namespace == ns)
  {
    var xs := ds + [d];
    if SelfNamedIn(ds, ns) {
      var j :| 0 <= j < |ds| && Some(ds[j].name) == ns && ds[j].namespace == ns;
      assert xs[j] == ds[j];
    }
    if SelfNamedIn(xs, ns) {
      var j :| 0 <= j < |xs| && Some(xs[j].name) == ns && xs[j].namespace == ns;
      if j < |ds| {
        assert xs[j] == ds[j];
      }
    }
    assert xs[|ds|] == d;
  }

  /** Keeping as written keeps a definition named after each namespace that
      has one. */
  lemma {:induction false} KeptSelfNamed(ds: seq<LegacyInterface>, ns: Option<string>)
    ensures SelfNamedIn(KeptAsWritten(ds), ns) <==> SelfNamedIn(ds, ns)
    decreases |ds|
  {
    if |ds| > 0 {
      var init, d := ds[..|ds| - 1], ds[|ds| - 1];
      KeptSelfNamed(init, ns);
      KeptSelfNamed(init, d.namespace);
      assert ds == init + [d];
      SelfNamedSnoc(init, d, ns);
      SelfNamedSnoc(KeptAsWritten(init), d, ns);
    }
  }

  /** The loop as written drops a definition exactly when an earlier one,
      kept or not, is named after the namespace both share. */
  lemma KeptAsWrittenStep(ds: seq<LegacyInterface>, d: LegacyInterface)
    ensures KeptAsWritten(ds + [d]) == if SelfNamedIn(ds, d.namespace) then KeptAsWritten(ds) else KeptAsWritten(ds) + [d]
  {
    KeptAsWrittenSnoc(ds, d);
    KeptSelfNamed(ds, d.namespace);
  }

  /** The rule of the loop as written: the kept definitions are picked out
      of `ds` in order, and position `p` is kept exactly when no earlier
      definition is named after the namespace of `ds[p]`. */
  lemma {:induction false} KeptAsWrittenRule(ds: seq<LegacyInterface>) returns (idx: seq<int>)
    ensures Embedding(KeptAsWritten(ds), ds, idx)
    ensures forall p :: 0 <= p < |ds| ==> (p in idx <==> !SelfNamedIn(ds[..p], ds[p].namespace))
    decreases |ds|
  {
    if |ds| == 0 {
      idx := [];
    } else {
      var init, d := ds[..|ds| - 1], ds[|ds| - 1];
      var pre := KeptAsWrittenRule(init);
      assert ds == init + [d];
      KeptAsWrittenStep(init, d);
      SnocEmbedding(KeptAsWritten(init), init, pre, d);
      idx := if SelfNamedIn(init, d.namespace) then pre else pre + [|init|];
      forall p | 0 <= p < |ds|
        ensures p in idx <==> !SelfNamedIn(ds[..p], ds[p].namespace)
      {
        if p < |init| {
          assert ds[..p] == init[..p] && ds[p] == init[p];
          assert p in idx <==> p in pre;
        } else {
          assert ds[..p] == init;
        }
      }
    }
  }

  /** When no definition is named after its own namespace, the loop as
      written keeps them all. */
  lemma {:induction false} KeptAsWrittenKeepsAll(ds: seq<LegacyInterface>)
    requires forall i :: 0 <= i < |ds| ==> Some(ds[i].name) != ds[i].namespace
    ensures KeptAsWritten(ds) == ds
    decreases |ds|
  {
    if |ds| > 0 {
      var init, d := ds[..|ds| - 1], ds[|ds| - 1];
      assert forall j :: 0 <= j < |init| ==> init[j] == ds[j];
      KeptAsWrittenKeepsAll(init);
      assert !SelfNamedIn(init, d.namespace) by {
        forall j | 0 <= j < |init| ensures !(Some(init[j].name) == d.namespace && init[j].namespace == d.namespace) {
          assert Some(ds[j].name) != ds[j].namespace;
        }
      }
      KeptAsWrittenStep(init, d);
      LastSplit(ds);
    }
  }

  /** The loop as written keeps definitions of `ds` only, and every
      namespace of `ds` still has one. */
  lemma {:induction false} KeptAsWrittenNamespaces(ds: seq<LegacyInterface>)
    ensures forall d :: d in KeptAsWritten(ds) ==> d in ds
    ensures KeySet(KeptAsWritten(ds), NamespaceOf) == KeySet(ds, NamespaceOf)
    decreases |ds|
  {
    if |ds| > 0 {
      var init, d := ds[..|ds| - 1], ds[|ds| - 1];
      KeptAsWrittenNamespaces(init);
      KeptAsWrittenStep(init, d);
      assert ds == init + [d];
      KeySetSnoc(init, d, NamespaceOf);
      var kept := KeptAsWritten(init);
      KeySetSnoc(kept, d, NamespaceOf);
      if SelfNamedIn(init, d.namespace) {
        KeptSelfNamed(init, d.namespace);
        var j :| 0 <= j < |kept| && Some(kept[j].name) == d.namespace && kept[j].namespace == d.namespace;
        assert NamespaceOf(kept[j]) == NamespaceOf(d);
      }
    }
  }

  function DefinitionKey(d: LegacyInterface): (string, Option<string>)
  {
    (d.name, d.namespace)
  }

  /** The dedup loop as intended: by name and namespace. */
  function Kept(ds: seq<LegacyInterface>): seq<LegacyInterface>
  {
    Distinct(ds, DefinitionKey)
  }

  lemma KeptSpec(ds: seq<LegacyInterface>)
    ensures DistinctKeys(Kept(ds), DefinitionKey)
    ensures KeySet(Kept(ds), DefinitionKey) == KeySet(ds, DefinitionKey)
    ensures forall d :: d in Kept(ds) ==> d in ds
  {
    DistinctKeySets(ds, DefinitionKey);
    DistinctElements(ds, DefinitionKey);
  }

  /** Some definition of `ds` has the name of `d` in its namespace. */
  predicate HasNameIn(ds: seq<LegacyInterface>, d: LegacyInterface)
  {
    exists k :: 0 <= k < |ds| && ds[k].name == d.name && ds[k].namespace == d.namespace
  }

  /** One more definition is kept exactly when no kept one already has its
      name in its namespace. */
  lemma KeptSnoc(ds: seq<LegacyInterface>, d: LegacyInterface)
    ensures HasNameIn(Kept(ds), d) ==> Kept(ds + [d]) == Kept(ds)
    ensures !HasNameIn(Kept(ds), d) ==> Kept(ds + [d]) == Kept(ds) + [d]
  {
    var xs := ds + [d];
    assert xs[..|xs| - 1] == ds && xs[|xs| - 1] == d;
    KeptSpec(ds);
    if HasNameIn(Kept(ds), d) {
      var k :| 0 <= k < |Kept(ds)| && Kept(ds)[k].name == d.name && Kept(ds)[k].namespace == d.namespace;
      assert Kept(ds)[k] in Kept(ds);
      assert DefinitionKey(d) in KeySet(ds, DefinitionKey);
    } else {
      assert DefinitionKey(d) !in KeySet(Kept(ds), DefinitionKey);
    }
  }

  lemma KeptDropsRepeats(a: HostType, b: HostType)
    ensures var x := LegacyInterface(a, "GenericClass`2", Some("Typify.Test"), []);
      var y := LegacyInterface(b, "GenericClass`2", Some("Typify.Test"), []);
      Kept([x, y]) == [x]
  {
    var x := LegacyInterface(a, "GenericClass`2", Some("Typify.Test"), []);
    var y := LegacyInterface(b, "GenericClass`2", Some("Typify.Test"), []);
    assert [x, y][..1] == [x];
    assert KeySet([], DefinitionKey) == {};
    assert [x][..|[x]| - 1] == [];
    assert Distinct([x], DefinitionKey) == [x];
    assert KeySet([x], DefinitionKey) == {DefinitionKey(x)};
  }

  function NamespaceOf(d: LegacyInterface): Option<string> { d.namespace }

  function RenderAtOne(d: LegacyInterface): Result<string>
  {
    InterfaceRender(d, 1)
  }

  /** One module: `declare module "ns"{`, the definitions at one tab joined by
      line breaks, then "\n}"; the key is converted first, and a missing
      namespace raises there. */
  function ModuleText(group: (Option<string>, seq<LegacyInterface>)): Result<string>
  {
    match group.0
    case None => Err(NullReference)
    case Some(key) =>
      var renders :- MapAll(group.1, RenderAtOne);
      Ok("declare module \"" + ToTypeScriptNamespace(key) + "\"{\n" + Join("\n", renders) + "\n}")
  }

  /** The first line of a module. */
  function ModuleHeader(key: string): string
  {
    "declare module \"" + ToTypeScriptNamespace(key) + "\"{"
  }

  /** The lines of a module's definitions, in order. */
  function BodyLines(renders: seq<string>): seq<string>
  {
    if |renders| == 0 then [""] else SplitEach(renders, '\n')
  }

  /** No line break in a group's namespace. */
  predicate PlainGroup(group: (Option<string>, seq<LegacyInterface>))
  {
    group.0.Some? ==> '\n' !in group.0.value
  }

  lemma ModuleTextShape(group: (Option<string>, seq<LegacyInterface>))
    requires ModuleText(group).Ok?
    ensures group.0.Some? && MapAll(group.1, RenderAtOne).Ok?
    ensures ModuleText(group).value
      == ModuleHeader(group.0.value) + ['\n'] + Join("\n", MapAll(group.1, RenderAtOne).value) + ['\n'] + "}"
  {
    assert "\"{\n" == "\"{" + ['\n'] && "\n}" == ['\n'] + "}";
  }

  /** The file, line by line, after `lead`: each module's header (the first
      one after `lead`, the others after the previous module's closing
      brace, since nothing separates modules), the lines of its definitions,
      and the last closing brace alone. */
  function FileLinesFrom(groups: seq<(Option<string>, seq<LegacyInterface>)>, lead: string): seq<string>
    requires forall i :: 0 <= i < |groups| ==> ModuleText(groups[i]).Ok?
    decreases |groups|
  {
    if |groups| == 0 then [lead]
    else
      ModuleTextShape(groups[0]);
      [lead + ModuleHeader(groups[0].0.value)] + BodyLines(MapAll(groups[0].1, RenderAtOne).value)
        + FileLinesFrom(groups[1..], "}")
  }

  lemma HeaderPlain(key: string)
    requires '\n' !in key
    ensures '\n' !in ModuleHeader(key)
  {
    var n := ToTypeScriptNamespace(key);
    forall i | 0 <= i < |n| ensures n[i] != '\n' {
      assert key[i] != '\n';
    }
  }

  lemma {:induction false} LinesRead(groups: seq<(Option<string>, seq<LegacyInterface>)>, texts: seq<string>, lead: string)
    requires |texts| == |groups| && forall i :: 0 <= i < |groups| ==> ModuleText(groups[i]) == Ok(texts[i])
    requires '\n' !in lead && forall i :: 0 <= i < |groups| ==> PlainGroup(groups[i])
    ensures Split(lead + Concat(texts), '\n') == FileLinesFrom(groups, lead)
    decreases |groups|
  {
    if |groups| == 0 {
      assert lead + Concat(texts) == lead;
      SplitWithoutSeparator(lead, '\n');
    } else {
      var g := groups[0];
      ModuleTextShape(g);
      var renders := MapAll(g.1, RenderAtOne).value;
      var joined := Join("\n", renders);
      HeaderPlain(g.0.value);
      LinesRead(groups[1..], texts[1..], "}");
      SplitLeadBlock(lead, ModuleHeader(g.0.value), joined, "}", Concat(texts[1..]), '\n');
      if |renders| > 0 {
        SplitJoinEach(renders, '\n');
      }
    }
  }

  /** The file's text: the modules back to back, with no banner and no
      separator. */
  function FileContents(groups: seq<(Option<string>, seq<LegacyInterface>)>): Result<string>
  {
    var texts :- MapAll(groups, ModuleText);
    Ok(Concat(texts))
  }

  /** With no definitions the file is empty; otherwise it opens with the
      first module's declaration, not a banner. */
  lemma FileStartsWithModule(groups: seq<(Option<string>, seq<LegacyInterface>)>)
    requires FileContents(groups).Ok?
    ensures |groups| == 0 ==> FileContents(groups).value == ""
    ensures |groups| > 0 ==> StartsWith(FileContents(groups).value, "declare module \"")
  {
    if |groups| > 0 {
      var texts := MapAll(groups, ModuleText).value;
      assert ModuleText(groups[0]) == Ok(texts[0]);
      ModuleTextPrefix(groups[0]);
      assert Concat(texts) == texts[0] + Concat(texts[1..]);
      PrefixOfConcat(texts[0], Concat(texts[1..]), "declare module \"");
    }
  }

  /** Every module declaration opens with `declare module "`. */
  lemma ModuleTextPrefix(group: (Option<string>, seq<LegacyInterface>))
    requires ModuleText(group).Ok?
    ensures StartsWith(ModuleText(group).value, "declare module \"")
  {
    var prefix := "declare module \"";
    var rest := ToTypeScriptNamespace(group.0.value) + "\"{\n" + Join("\n", MapAll(group.1, RenderAtOne).value) + "\n}";
    assert ModuleText(group).value == prefix + rest;
    assert (prefix + rest)[..|prefix|] == prefix;
  }

  lemma PrefixOfConcat(a: string, b: string, prefix: string)
    requires StartsWith(a, prefix)
    ensures StartsWith(a + b, prefix)
  {
    assert (a + b)[..|prefix|] == a[..|prefix|];
  }

  /** `WriteDefinitions`, up to the file: the text accumulated group by
      group. */
  method WriteDefinitions(groups: seq<(Option<string>, seq<LegacyInterface>)>) returns (r: Result<string>)
    ensures r == FileContents(groups)
  {
    var contents := "";
    ghost var texts: seq<string> := [];
    for i := 0 to |groups|
      invariant MapAll(groups[..i], ModuleText) == Ok(texts)
      invariant contents == Concat(texts)
    {
      assert groups[..i + 1][..i] == groups[..i];
      var text := ModuleText(groups[i]);
      if text.Err? {
        MapAllStops(groups, ModuleText, i + 1);
        return Err(text.fault);
      }
      ConcatAppend(texts, text.value);
      texts := texts + [text.value];
      contents := contents + text.value;
    }
    assert groups[..|groups|] == groups;
    return Ok(contents);
  }

  /** One interface definition per type to typify, in order. */
  function Definitions(types: seq<HostType>): (ds: seq<LegacyInterface>)
    ensures |ds| == |types|
  {
    seq(|types|, i requires 0 <= i < |types| => GenerateDefinition(types[i]))
  }

  lemma DefinitionsSnoc(types: seq<HostType>, i: nat)
    requires i < |types|
    ensures Definitions(types[..i + 1]) == Definitions(types[..i]) + [GenerateDefinition(types[i])]
  {
    var a, b := Definitions(types[..i + 1]), Definitions(types[..i]) + [GenerateDefinition(types[i])];
    assert forall k :: 0 <= k < |a| ==> a[k] == b[k];
  }

  /** What a written file promises about the `definitions` and the ones
      `kept` of them: the path "typified.d.ts"; one module per namespace of
      the definitions, each one present, in the order namespaces are first
      met among `kept`, each holding the kept definitions of its namespace in
      order; and, when no namespace holds a line break, the text read line
      by line. */
  predicate WritesFile(definitions: seq<LegacyInterface>, kept: seq<LegacyInterface>, out: (string, string))
  {
    var groups := GroupBy(kept, NamespaceOf);
    && out.0 == "typified.d.ts"
    && (forall d :: d in kept ==> d in definitions)
    && (forall i, j :: 0 <= i < j < |groups| ==> groups[i].0 != groups[j].0)
    && (set i | 0 <= i < |groups| :: groups[i].0) == KeySet(definitions, NamespaceOf)
    && (forall i :: 0 <= i < |groups| ==> groups[i].0.Some? && groups[i].1 == WithKey(kept, NamespaceOf, groups[i].0))
    && (forall i :: 0 <= i < |groups| ==> ModuleText(groups[i]).Ok?)
    && ((forall i :: 0 <= i < |groups| ==> PlainGroup(groups[i])) ==> Split(out.1, '\n') == FileLinesFrom(groups, ""))
  }

  /** The file written for the kept definitions. */
  function FileOutput(kept: seq<LegacyInterface>): Result<(string, string)>
  {
    var contents :- FileContents(GroupBy(kept, NamespaceOf));
    Ok(("typified.d.ts", contents))
  }

  lemma FileOutputSpec(definitions: seq<LegacyInterface>, kept: seq<LegacyInterface>)
    requires FileOutput(kept).Ok?
    requires forall d :: d in kept ==> d in definitions
    requires KeySet(kept, NamespaceOf) == KeySet(definitions, NamespaceOf)
    ensures WritesFile(definitions, kept, FileOutput(kept).value)
  {
    var groups := GroupBy(kept, NamespaceOf);
    var texts := MapAll(groups, ModuleText).value;
    GroupByShape(kept, NamespaceOf);
    forall i | 0 <= i < |groups| ensures groups[i].0.Some? {
      ModuleTextShape(groups[i]);
    }
    if forall i :: 0 <= i < |groups| ==> PlainGroup(groups[i]) {
      LinesRead(groups, texts, "");
      assert "" + Concat(texts) == Concat(texts);
    }
  }

  /** A file fails to be written when some definition has no namespace:
      its module's key is converted, and a missing one raises. */
  lemma FileOutputNeedsNamespaces(definitions: seq<LegacyInterface>, kept: seq<LegacyInterface>)
    requires KeySet(kept, NamespaceOf) == KeySet(definitions, NamespaceOf)
    requires exists d :: d in definitions && d.namespace.None?
    ensures FileOutput(kept).Err?
  {
    var groups := GroupBy(kept, NamespaceOf);
    GroupByShape(kept, NamespaceOf);
    var d :| d in definitions && d.namespace.None?;
    assert None in KeySet(definitions, NamespaceOf);
    var i :| 0 <= i < |groups| && groups[i].0 == None;
    assert ModuleText(groups[i]).Err?;
  }

  /** `Typify` of the first generation: the file "typified.d.ts" and its
      text, for the definitions the loop as written keeps. */
  function TypifyOutput(roots: seq<HostType>): Result<(string, string)>
  {
    var types :- LegacyTypesToTypify(roots);
    FileOutput(KeptAsWritten(Definitions(types)))
  }

  /** The same with the dedup loop as intended. */
  function TypifyOutputIntended(roots: seq<HostType>): Result<(string, string)>
  {
    var types :- LegacyTypesToTypify(roots);
    FileOutput(Kept(Definitions(types)))
  }

  /** A run that succeeds writes the file `WritesFile` describes; a run
      fails when a type to declare has no namespace. */
  lemma TypifyOutputSpec(roots: seq<HostType>)
    requires LegacyTypesToTypify(roots).Ok?
    ensures var definitions := Definitions(LegacyTypesToTypify(roots).value);
      && (TypifyOutput(roots).Ok? ==> WritesFile(definitions, KeptAsWritten(definitions), TypifyOutput(roots).value))
      && ((exists d :: d in definitions && d.namespace.None?) ==> TypifyOutput(roots).Err?)
  {
    var definitions := Definitions(LegacyTypesToTypify(roots).value);
    KeptAsWrittenNamespaces(definitions);
    if TypifyOutput(roots).Ok? {
      FileOutputSpec(definitions, KeptAsWritten(definitions));
    }
    if exists d :: d in definitions && d.namespace.None? {
      FileOutputNeedsNamespaces(definitions, KeptAsWritten(definitions));
    }
  }

  /** The same for the intended dedup, whose kept definitions moreover
      differ in name within each namespace. */
  lemma TypifyOutputIntendedSpec(roots: seq<HostType>)
    requires LegacyTypesToTypify(roots).Ok?
    ensures var definitions := Definitions(LegacyTypesToTypify(roots).value);
      && (TypifyOutputIntended(roots).Ok? ==> WritesFile(definitions, Kept(definitions), TypifyOutputIntended(roots).value))
      && ((exists d :: d in definitions && d.namespace.None?) ==> TypifyOutputIntended(roots).Err?)
      && DistinctKeys(Kept(definitions), DefinitionKey)
  {
    var definitions := Definitions(LegacyTypesToTypify(roots).value);
    KeptSpec(definitions);
    KeptNamespaces(definitions);
    if TypifyOutputIntended(roots).Ok? {
      FileOutputSpec(definitions, Kept(definitions));
    }
    if exists d :: d in definitions && d.namespace.None? {
      FileOutputNeedsNamespaces(definitions, Kept(definitions));
    }
  }

  /** Keeping the first definition of each name loses no namespace. */
  lemma KeptNamespaces(definitions: seq<LegacyInterface>)
    ensures KeySet(Kept(definitions), NamespaceOf) == KeySet(definitions, NamespaceOf)
  {
    var kept := Kept(definitions);
    DistinctElements(definitions, DefinitionKey);
    KeptSpec(definitions);
    forall x | x in KeySet(definitions, NamespaceOf) ensures x in KeySet(kept, NamespaceOf) {
      var d :| d in definitions && NamespaceOf(d) == x;
      assert DefinitionKey(d) in KeySet(kept, DefinitionKey);
      var e :| e in kept && DefinitionKey(e) == DefinitionKey(d);
    }
  }

  /** The loop of `Typify`: each type gets a definition in turn, kept unless
      the test as written finds a clash among those kept. */
  method KeepDefinitions(types: seq<HostType>) returns (kept: seq<LegacyInterface>)
    ensures kept == KeptAsWritten(Definitions(types))
  {
    ghost var definitions: seq<LegacyInterface> := [];
    kept := [];
    for i := 0 to |types|
      invariant definitions == Definitions(types[..i])
      invariant kept == KeptAsWritten(definitions)
    {
      var d := GenerateDefinition(types[i]);
      KeptAsWrittenSnoc(definitions, d);
      if !ClashAsWritten(kept, d) {
        kept := kept + [d];
      }
      DefinitionsSnoc(types, i);
      definitions := definitions + [d];
    }
    assert types[..|types|] == types;
  }

  method Typify(roots: seq<HostType>) returns (r: Result<(string, string)>)
    ensures r == TypifyOutput(roots)
  {
    var types := GetTypesToTypify(roots, LegacyPropertyTypes);
    if types.Err? {
      return Err(types.fault);
    }
    var kept := KeepDefinitions(types.value);
    var contents := WriteDefinitions(GroupBy(kept, NamespaceOf));
    if contents.Err? {
      return Err(contents.fault);
    }
    return Ok(("typified.d.ts", contents.value));
  }
}
