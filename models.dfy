/** The newest generation of declarations: a property built once from a
    reflected member, the base class an interface extends, and the enum,
    interface and generic interface declarations with the types they depend
    on, chosen by the definition factory. */
module Models {
  import opened Wrappers
  import opened Text
  import opened Host
  import opened TypeScriptUtils
  import opened Naming
  import opened Options
  import opened Render
  import opened Collections
  import RootGeneration

  /** `Type.ToTypeScriptType(version)`. Its definition is not part of this
      model: the root-level mapper's text stands in for it. */
  function ToTypeScriptType(t: HostType): string
  {
    RootGeneration.MapText(t, Ok(false)).text
  }

  /** A built property; `isImport` is the one field the factory overwrites. */
  datatype TypeScriptProperty = TypeScriptProperty(
    source: Member,
    memberType: HostType,
    name: string,
    namespace: string,
    tsType: string,
    isNullable: bool,
    isReadonly: bool,
    isImport: bool)

  /** The constructor. A property contributes its property type and a field
      its field type; any other member raises. The namespace conversion
      raises on a type without namespace. */
  function NewProperty(m: Member, options: Settings): (r: Result<TypeScriptProperty>)
    ensures m.kind.OtherMember? ==> r == Err(UnsupportedMember(m.kind.runtimeType))
    ensures !m.kind.OtherMember? ==> (r.Err? <==> m.memberType.ns.None?)
    ensures !m.kind.OtherMember? && r.Err? ==> r.fault == NullReference
    ensures r.Ok? ==>
      && r.value.source == m && r.value.memberType == m.memberType
      && r.value.name == FormatName(m.name, options.namingStrategy)
      && r.value.namespace == ToTypeScriptNamespace(m.memberType.ns.value)
      && r.value.tsType == ToTypeScriptType(m.memberType)
      && r.value.isNullable == IsNullable(m.memberType)
      && (r.value.isReadonly <==> m.editableFalse || (m.kind == Property && !m.hasPublicSetter))
      && !r.value.isImport
  {
    match m.kind
    case OtherMember(runtimeType) => Err(UnsupportedMember(runtimeType))
    case _ =>
      var t := m.memberType;
      var noSetMethod := m.kind == Property && !m.hasPublicSetter;
      var namespace :- ConvertedNamespace(t);
      Ok(TypeScriptProperty(m, t, FormatName(m.name, options.namingStrategy), namespace,
                            ToTypeScriptType(t), IsNullable(t), m.editableFalse || noSetMethod, false))
  }

  /** Without `[Editable(false)]` a field is never read-only, setter or not. */
  lemma FieldReadonlyOnlyByAttribute(m: Member, options: Settings)
    requires m.kind == Field
    requires NewProperty(m, options).Ok?
    ensures NewProperty(m, options).value.isReadonly <==> m.editableFalse
  {
  }

  /** `ToTypeScriptString`. */
  function PropertyToTypeScriptString(p: TypeScriptProperty): string
  {
    MemberLine(p.isReadonly, p.name, p.isNullable, p.tsType)
  }

  /** The line reads back as the property's flags, name and type. */
  lemma PropertyLineReadsBack(p: TypeScriptProperty)
    requires PlainName(p.name)
    ensures DecodeMemberLine(PropertyToTypeScriptString(p)) == Some((p.isReadonly, p.name, p.isNullable, p.tsType))
  {
    MemberLineRoundTrip(p.isReadonly, p.name, p.isNullable, p.tsType);
  }

  /** The system test on a built property's type, whose namespace is present. */
  predicate IsSystemProperty(p: TypeScriptProperty)
  {
    IsSystemType(p.memberType) == Ok(true)
  }

  /** `TypeScriptPropertyFactory.BuildFromMemberInfo`: builds the property,
      then sets `IsImport`: the (again converted) namespace differs from the
      declaring one and the type is neither in the table nor a system type. */
  function BuildFromMemberInfo(m: Member, sourceNamespace: string, options: Settings): (r: Result<TypeScriptProperty>)
    ensures r.Err? <==> NewProperty(m, options).Err?
    ensures r.Err? ==> r == NewProperty(m, options)
    ensures r.Ok? ==> r.value == NewProperty(m, options).value.(isImport := r.value.isImport)
    ensures r.Ok? ==> (r.value.isImport <==>
      r.value.namespace != sourceNamespace && !Mapped(m.memberType) && !IsSystemNamespace(m.memberType.ns.value))
  {
    var p :- NewProperty(m, options);
    ToTypeScriptNamespaceIdempotent(m.memberType.ns.value);
    // The namespace is present: the constructor converted it.
    if ToTypeScriptNamespace(p.namespace) == sourceNamespace || Mapped(p.memberType) then Ok(p.(isImport := false))
    else Ok(p.(isImport := !IsSystemNamespace(p.memberType.ns.value)))
  }

  /** A member whose type is in the table, or lives in the declaring
      namespace, or in a system namespace, is never imported; every import
      names a type with a namespace of its own. */
  lemma ImportsAreForeign(m: Member, sourceNamespace: string, options: Settings)
    requires BuildFromMemberInfo(m, sourceNamespace, options).Ok?
    ensures var p := BuildFromMemberInfo(m, sourceNamespace, options).value;
      && (Mapped(m.memberType) ==> !p.isImport)
      && (ToTypeScriptNamespace(m.memberType.ns.value) == sourceNamespace ==> !p.isImport)
      && (p.isImport ==> !IsSystemProperty(p) && p.namespace != sourceNamespace)
  {
  }

  /** `TypeScriptBaseClass`: the base type's raw name, its converted
      namespace, and whether it must be imported. Its `Type` is never set. */
  datatype TypeScriptBaseClass = TypeScriptBaseClass(tsType: string, namespace: string, isImport: bool)

  /** `TypeScriptBaseClassFactory.BuildFromType`, and the same code inlined
      as the interface's `GetBaseType`: nothing for a missing, table-listed or
      system base type. */
  function BuildBaseClass(baseType: Option<HostType>, superTypeNamespace: string): (r: Result<Option<TypeScriptBaseClass>>)
    ensures r.Err? <==> baseType.Some? && !Mapped(baseType.value) && baseType.value.ns.None?
    ensures r.Ok? && r.value.Some? <==>
      baseType.Some? && !Mapped(baseType.value) && baseType.value.ns.Some? && !IsSystemNamespace(baseType.value.ns.value)
    ensures r.Ok? && r.value.Some? ==>
      && r.value.value.tsType == baseType.value.name
      && r.value.value.namespace == ToTypeScriptNamespace(baseType.value.ns.value)
      && (r.value.value.isImport <==> r.value.value.namespace != superTypeNamespace)
  {
    if baseType.None? || Mapped(baseType.value) then Ok(Option.None)
    else
      match baseType.value.ns
      case None => Err(NullReference)
      case Some(ns) =>
        if IsSystemNamespace(ns) then Ok(Option.None)
        else
          var namespace := ToTypeScriptNamespace(ns);
          Ok(Some(TypeScriptBaseClass(baseType.value.name, namespace, namespace != superTypeNamespace)))
  }

  /** A declaration. Every one keeps its type, the raw `SourceName`, the
      converted `Namespace` and the options; an interface also keeps its base
      and properties, and `generic` marks the generic interface. */
  datatype Definition =
    | EnumDefinition(source: HostType, sourceName: string, namespace: string, options: Settings)
    | InterfaceDefinition(source: HostType, sourceName: string, namespace: string, options: Settings,
                          base: Option<TypeScriptBaseClass>, properties: seq<TypeScriptProperty>, generic: bool)

  /** The members an interface lists: its declared properties, made distinct,
      then its declared fields. */
  function DeclaredMembers(source: HostType): (r: seq<Member>)
    ensures forall m :: m in r ==> m in source.members && m.declaredHere && !m.kind.OtherMember?
    ensures forall m :: m in source.members && m.declaredHere && !m.kind.OtherMember? ==> m in r
    ensures exists k :: 0 <= k <= |r| && PropertiesThenFields(r, k)
  {
    var properties := GetProperties(source, MemberBindingFlags);
    DistinctByIdentity(properties);
    var ps, fs := Distinct(properties, Identity), GetFields(source, MemberBindingFlags);
    PropertiesThenFieldsJoin(ps, fs);
    ps + fs
  }

  /** Distinct properties followed by fields split at the end of the properties. */
  lemma PropertiesThenFieldsJoin(ps: seq<Member>, fs: seq<Member>)
    requires NoDuplicates(ps) && forall m :: m in ps ==> m.kind == Property
    requires forall m :: m in fs ==> m.kind == Field
    ensures PropertiesThenFields(ps + fs, |ps|)
  {
    assert (ps + fs)[..|ps|] == ps;
    assert forall i :: |ps| <= i < |ps + fs| ==> (ps + fs)[i] == fs[i - |ps|] && fs[i - |ps|] in fs;
  }

  /** The first `k` members are properties, each once; the rest are fields. */
  predicate PropertiesThenFields(r: seq<Member>, k: int)
    requires 0 <= k <= |r|
  {
    && NoDuplicates(r[..k])
    && (forall i :: 0 <= i < k ==> r[i].kind == Property)
    && (forall i :: k <= i < |r| ==> r[i].kind == Field)
  }

  lemma {:induction false} SelectedInOrder(ms: seq<Member>, property: bool, flags: BindingFlags) returns (idx: seq<int>)
    ensures Embedding(SelectMembers(ms, property, flags), ms, idx)
  {
    if |ms| == 0 {
      idx := [];
    } else {
      var tail := SelectMembers(ms[1..], property, flags);
      var rest := SelectedInOrder(ms[1..], property, flags);
      var shifted := ShiftedEmbedding(ms, tail, rest);
      if SelectMembers(ms, property, flags) == tail {
        idx := shifted;
      } else {
        ConsEmbedding(ms, tail, shifted);
        idx := [0] + shifted;
      }
    }
  }

  /** The declared properties come first, each once and in declaration order;
      the declared fields follow, in declaration order. */
  lemma DeclaredMembersOrder(source: HostType) returns (k: nat, propertyAt: seq<int>, fieldAt: seq<int>)
    ensures var r := DeclaredMembers(source);
      && k <= |r|
      && PropertiesThenFields(r, k)
      && (forall m :: m in r[..k] <==> m in source.members && m.declaredHere && m.kind == Property)
      && (forall m :: m in r[k..] <==> m in source.members && m.declaredHere && m.kind == Field)
      && Embedding(r[..k], source.members, propertyAt)
      && Embedding(r[k..], source.members, fieldAt)
  {
    var properties := GetProperties(source, MemberBindingFlags);
    var ps, fs := Distinct(properties, Identity), GetFields(source, MemberBindingFlags);
    var r := DeclaredMembers(source);
    assert r == ps + fs;
    k := |ps|;
    JoinParts(ps, fs);
    DistinctByIdentity(properties);
    PropertiesThenFieldsJoin(ps, fs);
    var distinctAt := DistinctSubsequence(properties, Identity);
    var selectedAt := SelectedInOrder(source.members, true, MemberBindingFlags);
    propertyAt := EmbeddingCompose(ps, properties, source.members, distinctAt, selectedAt);
    fieldAt := SelectedInOrder(source.members, false, MemberBindingFlags);
  }

  /** A concatenation splits back into its two parts. */
  lemma JoinParts<T>(xs: seq<T>, ys: seq<T>)
    ensures (xs + ys)[..|xs|] == xs && (xs + ys)[|xs|..] == ys
  {
  }

  /** Builds each member with the factory, in order; the first failure is the
      result. */
  function BuildAll(ms: seq<Member>, sourceNamespace: string, options: Settings): (r: Result<seq<TypeScriptProperty>>)
    ensures r.Ok? ==> |r.value| == |ms|
    ensures r.Ok? ==> forall i :: 0 <= i < |ms| ==> BuildFromMemberInfo(ms[i], sourceNamespace, options) == Ok(r.value[i])
    ensures r.Err? <==> exists i :: 0 <= i < |ms| && BuildFromMemberInfo(ms[i], sourceNamespace, options).Err?
  {
    if |ms| == 0 then Ok([])
    else
      var first :- BuildFromMemberInfo(ms[0], sourceNamespace, options);
      var rest :- BuildAll(ms[1..], sourceNamespace, options);
      assert forall i :: 1 <= i < |ms| ==> ms[i] == ms[1..][i - 1];
      Ok([first] + rest)
  }

  /** `GetTypeScriptProperties`. Only properties and fields are listed, so the
      only failure left is a member type without namespace. */
  function GetTypeScriptProperties(source: HostType, namespace: string, options: Settings): (r: Result<seq<TypeScriptProperty>>)
    ensures r.Ok? ==> |r.value| == |DeclaredMembers(source)|
    ensures r.Ok? ==> forall i :: 0 <= i < |r.value| ==>
      BuildFromMemberInfo(DeclaredMembers(source)[i], namespace, options) == Ok(r.value[i])
    ensures r.Err? ==> r.fault == NullReference
  {
    var ms := DeclaredMembers(source);
    var r := BuildAll(ms, namespace, options);
    if r.Err? then
      var i :| 0 <= i < |ms| && BuildFromMemberInfo(ms[i], namespace, options).Err?;
      assert ms[i] in ms;
      Err(NullReference)
    else r
  }

  /** The constructors of the interface declarations: the namespace, then the
      base, then the properties. */
  function NewInterfaceDefinition(source: HostType, options: Settings, generic: bool): (r: Result<Definition>)
    ensures r.Err? ==> r.fault == NullReference
    ensures r.Ok? ==>
      && r.value.InterfaceDefinition? && r.value.source == source && r.value.options == options
      && r.value.sourceName == source.name && r.value.generic == generic
      && ConvertedNamespace(source) == Ok(r.value.namespace)
      && BuildBaseClass(source.baseType, r.value.namespace) == Ok(r.value.base)
      && GetTypeScriptProperties(source, r.value.namespace, options) == Ok(r.value.properties)
  {
    var namespace :- ConvertedNamespace(source);
    var base :- BuildBaseClass(source.baseType, namespace);
    var properties :- GetTypeScriptProperties(source, namespace, options);
    Ok(InterfaceDefinition(source, source.name, namespace, options, base, properties, generic))
  }

  /** The filter of both `Create`s: an import, or a type that is neither a
      system type nor in the table. */
  predicate IsDependency(p: TypeScriptProperty)
  {
    p.isImport || !(IsSystemProperty(p) || Mapped(p.memberType))
  }

  /** The types of the properties that pass the filter, in order. */
  function DependencyTypes(ps: seq<TypeScriptProperty>): (r: seq<HostType>)
    ensures forall t :: t in r ==> exists p :: p in ps && IsDependency(p) && p.memberType == t
    ensures forall p :: p in ps && IsDependency(p) ==> p.memberType in r
  {
    if |ps| == 0 then []
    else (if IsDependency(ps[0]) then [ps[0].memberType] else []) + DependencyTypes(ps[1..])
  }

  /** What a `Create` returns: the declaration and its dependent types, where
      `None` is the null `Base.Type` the generic one adds. */
  datatype Created = Created(definition: Definition, dependentTypes: seq<Option<HostType>>)

  function Present(ts: seq<HostType>): (r: seq<Option<HostType>>)
    ensures |r| == |ts| && forall i :: 0 <= i < |ts| ==> r[i] == Some(ts[i])
    ensures forall o :: o in r <==> o.Some? && o.value in ts
  {
    var r := seq(|ts|, i requires 0 <= i < |ts| => Some(ts[i]));
    assert forall o :: o in r ==> o.Some? && o.value in ts;
    assert forall t :: t in ts ==> Some(t) in r by {
      forall t | t in ts ensures Some(t) in r {
        var i :| 0 <= i < |ts| && ts[i] == t;
        assert r[i] == Some(t);
      }
    }
    r
  }

  /** `TypeScriptInterfaceDefinition.Create`. */
  function CreateInterface(source: HostType, options: Settings): (r: Result<Created>)
    ensures r.Ok? ==> NewInterfaceDefinition(source, options, false) == Ok(r.value.definition)
    ensures r.Ok? ==> r.value.dependentTypes == Present(DependencyTypes(r.value.definition.properties))
    ensures r.Err? <==> NewInterfaceDefinition(source, options, false).Err?
  {
    var definition :- NewInterfaceDefinition(source, options, false);
    Ok(Created(definition, Present(DependencyTypes(definition.properties))))
  }

  /** The generic declaration's list before it is made distinct: the filtered
      types, then `Base.Type` (never set, so null) when there is a base. */
  function GenericDependencies(d: Definition): seq<Option<HostType>>
    requires d.InterfaceDefinition?
  {
    Present(DependencyTypes(d.properties)) + (if d.base.Some? then [Option.None] else [])
  }

  /** `TypeScriptGenericInterfaceDefinition.Create`: the list above, each
      entry once. */
  function CreateGeneric(source: HostType, options: Settings): (r: Result<Created>)
    ensures r.Ok? ==> NewInterfaceDefinition(source, options, true) == Ok(r.value.definition)
    ensures r.Ok? ==> NoDuplicates(r.value.dependentTypes)
    ensures r.Ok? ==> forall t :: t in r.value.dependentTypes <==> t in GenericDependencies(r.value.definition)
    ensures r.Ok? ==> (Option.None in r.value.dependentTypes <==> r.value.definition.base.Some?)
    ensures r.Err? <==> NewInterfaceDefinition(source, options, true).Err?
  {
    var definition :- NewInterfaceDefinition(source, options, true);
    var dependentTypes := GenericDependencies(definition);
    DistinctByIdentity(dependentTypes);
    Ok(Created(definition, Distinct(dependentTypes, Identity)))
  }

  /** `TypesScriptDefinitionFactory.BuildFromType`: an enum first, with no
      dependent types; then a generic type; then any other type. */
  function BuildFromType(source: HostType, options: Settings): (r: Result<Created>)
    ensures r.Ok? && IsEnum(source) ==> r.value.definition.EnumDefinition? && r.value.dependentTypes == []
    ensures r.Ok? && !IsEnum(source) ==>
      r.value.definition.InterfaceDefinition? && r.value.definition.generic == IsGenericType(source)
    ensures r.Ok? ==>
      && r.value.definition.source == source && r.value.definition.sourceName == source.name
      && ConvertedNamespace(source) == Ok(r.value.definition.namespace)
    ensures r.Err? ==> r.fault == NullReference
  {
    if IsEnum(source) then
      var namespace :- ConvertedNamespace(source);
      Ok(Created(EnumDefinition(source, source.name, namespace, options), []))
    else if IsGenericType(source) then CreateGeneric(source, options)
    else CreateInterface(source, options)
  }

  /** A property the factory built: its type has a namespace, and an import
      names a type that is neither in the table nor a system type. */
  predicate FactoryBuilt(p: TypeScriptProperty)
  {
    && p.memberType.ns.Some?
    && (p.isImport ==> !Mapped(p.memberType) && !IsSystemNamespace(p.memberType.ns.value))
  }

  lemma {:induction false} BuildAllFactoryBuilt(ms: seq<Member>, sourceNamespace: string, options: Settings)
    requires BuildAll(ms, sourceNamespace, options).Ok?
    ensures forall p :: p in BuildAll(ms, sourceNamespace, options).value ==> FactoryBuilt(p)
  {
    var ps := BuildAll(ms, sourceNamespace, options).value;
    forall p | p in ps ensures FactoryBuilt(p) {
      var i :| 0 <= i < |ps| && ps[i] == p;
      assert BuildFromMemberInfo(ms[i], sourceNamespace, options) == Ok(p);
    }
  }

  lemma {:induction false} UserDependencies(ps: seq<TypeScriptProperty>)
    requires forall p :: p in ps ==> FactoryBuilt(p)
    ensures forall t :: t in DependencyTypes(ps) ==> !Mapped(t) && t.ns.Some? && !IsSystemNamespace(t.ns.value)
  {
    if |ps| > 0 {
      UserDependencies(ps[1..]);
      assert ps[0] in ps;
    }
  }

  /** No dependent type of a built declaration is in the table or a system
      type: the filter's import case already excludes both. */
  lemma DependenciesAreUserTypes(source: HostType, options: Settings)
    requires BuildFromType(source, options).Ok?
    ensures forall t :: Some(t) in BuildFromType(source, options).value.dependentTypes ==>
      !Mapped(t) && t.ns.Some? && !IsSystemNamespace(t.ns.value)
  {
    var created := BuildFromType(source, options).value;
    if created.definition.InterfaceDefinition? {
      var d := created.definition;
      PropertiesFactoryBuilt(source, d.namespace, options);
      UserDependencies(d.properties);
      DependentTypesFiltered(source, options);
    }
  }

  /** The properties `GetTypeScriptProperties` gives are built by the factory. */
  lemma PropertiesFactoryBuilt(source: HostType, namespace: string, options: Settings)
    requires GetTypeScriptProperties(source, namespace, options).Ok?
    ensures forall p :: p in GetTypeScriptProperties(source, namespace, options).value ==> FactoryBuilt(p)
  {
    var ms := DeclaredMembers(source);
    assert BuildAll(ms, namespace, options) == GetTypeScriptProperties(source, namespace, options);
    BuildAllFactoryBuilt(ms, namespace, options);
  }

  /** Every present dependent type of a built interface is one of the
      types its properties pass the filter with. */
  lemma DependentTypesFiltered(source: HostType, options: Settings)
    requires BuildFromType(source, options).Ok?
    requires BuildFromType(source, options).value.definition.InterfaceDefinition?
    ensures var created := BuildFromType(source, options).value;
      forall t :: Some(t) in created.dependentTypes ==> t in DependencyTypes(created.definition.properties)
  {
    var created := BuildFromType(source, options).value;
    var d := created.definition;
    if d.generic {
      assert forall o :: o in created.dependentTypes ==> o in GenericDependencies(d);
    }
  }

  /** A built interface's properties are the declared members, in order, each
      with the declaration's own namespace as the one imports are measured
      against. */
  lemma InterfaceProperties(source: HostType, options: Settings, generic: bool)
    requires NewInterfaceDefinition(source, options, generic).Ok?
    ensures var d := NewInterfaceDefinition(source, options, generic).value;
      && |d.properties| == |DeclaredMembers(source)|
      && forall i :: 0 <= i < |d.properties| ==>
           d.properties[i].source == DeclaredMembers(source)[i]
           && (d.properties[i].isImport ==> d.properties[i].namespace != d.namespace)
  {
    var d := NewInterfaceDefinition(source, options, generic).value;
    forall i | 0 <= i < |d.properties|
      ensures d.properties[i].source == DeclaredMembers(source)[i]
      ensures d.properties[i].isImport ==> d.properties[i].namespace != d.namespace
    {
      var m := DeclaredMembers(source)[i];
      assert BuildFromMemberInfo(m, d.namespace, options) == Ok(d.properties[i]);
    }
  }

  /** `FormatName`: the raw source name, or without its arity for the generic
      declaration. */
  function DefinitionName(d: Definition): (r: string)
    ensures !(d.InterfaceDefinition? && d.generic) ==> r == d.sourceName
    ensures d.InterfaceDefinition? && d.generic ==> '`' !in r && |r| <= |d.sourceName| && d.sourceName[..|r|] == r
  {
    if d.InterfaceDefinition? && d.generic then NameWithoutGenericArity(d.sourceName) else d.sourceName
  }

  /** The first line of an interface: name, the parameter list when generic,
      and `extends` with the base's name exactly when there is a base. */
  function InterfaceHeader(d: Definition, n: nat): string
    requires d.InterfaceDefinition?
  {
    Tabs(n) + "export interface " + DefinitionName(d)
      + (if d.generic then "<" + RootGeneration.GenericArgumentsString(d.source) + ">" else "")
      + (if d.base.Some? then " extends " + d.base.value.tsType else "") + " {"
  }

  function PropertyLines(ps: seq<TypeScriptProperty>): (r: seq<string>)
    ensures |r| == |ps|
  {
    seq(|ps|, i requires 0 <= i < |ps| => PropertyToTypeScriptString(ps[i]))
  }

  /** `ToTypeScriptString(n)` of each declaration. */
  function DefinitionToTypeScriptString(d: Definition, n: nat): string
  {
    match d
    case EnumDefinition(source, _, _, _) =>
      Block(Tabs(n) + "export enum " + d.sourceName + " {", Tabs(n) + "\t", ",",
            RootGeneration.EnumEntries(source.enumConstants), Tabs(n) + "}")
    case InterfaceDefinition(_, _, _, _, _, properties, _) =>
      Block(InterfaceHeader(d, n), Tabs(n) + "\t", "", PropertyLines(properties), Tabs(n) + "}")
  }

  /** An enum definition made for a type renders exactly as the root
      generation renders that type. */
  lemma EnumRender(source: HostType, namespace: string, options: Settings, n: nat)
    ensures DefinitionToTypeScriptString(EnumDefinition(source, source.name, namespace, options), n)
      == RootGeneration.EnumToTypeScriptString(source, n)
  {
  }

  /** An enum definition reads back line by line: its header, one entry per
      constant (commas between), and the closing brace. */
  lemma EnumLines(d: Definition, n: nat)
    requires d.EnumDefinition? && '\n' !in d.sourceName
    requires forall k :: 0 <= k < |d.source.enumConstants| ==> '\n' !in d.source.enumConstants[k].0
    ensures var lines := Split(DefinitionToTypeScriptString(d, n), '\n');
      var cs := d.source.enumConstants;
      && lines[0] == Tabs(n) + "export enum " + d.sourceName + " {"
      && lines[|lines| - 1] == Tabs(n) + "}"
      && (|cs| > 0 ==> |lines| == |cs| + 2 && forall k :: 0 <= k < |cs| ==>
            lines[k + 1] == Tabs(n) + "\t" + RootGeneration.FormatEnumValue(cs[k]) + (if k < |cs| - 1 then "," else ""))
  {
    var entries := RootGeneration.EnumEntries(d.source.enumConstants);
    RootGeneration.TabsNoNewline(n);
    forall k | 0 <= k < |entries| ensures '\n' !in entries[k] {
      RootGeneration.IntToStringNoNewline(d.source.enumConstants[k].1);
    }
    BlockLines(Tabs(n) + "export enum " + d.sourceName + " {", Tabs(n) + "\t", ",", entries, Tabs(n) + "}");
  }

  /** An interface reads back line by line as its header, one line per
      property one tab deeper, in order, and the closing brace. */
  lemma InterfaceLines(d: Definition, n: nat)
    requires d.InterfaceDefinition?
    requires '\n' !in InterfaceHeader(d, n)
    requires forall k :: 0 <= k < |d.properties| ==> '\n' !in PropertyToTypeScriptString(d.properties[k])
    ensures var lines := Split(DefinitionToTypeScriptString(d, n), '\n');
      && lines[0] == InterfaceHeader(d, n)
      && lines[|lines| - 1] == Tabs(n) + "}"
      && (|d.properties| > 0 ==> |lines| == |d.properties| + 2 && forall k :: 0 <= k < |d.properties| ==>
            lines[k + 1] == Tabs(n) + "\t" + PropertyToTypeScriptString(d.properties[k]))
  {
    RootGeneration.TabsNoNewline(n);
    var members := PropertyLines(d.properties);
    assert forall k :: 0 <= k < |members| ==> members[k] == PropertyToTypeScriptString(d.properties[k]);
    BlockLinesPlain(InterfaceHeader(d, n), Tabs(n) + "\t", members, Tabs(n) + "}");
  }

  /** A type deriving from a table-listed base such as `object` gets no
      `extends`. */
  lemma ObjectBaseNotExtended(source: HostType, options: Settings, generic: bool)
    requires source.baseType.Some? && Mapped(source.baseType.value)
    requires NewInterfaceDefinition(source, options, generic).Ok?
    ensures NewInterfaceDefinition(source, options, generic).value.base.None?
  {
  }
}
