/** The host (.NET) type system, as the generator sees it through reflection:
    a finite tree of type descriptions, their members, and the small
    predicates over names and namespaces that every generation shares. */
module Host {
  import opened Wrappers
  import opened Text

  /** The well-known framework types the generator singles out. `Double` is
      one that none of the lookup tables lists. */
  datatype Builtin =
    | Int | Float | Decimal | Long | Byte | SByte | Short | UShort | UInt | ULong
    | String | Char | Bool | DateTime | DateTimeOffset | Object | Double

  datatype Kind = Class | Struct | Enum | Interface | GenericParameter

  /** Which reflection object a member description came from. */
  datatype MemberKind = Property | Field | OtherMember(runtimeType: string)

  /** A reflected type.
      - `typeArgs`: the generic arguments (`GetGenericArguments`); on an open
        generic definition these are its parameters;
      - `openDefinition`: the type is an open generic definition, whose
        `GenericTypeArguments` are therefore empty;
      - `typeParams`: names of the parameters of its generic definition;
      - `nullableWrapper`: the generic definition is `Nullable<>`;
      - `dictionaryLike` / `enumerableLike`: assignable to `IDictionary` / `IEnumerable`;
      - `members`: the public members, inherited ones with `declaredHere` false
        (static ones among them too, although no flag set below returns those);
      - `definitionMembers`: the public members of its generic type definition
        (`GetGenericTypeDefinition()`), whose types mention the parameters;
      - `editableFalse`: the type itself carries `[Editable(false)]`; the
        attribute is declared for properties and fields only, so no type
        reflection gives back has it set;
      - `enumConstants`: `Enum.GetNames` in order, each with its `int` value. */
  datatype HostType = HostType(
    name: string,
    ns: Option<string>,
    kind: Kind,
    builtin: Option<Builtin>,
    typeArgs: seq<HostType>,
    openDefinition: bool,
    typeParams: seq<string>,
    nullableWrapper: bool,
    dictionaryLike: bool,
    enumerableLike: bool,
    baseType: Option<HostType>,
    members: seq<Member>,
    definitionMembers: seq<Member>,
    editableFalse: bool,
    enumConstants: seq<(string, int)>)

  /** A reflected property or field. `declaringNs` is the namespace of its
      `DeclaringType`, `hasPublicSetter` is `GetSetMethod() != null`, `canWrite`
      is `CanWrite`, `editableFalse` is `[Editable(AllowEdit = false)]`,
      `isStatic` is `IsStatic` of its accessor or of the field. */
  datatype Member = Member(
    name: string,
    kind: MemberKind,
    memberType: HostType,
    declaringNs: Option<string>,
    hasPublicSetter: bool,
    canWrite: bool,
    editableFalse: bool,
    declaredHere: bool,
    isStatic: bool)

  /** `BindingFlags` restricted to the flags that decide which public members
      are listed. */
  datatype BindingFlags = BindingFlags(isPublic: bool, instance: bool, isStatic: bool,
                                       declaredOnly: bool, flattenHierarchy: bool)

  /** `TypeUtils.MemberBindingFlags`: public, instance, static, declared only. */
  const MemberBindingFlags := BindingFlags(true, true, true, true, false)

  /** `TypeUtils.PropertyBindingFlags`: public, instance, static. */
  const PropertyBindingFlags := BindingFlags(true, true, true, false, false)

  /** Reflection's rule for a public member: `Instance` or `Static` must match
      it; an inherited member needs no `DeclaredOnly`, and an inherited static
      one also needs `FlattenHierarchy`. */
  predicate Admits(flags: BindingFlags, m: Member)
  {
    && (if m.isStatic then flags.isStatic else flags.instance)
    && (m.declaredHere || (!flags.declaredOnly && (!m.isStatic || flags.flattenHierarchy)))
  }

  predicate IsGenericType(t: HostType)
  {
    |t.typeArgs| > 0
  }

  /** `GenericTypeArguments`: empty on an open generic definition. */
  function GenericTypeArguments(t: HostType): (r: seq<HostType>)
    ensures t.openDefinition ==> r == []
    ensures !t.openDefinition ==> r == t.typeArgs
  {
    if t.openDefinition then [] else t.typeArgs
  }

  /** `IsClass`; reflection also reports it for generic parameters. */
  predicate IsClass(t: HostType)
  {
    t.kind == Class || t.kind == GenericParameter
  }

  predicate IsEnum(t: HostType)
  {
    t.kind == Enum
  }

  /** Selects the members of one kind that the binding flags admit: with
      `DeclaredOnly`, inherited members are left out, and without
      `FlattenHierarchy` inherited static ones are. */
  function SelectMembers(ms: seq<Member>, property: bool, flags: BindingFlags): (r: seq<Member>)
    ensures forall m :: m in r ==> m in ms
    ensures forall m :: m in r ==> (if property then m.kind == Property else m.kind == Field)
    ensures forall m :: m in ms ==> (m in r <==>
      && (if property then m.kind == Property else m.kind == Field)
      && (if m.isStatic then flags.isStatic else flags.instance)
      && (m.declaredHere || (!flags.declaredOnly && (!m.isStatic || flags.flattenHierarchy))))
    ensures |r| <= |ms|
  {
    if |ms| == 0 then []
    else
      var keep := (if property then ms[0].kind == Property else ms[0].kind == Field)
        && Admits(flags, ms[0]);
      var rest := SelectMembers(ms[1..], property, flags);
      assert forall m :: m in ms[1..] ==> m in ms;
      assert forall m :: m in ms ==> m == ms[0] || m in ms[1..];
      if keep then [ms[0]] + rest else rest
  }

  /** `GetProperties(flags)`. */
  function GetProperties(t: HostType, flags: BindingFlags): seq<Member>
  {
    SelectMembers(t.members, true, flags)
  }

  /** `GetFields(flags)`. */
  function GetFields(t: HostType, flags: BindingFlags): seq<Member>
  {
    SelectMembers(t.members, false, flags)
  }

  /** `Select(p => p.PropertyType)`. */
  function MemberTypes(ms: seq<Member>): (r: seq<HostType>)
    ensures |r| == |ms| && forall i :: 0 <= i < |ms| ==> r[i] == ms[i].memberType
  {
    seq(|ms|, i requires 0 <= i < |ms| => ms[i].memberType)
  }

  /** With `MemberBindingFlags` only members declared on the type itself are
      listed; with `PropertyBindingFlags` inherited instance properties are
      too, but inherited static ones are not. */
  lemma BindingFlagsScope(t: HostType)
    ensures forall m :: m in GetProperties(t, MemberBindingFlags) ==> m.declaredHere
    ensures forall m :: m in GetFields(t, MemberBindingFlags) ==> m.declaredHere
    ensures forall m :: m in t.members && m.kind == Property && (m.declaredHere || !m.isStatic) ==> m in GetProperties(t, PropertyBindingFlags)
    ensures forall m :: m in t.members && m.isStatic && !m.declaredHere ==> m !in GetProperties(t, PropertyBindingFlags)
    ensures forall m :: m in t.members && m.kind == Property && !m.declaredHere ==> m !in GetProperties(t, MemberBindingFlags)
  {
  }

  /** `GetNameWithoutGenericArity`: the name up to its first backtick. */
  function NameWithoutGenericArity(name: string): (r: string)
    ensures |r| <= |name| && r == name[..|r|]
    ensures '`' !in r
    ensures '`' !in name ==> r == name
    ensures '`' in name ==> name[|r|] == '`'
  {
    if |name| == 0 || name[0] == '`' then ""
    else [name[0]] + NameWithoutGenericArity(name[1..])
  }

  function GetNameWithoutGenericArity(t: HostType): string
  {
    NameWithoutGenericArity(t.name)
  }

  /** Stripping the arity twice strips nothing more. */
  lemma NameWithoutGenericArityIdempotent(name: string)
    ensures NameWithoutGenericArity(NameWithoutGenericArity(name)) == NameWithoutGenericArity(name)
  {
  }

  /** Whatever follows the first backtick is dropped, whatever it is. */
  lemma {:induction false} NameWithoutGenericArityOfSuffixed(prefix: string, suffix: string)
    requires '`' !in prefix
    ensures NameWithoutGenericArity(prefix + "`" + suffix) == prefix
  {
    if |prefix| > 0 {
      assert (prefix + "`" + suffix)[1..] == prefix[1..] + "`" + suffix;
      NameWithoutGenericArityOfSuffixed(prefix[1..], suffix);
    } else {
      assert (prefix + "`" + suffix)[0] == '`';
    }
  }

  lemma GenericClassArity()
    ensures NameWithoutGenericArity("GenericClass`2") == "GenericClass"
  {
    NameWithoutGenericArityOfSuffixed("GenericClass", "2");
    assert "GenericClass" + "`" + "2" == "GenericClass`2";
  }

  /** The namespace test of `IsSystemType` on a present namespace. */
  predicate IsSystemNamespace(ns: string)
  {
    ns == "System" || StartsWith(ns, "System.")
  }

  /** `IsSystemType`: `StartsWith` is called on the namespace, so a type
      without one raises `NullReferenceException`. */
  function IsSystemType(t: HostType): (r: Result<bool>)
    ensures r.Err? <==> t.ns.None?
    ensures r.Err? ==> r.fault == NullReference
    ensures r.Ok? ==> (r.value <==> IsSystemNamespace(t.ns.value))
  {
    match t.ns
    case None => Err(NullReference)
    case Some(ns) => Ok(IsSystemNamespace(ns))
  }

  /** A system namespace is "System" itself or a dotted child of it, and
      nothing else: a name that merely begins with "System" is not one. */
  lemma SystemNamespaceShape(ns: string)
    ensures IsSystemNamespace(ns) <==>
      |ns| >= 6 && ns[..6] == "System" && (|ns| == 6 || ns[6] == '.')
  {
    if |ns| >= 6 && ns[..6] == "System" && |ns| == 6 {
      assert ns == ns[..6];
    }
    if |ns| >= 7 && ns[..6] == "System" && ns[6] == '.' {
      assert ns[..7] == "System.";
    }
  }

  lemma SystemNamespaceExamples()
    ensures IsSystemNamespace("System")
    ensures IsSystemNamespace("System.Collections.Generic")
    ensures !IsSystemNamespace("SystemX")
    ensures !IsSystemNamespace("Sys")
  {
    SystemNamespaceShape("SystemX");
    SystemNamespaceShape("System.Collections.Generic");
  }

  /** `IsNullable`: generic, with `Nullable<>` as its definition. */
  predicate IsNullable(t: HostType)
  {
    IsGenericType(t) && t.nullableWrapper
  }
}
