/** The generation pipeline: validate the options, collect the types to
    declare, build one declaration per type, drop repeats, group the
    declarations by namespace and assemble the text of the definition file. */
module Typifier {
  import opened Wrappers
  import opened Text
  import opened Host
  import opened TypeScriptUtils
  import opened Naming
  import opened Options
  import opened Collections
  import opened Platform
  import opened RootGeneration
  import opened Worklist

  const DefaultTypeScriptDefinitionFilename := "typified.d.ts"

  /** `ValidateOptions`: the assembly file, then the destination's extension,
      then the target version, each failing with its own option name. */
  function ValidateOptions(s: Settings): (r: Result<Settings>)
    ensures r.Ok? <==>
      && s.assemblyFile != ""
      && GetExtension(s.destination) in {"", ".ts"}
      && ParseVersion(s.targetTypeScriptVersion).Some?
      && !VersionLess(ParseVersion(s.targetTypeScriptVersion).value, TypeScript2)
    ensures r.Ok? ==> r.value == s
    ensures s.assemblyFile == "" ==> r == Err(InvalidOption("AssemblyFile", s.assemblyFile))
    ensures s.assemblyFile != "" && GetExtension(s.destination) !in {"", ".ts"} ==>
      r == Err(InvalidOption("Destination", s.destination))
    ensures s.assemblyFile != "" && GetExtension(s.destination) in {"", ".ts"} && r.Err? ==>
      r == Err(InvalidOption("TargetTypeScriptVersion", s.targetTypeScriptVersion))
    ensures r.Err? ==> r.fault.InvalidOption?
  {
    if s.assemblyFile == "" then Err(InvalidOption("AssemblyFile", s.assemblyFile))
    else
      var extension := GetExtension(s.destination);
      if extension != "" && extension != ".ts" then Err(InvalidOption("Destination", s.destination))
      else
        var v := ParseVersion(s.targetTypeScriptVersion);
        if v.None? || VersionLess(v.value, TypeScript2) then
          Err(InvalidOption("TargetTypeScriptVersion", s.targetTypeScriptVersion))
        else Ok(s)
  }

  /** Fresh options fail on the assembly file; with one set they pass, since
      the empty destination and version "2.2" are both acceptable. */
  lemma DefaultOptionsValidation(assemblyFile: string)
    requires assemblyFile != ""
    ensures ValidateOptions(DefaultSettings) == Err(InvalidOption("AssemblyFile", ""))
    ensures ValidateOptions(DefaultSettings.(assemblyFile := assemblyFile)).Ok?
  {
    DefaultVersionParses();
  }

  /** The three rejected option sets of the unit tests. */
  lemma RejectedOptions(assemblyFile: string)
    requires assemblyFile != ""
    ensures ValidateOptions(DefaultSettings.(assemblyFile := assemblyFile, destination := "Entity.cs")).Err?
    ensures ValidateOptions(DefaultSettings.(assemblyFile := assemblyFile, destination := "Entity.cs")).fault.optionName
      == "Destination"
    ensures ValidateOptions(DefaultSettings.(assemblyFile := assemblyFile, targetTypeScriptVersion := "notaversionnumber"))
      == Err(InvalidOption("TargetTypeScriptVersion", "notaversionnumber"))
    ensures ValidateOptions(DefaultSettings.(assemblyFile := assemblyFile, targetTypeScriptVersion := "1.8"))
      == Err(InvalidOption("TargetTypeScriptVersion", "1.8"))
  {
    ExtensionExamples();
    NonVersionsFail();
    OldVersionParses();
  }

  /** `GetFileDestination`, on its text: `currentDirectory` is what
      `Directory.GetCurrentDirectory()` returns. */
  function GetFileDestination(destination: string, currentDirectory: string): (r: string)
  {
    if destination == "" then DefaultTypeScriptDefinitionFilename
    else if GetExtension(destination) == ".ts" then destination
    else (if IsPathRooted(destination) then "" else currentDirectory) + "/" + destination + "/" + DefaultTypeScriptDefinitionFilename
  }

  lemma DefaultFileExtension(dir: string)
    ensures GetExtension(dir + "/" + DefaultTypeScriptDefinitionFilename) == ".ts"
  {
    var p := dir + "/" + DefaultTypeScriptDefinitionFilename;
    var k := |p|;
    assert p[k - 1] == 's' && p[k - 2] == 't' && p[k - 3] == '.';
    assert p[k - 3..] == ".ts";
    assert ExtensionBefore(p, k - 2) == ".ts";
    assert ExtensionBefore(p, k - 1) == ".ts";
  }

  /** Whatever destination passed validation, the file written is a
      TypeScript file: the destination itself when it names one, and
      otherwise "typified.d.ts" inside it (or in the working directory). */
  lemma DestinationIsTypeScriptFile(s: Settings, currentDirectory: string)
    requires ValidateOptions(s).Ok?
    ensures GetExtension(GetFileDestination(s.destination, currentDirectory)) == ".ts"
    ensures s.destination == "" ==> GetFileDestination(s.destination, currentDirectory) == "typified.d.ts"
    ensures GetExtension(s.destination) == ".ts" ==> GetFileDestination(s.destination, currentDirectory) == s.destination
  {
    if s.destination == "" {
      DefaultFileExtension("typified.d");
      assert "typified.d" + "/" + DefaultTypeScriptDefinitionFilename == "typified.d/typified.d.ts";
      ExtensionExamples();
    } else if GetExtension(s.destination) != ".ts" {
      var dir := (if IsPathRooted(s.destination) then "" else currentDirectory) + "/" + s.destination;
      DefaultFileExtension(dir);
    }
  }

  /** A property type worth declaring: not in the table and not a system type. */
  predicate Typifiable(t: HostType)
  {
    !Mapped(t) && t.ns.Some? && !IsSystemNamespace(t.ns.value)
  }

  /** The filter of `GetPropertyTypesToTypify`, over members: the table test
      first, then `IsSystemType`, which raises on a type without namespace. */
  function TypifiableMembers(ms: seq<Member>): (r: Result<seq<Member>>)
    ensures r.Ok? ==> forall m :: m in r.value ==> m in ms && Typifiable(m.memberType)
    ensures r.Ok? ==> forall m :: m in ms && Typifiable(m.memberType) ==> m in r.value
    ensures r.Err? <==> exists m :: m in ms && !Mapped(m.memberType) && m.memberType.ns.None?
    ensures r.Err? ==> r.fault == NullReference
  {
    if |ms| == 0 then Ok([])
    else
      assert forall m :: m in ms <==> m == ms[0] || m in ms[1..];
      if Mapped(ms[0].memberType) then TypifiableMembers(ms[1..])
      else
        var isSystem :- IsSystemType(ms[0].memberType);
        var rest :- TypifiableMembers(ms[1..]);
        Ok(if isSystem then rest else [ms[0]] + rest)
  }

  /** `GetPropertyTypesToTypify`: the types of the declared properties that
      pass the filter, then, made distinct, what the same search finds in
      each of them. There is no visited set: a type graph with a cycle would
      not end, and the finite tree of type descriptions has none. */
  function PropertyTypesToTypify(t: HostType): (r: Result<seq<HostType>>)
    ensures r.Ok? ==> forall u :: u in r.value ==> Typifiable(u)
    decreases t, 1
  {
    var ms :- TypifiableMembers(GetProperties(t, MemberBindingFlags));
    var nested :- NestedPropertyTypes(t, ms);
    DistinctElements(nested, Identity);
    Ok(MemberTypes(ms) + Distinct(nested, Identity))
  }

  /** `SelectMany(GetPropertyTypesToTypify)` over the selected members. */
  function NestedPropertyTypes(t: HostType, ms: seq<Member>): (r: Result<seq<HostType>>)
    requires forall m :: m in ms ==> m in t.members
    ensures r.Ok? ==> forall u :: u in r.value ==> Typifiable(u)
    decreases t, 0, |ms|
  {
    if |ms| == 0 then Ok([])
    else
      assert ms[0] in t.members;
      var here :- PropertyTypesToTypify(ms[0].memberType);
      var rest :- NestedPropertyTypes(t, ms[1..]);
      Ok(here + rest)
  }

  /** Every typifiable declared property type is found, and so is everything
      the same search finds in it. */
  lemma PropertyTypesComplete(t: HostType)
    requires PropertyTypesToTypify(t).Ok?
    ensures forall m :: m in GetProperties(t, MemberBindingFlags) && Typifiable(m.memberType) ==>
      && m.memberType in PropertyTypesToTypify(t).value
      && PropertyTypesToTypify(m.memberType).Ok?
      && forall u :: u in PropertyTypesToTypify(m.memberType).value ==> u in PropertyTypesToTypify(t).value
  {
    var ms := TypifiableMembers(GetProperties(t, MemberBindingFlags)).value;
    var nested := NestedPropertyTypes(t, ms).value;
    DistinctByIdentity(nested);
    forall m | m in GetProperties(t, MemberBindingFlags) && Typifiable(m.memberType)
      ensures m.memberType in PropertyTypesToTypify(t).value
      ensures PropertyTypesToTypify(m.memberType).Ok?
      ensures forall u :: u in PropertyTypesToTypify(m.memberType).value ==> u in PropertyTypesToTypify(t).value
    {
      var i :| 0 <= i < |ms| && ms[i] == m;
      assert MemberTypes(ms)[i] == m.memberType;
      NestedComplete(t, ms, m);
    }
  }

  lemma {:induction false} NestedComplete(t: HostType, ms: seq<Member>, m: Member)
    requires forall x :: x in ms ==> x in t.members
    requires NestedPropertyTypes(t, ms).Ok? && m in ms
    ensures PropertyTypesToTypify(m.memberType).Ok?
    ensures forall u :: u in PropertyTypesToTypify(m.memberType).value ==> u in NestedPropertyTypes(t, ms).value
    decreases |ms|
  {
    assert ms[0] in ms && forall x :: x in ms[1..] ==> x in ms;
    var here, rest := PropertyTypesToTypify(ms[0].memberType), NestedPropertyTypes(t, ms[1..]);
    assert here.Ok? && rest.Ok? && NestedPropertyTypes(t, ms).value == here.value + rest.value;
    var found := here.value + rest.value;
    if ms[0] == m {
      assert forall u :: u in here.value ==> u in found;
    } else {
      assert ms == [ms[0]] + ms[1..];
      NestedComplete(t, ms[1..], m);
      assert forall u :: u in rest.value ==> u in found;
    }
  }

  /** `path` is a chain of typifiable declared properties starting at `t`:
      each one's type declares the next. */
  predicate PropertyPath(t: HostType, path: seq<Member>)
  {
    && |path| > 0
    && path[0] in GetProperties(t, MemberBindingFlags) && Typifiable(path[0].memberType)
    && forall k :: 0 < k < |path| ==>
         path[k] in GetProperties(path[k - 1].memberType, MemberBindingFlags) && Typifiable(path[k].memberType)
  }

  /** The search reaches through properties to any depth: the type at the
      end of every chain of typifiable properties is found. */
  lemma {:induction false} PathTypesFound(t: HostType, path: seq<Member>)
    requires PropertyTypesToTypify(t).Ok? && PropertyPath(t, path)
    ensures path[|path| - 1].memberType in PropertyTypesToTypify(t).value
    decreases |path|
  {
    PropertyTypesComplete(t);
    if |path| > 1 {
      var next := path[0].memberType;
      assert PropertyPath(next, path[1..]) by {
        forall k | 0 < k < |path[1..]|
          ensures path[1..][k] in GetProperties(path[1..][k - 1].memberType, MemberBindingFlags)
        {
          assert path[1..][k] == path[k + 1] && path[1..][k - 1] == path[k];
        }
      }
      PathTypesFound(next, path[1..]);
    }
  }

  /** `GetTypesToTypify` after the assembly is loaded: `roots` are the types
      named by the `[Typify]` attributes, in scanning order. */
  function TypesToTypify(roots: seq<HostType>): Result<seq<HostType>>
  {
    Grow(roots, PropertyTypesToTypify)
  }

  /** The list has no repeats, starts with the roots in first-seen order,
      holds every root, and everything after them is a type worth declaring;
      every type a root reaches through typifiable properties is in it. */
  lemma TypesToTypifySpec(roots: seq<HostType>)
    requires TypesToTypify(roots).Ok?
    ensures var r := TypesToTypify(roots).value;
      && NoDuplicates(r)
      && (forall t :: t in roots ==> t in r)
      && |AppendAbsent([], roots)| <= |r| && r[..|AppendAbsent([], roots)|] == AppendAbsent([], roots)
      && (forall t :: t in r && t !in roots ==> Typifiable(t))
      && (forall t, path: seq<Member> :: t in roots && PropertyPath(t, path) ==> path[|path| - 1].memberType in r)
  {
    GrowSpec(roots, PropertyTypesToTypify);
    var r := TypesToTypify(roots).value;
    forall t | t in r && t !in roots ensures Typifiable(t) {
      GrowFound(roots, PropertyTypesToTypify, t);
    }
    forall t, path: seq<Member> | t in roots && PropertyPath(t, path) ensures path[|path| - 1].memberType in r {
      PathTypesFound(t, path);
    }
  }

  /** A type description that still holds a generic parameter. */
  predicate ContainsGenericParameters(t: HostType)
  {
    t.kind == GenericParameter || t.openDefinition
      || exists i :: 0 <= i < |t.typeArgs| && ContainsGenericParameters(t.typeArgs[i])
  }

  /** A root-level declaration: an enum, or one of the two interfaces. */
  datatype Declaration = EnumDeclaration(source: HostType) | InterfaceDeclaration(definition: InterfaceDefinition)

  /** `GenerateTypeScriptDefinition`: the enum declaration for an enum, else
      the generic interface for a generic type, else the interface. The
      declaration classes are instantiated over the type, which fails for a
      type that still holds generic parameters, and, for the interfaces
      (constrained to reference types), for a struct. */
  function GenerateDefinition(t: HostType, s: Settings): (r: Result<Declaration>)
    ensures r.Ok? <==> !ContainsGenericParameters(t) && (IsEnum(t) || t.kind != Struct)
    ensures r.Ok? && IsEnum(t) ==> r.value == EnumDeclaration(t)
    ensures r.Ok? && !IsEnum(t) ==> r.value == InterfaceDeclaration(InterfaceDefinition(t, s, IsGenericType(t)))
  {
    if ContainsGenericParameters(t) then Err(Failure("the type contains generic parameters"))
    else if IsEnum(t) then Ok(EnumDeclaration(t))
    else if t.kind == Struct then Err(Failure("the type violates the reference-type constraint"))
    else if IsGenericType(t) then Ok(InterfaceDeclaration(InterfaceDefinition(t, s, true)))
    else Ok(InterfaceDeclaration(InterfaceDefinition(t, s, false)))
  }

  function DeclarationSource(d: Declaration): HostType
  {
    match d
    case EnumDeclaration(t) => t
    case InterfaceDeclaration(definition) => definition.source
  }

  /** `Name`: the raw name of an enum or interface, the name without arity of
      a generic interface. */
  function DeclarationName(d: Declaration): string
  {
    match d
    case EnumDeclaration(t) => t.name
    case InterfaceDeclaration(definition) => InterfaceName(definition)
  }

  /** `ToTypeScriptString(n)`. */
  function DeclarationRender(d: Declaration, n: nat): string
  {
    match d
    case EnumDeclaration(t) => EnumToTypeScriptString(t, n)
    case InterfaceDeclaration(definition) => InterfaceRender(definition, n)
  }

  /** A declaration with the `Name` and `Namespace` the loop compares. */
  datatype Named = Named(declaration: Declaration, name: string, namespace: string)

  function Declare(t: HostType, s: Settings): (r: Result<Named>)
    ensures r.Ok? ==>
      && GenerateDefinition(t, s) == Ok(r.value.declaration)
      && r.value.name == DeclarationName(r.value.declaration)
      && ConvertedNamespace(t) == Ok(r.value.namespace)
  {
    var d :- GenerateDefinition(t, s);
    var namespace :- ConvertedNamespace(t);
    Ok(Named(d, DeclarationName(d), namespace))
  }

  /** Every type declared, in order; the first failure stops it. */
  function DeclareAll(ts: seq<HostType>, s: Settings): (r: Result<seq<Named>>)
    ensures r.Ok? ==> |r.value| == |ts| && forall i :: 0 <= i < |ts| ==> Declare(ts[i], s) == Ok(r.value[i])
  {
    if |ts| == 0 then Ok([])
    else
      var init :- DeclareAll(ts[..|ts| - 1], s);
      var last :- Declare(ts[|ts| - 1], s);
      Ok(init + [last])
  }

  lemma {:induction false} DeclareAllStops(ts: seq<HostType>, s: Settings, i: nat)
    requires i <= |ts| && DeclareAll(ts[..i], s).Err?
    ensures DeclareAll(ts, s) == DeclareAll(ts[..i], s)
    decreases |ts|
  {
    if i < |ts| {
      var init := ts[..|ts| - 1];
      assert init[..i] == ts[..i];
      DeclareAllStops(init, s, i);
    } else {
      assert ts[..i] == ts;
    }
  }

  lemma DeclareAllStep(ts: seq<HostType>, s: Settings, i: nat)
    requires i < |ts|
    ensures DeclareAll(ts[..i + 1], s)
      == (var init :- DeclareAll(ts[..i], s); var last :- Declare(ts[i], s); Ok(init + [last]))
  {
    assert ts[..i + 1][..i] == ts[..i];
  }

  /** The loop's test as written: a kept declaration whose `Name` equals the
      new one's `Namespace`, in the same namespace. */
  predicate ClashAsWritten(kept: seq<Named>, d: Named)
  {
    exists k :: 0 <= k < |kept| && kept[k].name == d.namespace && kept[k].namespace == d.namespace
  }

  /** The dedup loop as written. */
  function KeptAsWritten(ds: seq<Named>): seq<Named>
  {
    if |ds| == 0 then []
    else
      var kept := KeptAsWritten(ds[..|ds| - 1]);
      if ClashAsWritten(kept, ds[|ds| - 1]) then kept else kept + [ds[|ds| - 1]]
  }

  /** Two declarations of one generic class — `GenericClass<int, string>` and
      `GenericClass<string, int>` both declare "GenericClass" in the same
      namespace — are both kept as written: a name is compared with a
      namespace. */
  lemma KeptAsWrittenKeepsRepeats(a: Declaration, b: Declaration)
    ensures var x := Named(a, "GenericClass", "typify-net-tests-library");
      var y := Named(b, "GenericClass", "typify-net-tests-library");
      KeptAsWritten([x, y]) == [x, y]
  {
    var x := Named(a, "GenericClass", "typify-net-tests-library");
    var y := Named(b, "GenericClass", "typify-net-tests-library");
    assert [x, y][..1] == [x];
    assert [x][..0] == [];
    assert !ClashAsWritten([], x);
    assert KeptAsWritten([x]) == [x];
    assert !ClashAsWritten([x], y) by {
      assert |"GenericClass"| != |"typify-net-tests-library"|;
    }
  }

  lemma KeptAsWrittenSnoc(ds: seq<Named>, d: Named)
    ensures KeptAsWritten(ds + [d])
      == if ClashAsWritten(KeptAsWritten(ds), d) then KeptAsWritten(ds) else KeptAsWritten(ds) + [d]
  {
    assert (ds + [d])[..|ds|] == ds;
  }

  /** Some declaration of `ds` is named after its own namespace `ns`. */
  predicate SelfNamedIn(ds: seq<Named>, ns: string)
  {
    exists j :: 0 <= j < |ds| && ds[j].name == ns && ds[j].namespace == ns
  }

  /** The loop as written drops a declaration exactly when an earlier one,
      kept or not, is named after the namespace both share. */
  lemma KeptAsWrittenStep(ds: seq<Named>, d: Named)
    ensures KeptAsWritten(ds + [d]) == if SelfNamedIn(ds, d.namespace) then KeptAsWritten(ds) else KeptAsWritten(ds) + [d]
  {
    assert (ds + [d])[..|ds|] == ds;
    KeptSelfNamed(ds, d.namespace);
  }

  lemma SelfNamedSnoc(ds: seq<Named>, d: Named, ns: string)
    ensures SelfNamedIn(ds + [d], ns) <==> SelfNamedIn(ds, ns) || (d.name == ns && d.namespace == ns)
  {
    var xs := ds + [d];
    if SelfNamedIn(ds, ns) {
      var j :| 0 <= j < |ds| && ds[j].name == ns && ds[j].namespace == ns;
      assert xs[j] == ds[j];
    }
    if SelfNamedIn(xs, ns) {
      var j :| 0 <= j < |xs| && xs[j].name == ns && xs[j].namespace == ns;
      if j < |ds| {
        assert xs[j] == ds[j];
      }
    }
    assert xs[|ds|] == d;
  }

  /** Keeping as written keeps a declaration named after each namespace that
      has one. */
  lemma {:induction false} KeptSelfNamed(ds: seq<Named>, ns: string)
    ensures SelfNamedIn(KeptAsWritten(ds), ns) <==> SelfNamedIn(ds, ns)
    decreases |ds|
  {
    if |ds| > 0 {
      var init, d := ds[..|ds| - 1], ds[|ds| - 1];
      KeptSelfNamed(init, ns);
      KeptSelfNamed(init, d.namespace);
      assert ds == init + [d];
      SelfNamedSnoc(init, d, ns);
      SelfNamedSnoc(KeptAsWritten(init), d, ns);
    }
  }

  /** The rule of the loop as written: the kept declarations are picked out
      of `ds` in order, and position `p` is kept exactly when no earlier
      declaration is named after the namespace of `ds[p]`. */
  lemma {:induction false} KeptAsWrittenRule(ds: seq<Named>) returns (idx: seq<int>)
    ensures Embedding(KeptAsWritten(ds), ds, idx)
    ensures forall p :: 0 <= p < |ds| ==> (p in idx <==> !SelfNamedIn(ds[..p], ds[p].namespace))
    decreases |ds|
  {
    if |ds| == 0 {
      idx := [];
    } else {
      var init, d := ds[..|ds| - 1], ds[|ds| - 1];
      var pre := KeptAsWrittenRule(init);
      assert ds == init + [d];
      KeptAsWrittenStep(init, d);
      SnocEmbedding(KeptAsWritten(init), init, pre, d);
      idx := if SelfNamedIn(init, d.namespace) then pre else pre + [|init|];
      forall p | 0 <= p < |ds|
        ensures p in idx <==> !SelfNamedIn(ds[..p], ds[p].namespace)
      {
        if p < |init| {
          assert ds[..p] == init[..p] && ds[p] == init[p];
          assert p in idx <==> p in pre;
        } else {
          assert ds[..p] == init;
        }
      }
    }
  }

  /** When no declaration is named after its own namespace, the loop as
      written keeps them all. */
  lemma {:induction false} KeptAsWrittenKeepsAll(ds: seq<Named>)
    requires forall i :: 0 <= i < |ds| ==> ds[i].name != ds[i].namespace
    ensures KeptAsWritten(ds) == ds
    decreases |ds|
  {
    if |ds| > 0 {
      var init, d := ds[..|ds| - 1], ds[|ds| - 1];
      assert forall j :: 0 <= j < |init| ==> init[j] == ds[j];
      KeptAsWrittenKeepsAll(init);
      assert !SelfNamedIn(init, d.namespace) by {
        forall j | 0 <= j < |init| ensures !(init[j].name == d.namespace && init[j].namespace == d.namespace) {
          assert ds[j].name != ds[j].namespace;
        }
      }
      KeptAsWrittenStep(init, d);
      LastSplit(ds);
    }
  }

  /** The loop as written keeps declarations of `ds` only, and every
      namespace of `ds` still has one. */
  lemma {:induction false} KeptAsWrittenNamespaces(ds: seq<Named>)
    ensures forall d :: d in KeptAsWritten(ds) ==> d in ds
    ensures KeySet(KeptAsWritten(ds), NamespaceOf) == KeySet(ds, NamespaceOf)
    decreases |ds|
  {
    if |ds| > 0 {
      var init, d := ds[..|ds| - 1], ds[|ds| - 1];
      KeptAsWrittenNamespaces(init);
      KeptAsWrittenStep(init, d);
      assert ds == init + [d];
      KeySetSnoc(init, d, NamespaceOf);
      var kept := KeptAsWritten(init);
      KeySetSnoc(kept, d, NamespaceOf);
      if SelfNamedIn(init, d.namespace) {
        KeptSelfNamed(init, d.namespace);
        var j :| 0 <= j < |kept| && kept[j].name == d.namespace && kept[j].namespace == d.namespace;
        assert NamespaceOf(kept[j]) == NamespaceOf(d);
      }
    }
  }

  /** The key the test evidently means: `Name` and `Namespace`. */
  function DeclarationKey(d: Named): (string, string)
  {
    (d.name, d.namespace)
  }

  /** The dedup loop as intended: a declaration is dropped when one with the
      same name in the same namespace is already kept. */
  function Kept(ds: seq<Named>): seq<Named>
  {
    Distinct(ds, DeclarationKey)
  }

  /** The kept declarations come in processing order, no two share a name in
      one namespace, and every name of every namespace is still declared. */
  lemma KeptSpec(ds: seq<Named>)
    ensures DistinctKeys(Kept(ds), DeclarationKey)
    ensures KeySet(Kept(ds), DeclarationKey) == KeySet(ds, DeclarationKey)
    ensures forall d :: d in Kept(ds) ==> d in ds
    ensures |ds| == 0 ==> Kept(ds) == []
  {
    DistinctKeySets(ds, DeclarationKey);
    DistinctElements(ds, DeclarationKey);
  }

  /** Some declaration of `ds` has the name of `d` in its namespace. */
  predicate HasNameIn(ds: seq<Named>, d: Named)
  {
    exists k :: 0 <= k < |ds| && ds[k].name == d.name && ds[k].namespace == d.namespace
  }

  /** One more declaration is kept exactly when no kept one already has its
      name in its namespace. */
  lemma KeptSnoc(named: seq<Named>, d: Named)
    ensures HasNameIn(Kept(named), d) ==> Kept(named + [d]) == Kept(named)
    ensures !HasNameIn(Kept(named), d) ==> Kept(named + [d]) == Kept(named) + [d]
  {
    var xs := named + [d];
    assert xs[..|xs| - 1] == named && xs[|xs| - 1] == d;
    KeptSpec(named);
    if HasNameIn(Kept(named), d) {
      var k :| 0 <= k < |Kept(named)| && Kept(named)[k].name == d.name && Kept(named)[k].namespace == d.namespace;
      assert Kept(named)[k] in Kept(named);
      assert DeclarationKey(d) in KeySet(named, DeclarationKey);
    } else {
      assert DeclarationKey(d) !in KeySet(Kept(named), DeclarationKey);
    }
  }

  /** The two declarations above: only the first is kept. */
  lemma KeptDropsRepeats(a: Declaration, b: Declaration)
    ensures var x := Named(a, "GenericClass", "typify-net-tests-library");
      var y := Named(b, "GenericClass", "typify-net-tests-library");
      Kept([x, y]) == [x]
  {
    var x := Named(a, "GenericClass", "typify-net-tests-library");
    var y := Named(b, "GenericClass", "typify-net-tests-library");
    assert [x, y][..1] == [x];
    assert [x][..0] == [];
    assert KeySet([], DeclarationKey) == {};
    assert [x][..|[x]| - 1] == [];
    assert Distinct([x], DeclarationKey) == [x];
    assert KeySet([x], DeclarationKey) == {DeclarationKey(x)};
  }

  /** `GroupBy(td => td.Namespace)`. */
  function NamespaceOf(d: Named): string { d.namespace }

  /** The import an import-flagged property contributes: its formatted name,
      its type's converted namespace and its TypeScript text. */
  datatype Import = Import(name: string, namespace: string, tsType: string)

  /** The imports of one interface: its import-flagged properties, in order. */
  function InterfaceImports(definition: InterfaceDefinition): (r: seq<Import>)
    ensures forall i :: i in r ==> exists m ::
      && m in InterfaceProperties(definition) && ImportAfterMapping(m)
      && i == Import(FormatName(m.name, definition.options.namingStrategy), ToTypeScriptNamespace(m.memberType.ns.value),
                     MapText(m.memberType, ImportValue(m)).text)
  {
    ImportsOfMembers(InterfaceProperties(definition), definition.options)
  }

  function ImportsOfMembers(ms: seq<Member>, options: Settings): (r: seq<Import>)
    ensures forall i :: i in r ==> exists m ::
      && m in ms && ImportAfterMapping(m)
      && i == Import(FormatName(m.name, options.namingStrategy), ToTypeScriptNamespace(m.memberType.ns.value),
                     MapText(m.memberType, ImportValue(m)).text)
  {
    if |ms| == 0 then []
    else
      var m := ms[0];
      var rest := ImportsOfMembers(ms[1..], options);
      assert forall x :: x in ms[1..] ==> x in ms;
      if ImportAfterMapping(m) then
        ImportIsPropertyWide(m);
        [Import(FormatName(m.name, options.namingStrategy), ToTypeScriptNamespace(m.memberType.ns.value),
                MapText(m.memberType, ImportValue(m)).text)] + rest
      else rest
  }

  /** The interfaces among the declarations (`OfType<TypeScriptInterfaceDefinition>`). */
  function Interfaces(ds: seq<Named>): seq<InterfaceDefinition>
  {
    if |ds| == 0 then []
    else (if ds[0].declaration.InterfaceDeclaration? then [ds[0].declaration.definition] else []) + Interfaces(ds[1..])
  }

  function AllImports(ds: seq<InterfaceDefinition>): seq<Import>
  {
    if |ds| == 0 then [] else InterfaceImports(ds[0]) + AllImports(ds[1..])
  }

  function ImportKey(i: Import): (string, string) { (i.name, i.namespace) }

  function ImportNamespace(i: Import): string { i.namespace }

  /** The imports grouped by namespace, after dropping repeats of a name in a
      namespace. */
  function ImportGroups(ds: seq<InterfaceDefinition>): seq<(string, seq<Import>)>
  {
    GroupBy(Distinct(AllImports(ds), ImportKey), ImportNamespace)
  }

  /** One line per group: "\timport { T1, T2 } from 'ns';", then a line break. */
  function ImportLine(group: (string, seq<Import>)): string
  {
    ImportLineText(group) + "\n"
  }

  function ImportLineText(group: (string, seq<Import>)): string
  {
    "\timport { " + Join(", ", seq(|group.1|, k requires 0 <= k < |group.1| => group.1[k].tsType))
      + " } from '" + group.0 + "';"
  }

  function ImportLineTexts(groups: seq<(string, seq<Import>)>): (r: seq<string>)
    ensures |r| == |groups| && forall i :: 0 <= i < |groups| ==> r[i] == ImportLineText(groups[i])
  {
    if |groups| == 0 then [] else [ImportLineText(groups[0])] + ImportLineTexts(groups[1..])
  }

  function ImportLines(groups: seq<(string, seq<Import>)>): string
  {
    if |groups| == 0 then "" else ImportLine(groups[0]) + ImportLines(groups[1..])
  }

  /** `GenerateTypeScriptImports`: nothing without interfaces, else the
      import lines, one per namespace. */
  function GenerateTypeScriptImports(ds: seq<InterfaceDefinition>): string
  {
    if |ds| == 0 then ""
    else
      var groups := ImportGroups(ds);
      ImportLines(groups)
  }

  /** One group per namespace. */
  predicate NamespacesDistinct(g: seq<(string, seq<Import>)>)
  {
    forall i, j :: 0 <= i < j < |g| ==> g[i].0 != g[j].0
  }

  /** Every group holds imports of `all` from its own namespace. */
  predicate GroupsFrom(g: seq<(string, seq<Import>)>, all: seq<Import>)
  {
    forall i :: 0 <= i < |g| ==> forall x :: x in g[i].1 ==> x.namespace == g[i].0 && x in all
  }

  /** Every import of `all` is present, by name and namespace, in the group
      of its namespace. */
  predicate AllGrouped(g: seq<(string, seq<Import>)>, all: seq<Import>)
  {
    forall x :: x in all ==>
      exists i :: 0 <= i < |g| && g[i].0 == x.namespace && exists y :: y in g[i].1 && ImportKey(y) == ImportKey(x)
  }

  /** The grouping step on any list of imports: one group per namespace. */
  lemma GroupedNamespacesDistinct(all: seq<Import>)
    ensures NamespacesDistinct(GroupBy(Distinct(all, ImportKey), ImportNamespace))
  {
    GroupByShape(Distinct(all, ImportKey), ImportNamespace);
  }

  /** The grouping step keeps only imports of the input, each in the group of
      its namespace. */
  lemma GroupedFromInput(all: seq<Import>)
    ensures GroupsFrom(GroupBy(Distinct(all, ImportKey), ImportNamespace), all)
  {
    DistinctElements(all, ImportKey);
    GroupByShape(Distinct(all, ImportKey), ImportNamespace);
  }

  /** The grouping step loses no import: a representative with the same name
      and namespace sits in the group of its namespace. */
  lemma GroupedAll(all: seq<Import>)
    ensures AllGrouped(GroupBy(Distinct(all, ImportKey), ImportNamespace), all)
  {
    var distinct := Distinct(all, ImportKey);
    DistinctKeySets(all, ImportKey);
    GroupByShape(distinct, ImportNamespace);
    var g := GroupBy(distinct, ImportNamespace);
    forall x | x in all
      ensures exists i :: 0 <= i < |g| && g[i].0 == x.namespace && exists y :: y in g[i].1 && ImportKey(y) == ImportKey(x)
    {
      assert ImportKey(x) in KeySet(distinct, ImportKey);
      var y :| y in distinct && ImportKey(y) == ImportKey(x);
      var i :| 0 <= i < |g| && g[i].0 == ImportNamespace(y) && y in g[i].1;
    }
  }

  /** Each namespace has one import line, and within the lines no name is
      imported twice from one namespace; every import-flagged property of the
      interfaces is imported, from its own namespace's line. */
  lemma ImportGroupsSpec(ds: seq<InterfaceDefinition>)
    ensures NamespacesDistinct(ImportGroups(ds))
    ensures GroupsFrom(ImportGroups(ds), AllImports(ds))
    ensures AllGrouped(ImportGroups(ds), AllImports(ds))
  {
    GroupedNamespacesDistinct(AllImports(ds));
    GroupedFromInput(AllImports(ds));
    GroupedAll(AllImports(ds));
  }

  /** The import lines of `groups` read back one per group, before whatever
      follows them, when no namespace and no imported type holds a line break. */
  lemma {:induction false} ImportLinesRead(groups: seq<(string, seq<Import>)>, rest: string)
    requires forall i :: 0 <= i < |groups| ==> '\n' !in groups[i].0 && forall x :: x in groups[i].1 ==> '\n' !in x.tsType
    ensures Split(ImportLines(groups) + rest, '\n')
      == ImportLineTexts(groups) + Split(rest, '\n')
  {
    if |groups| > 0 {
      var g := groups[0];
      var types := seq(|g.1|, k requires 0 <= k < |g.1| => g.1[k].tsType);
      forall k | 0 <= k < |types| ensures '\n' !in types[k] {
        assert g.1[k] in g.1;
      }
      JoinWithout(", ", types, '\n');
      assert '\n' !in ImportLineText(g);
      ImportLinesRead(groups[1..], rest);
      var tail := groups[1..];
      var after := ImportLines(tail) + rest;
      assert ImportLines(groups) + rest == ImportLineText(g) + ['\n'] + after;
      SplitAroundSeparator(ImportLineText(g), '\n', after);
      SplitWithoutSeparator(ImportLineText(g), '\n');
      assert Split(ImportLines(groups) + rest, '\n') == [ImportLineText(g)] + Split(after, '\n');
    } else {
      assert ImportLines(groups) + rest == rest;
    }
  }

  const Notice := "\tAutogenerated using Typify. Do not modify."

  const Banner := "/*\n" + Notice + "\n*/\n"

  /** One `declare module` block. */
  function ModuleText(key: string, imports: string, renders: seq<string>): string
  {
    "declare module '" + key + "' {\n" + imports + Join("\n", renders) + "\n}\n"
  }

  function Renders(ds: seq<Named>, n: nat): (r: seq<string>)
    ensures |r| == |ds|
  {
    if |ds| == 0 then [] else Renders(ds[..|ds| - 1], n) + [DeclarationRender(ds[|ds| - 1].declaration, n)]
  }


  function GroupText(group: (string, seq<Named>)): string
  {
    ModuleText(group.0, GenerateTypeScriptImports(Interfaces(group.1)), Renders(group.1, 1))
  }

  /** The import groups a module's interfaces give, none without interfaces. */
  function ModuleImportGroups(ds: seq<Named>): seq<(string, seq<Import>)>
  {
    if |Interfaces(ds)| == 0 then [] else ImportGroups(Interfaces(ds))
  }

  /** No line break in a module's namespace, nor in the namespace or the
      TypeScript text of anything it imports. */
  predicate PlainModule(group: (string, seq<Named>))
  {
    && '\n' !in group.0
    && forall x :: x in AllImports(Interfaces(group.1)) ==> '\n' !in x.namespace && '\n' !in x.tsType
  }

  /** A module, line by line: its header, one line per imported namespace,
      the lines of its declarations in order, and the closing brace. */
  function ModuleLines(group: (string, seq<Named>)): seq<string>
  {
    ["declare module '" + group.0 + "' {"]
      + ImportLineTexts(ModuleImportGroups(group.1))
      + ModuleBodyLines(group)
      + ["}"]
  }

  lemma ModuleImportsPlain(group: (string, seq<Named>))
    requires PlainModule(group)
    ensures var gs := ModuleImportGroups(group.1);
      forall i :: 0 <= i < |gs| ==> '\n' !in gs[i].0 && forall x :: x in gs[i].1 ==> '\n' !in x.tsType
  {
    var ds := Interfaces(group.1);
    if |ds| > 0 {
      var all := AllImports(ds);
      var gs := ImportGroups(ds);
      DistinctElements(all, ImportKey);
      GroupByShape(Distinct(all, ImportKey), ImportNamespace);
      forall i | 0 <= i < |gs| ensures '\n' !in gs[i].0 {
        var y := gs[i].1[0];
        assert y in gs[i].1;
      }
    }
  }

  /** A module reads back as its lines, before whatever follows it. */
  lemma GroupTextRead(group: (string, seq<Named>), rest: string)
    requires PlainModule(group)
    ensures Split(GroupText(group) + rest, '\n') == ModuleLines(group) + Split(rest, '\n')
  {
    var header := "declare module '" + group.0 + "' {";
    var igs := ModuleImportGroups(group.1);
    var joined := Join("\n", Renders(group.1, 1));
    var x2 := joined + ['\n'] + ("}" + ['\n'] + rest);
    GroupTextShape(group, rest);
    HeaderNoBreak(group.0);
    ModuleImportsPlain(group);
    ImportLinesRead(igs, x2);
    RendersRead(group);
    SplitBlock(header, ImportLines(igs), ImportLineTexts(igs), joined, ModuleBodyLines(group), "}", '\n', rest);
  }

  lemma HeaderNoBreak(key: string)
    requires '\n' !in key
    ensures '\n' !in "declare module '" + key + "' {"
  {
  }

  /** The lines of a module's declarations. */
  function ModuleBodyLines(group: (string, seq<Named>)): seq<string>
  {
    if |group.1| == 0 then [""] else SplitEach(Renders(group.1, 1), '\n')
  }

  lemma RendersRead(group: (string, seq<Named>))
    ensures Split(Join("\n", Renders(group.1, 1)), '\n') == ModuleBodyLines(group)
  {
    if |group.1| > 0 {
      SplitJoinEach(Renders(group.1, 1), '\n');
    }
  }

  /** The text of a module, then `rest`, as its header line, its imports,
      its declarations and its closing line, grouped from the right. */
  lemma GroupTextShape(group: (string, seq<Named>), rest: string)
    ensures var header := "declare module '" + group.0 + "' {";
      var imports := ImportLines(ModuleImportGroups(group.1));
      var joined := Join("\n", Renders(group.1, 1));
      GroupText(group) + rest == header + ['\n'] + (imports + (joined + ['\n'] + ("}" + ['\n'] + rest)))
  {
    var imports := GenerateTypeScriptImports(Interfaces(group.1));
    assert imports == ImportLines(ModuleImportGroups(group.1));
    var joined := Join("\n", Renders(group.1, 1));
    assert "' {\n" == "' {" + ['\n'] && "\n}\n" == ['\n'] + "}" + ['\n'];
    LayoutBlock("declare module '" + group.0, "' {", imports, joined, "}", '\n', rest);
  }

  /** The modules of the groups, in order. */
  function Modules(groups: seq<(string, seq<Named>)>): string
  {
    if |groups| == 0 then "" else Modules(groups[..|groups| - 1]) + GroupText(groups[|groups| - 1])
  }

  lemma ModulesStep(groups: seq<(string, seq<Named>)>, i: nat)
    requires i < |groups|
    ensures Modules(groups[..i + 1]) == Modules(groups[..i]) + GroupText(groups[i])
  {
    assert groups[..i + 1][..i] == groups[..i];
  }

  /** The lines of the modules of the groups, in order. */
  function ModulesLines(groups: seq<(string, seq<Named>)>): seq<string>
  {
    if |groups| == 0 then [] else ModulesLines(groups[..|groups| - 1]) + ModuleLines(groups[|groups| - 1])
  }

  lemma {:induction false} ModulesRead(groups: seq<(string, seq<Named>)>, rest: string)
    requires forall i :: 0 <= i < |groups| ==> PlainModule(groups[i])
    ensures Split(Modules(groups) + rest, '\n') == ModulesLines(groups) + Split(rest, '\n')
    decreases |groups|
  {
    if |groups| == 0 {
      assert Modules(groups) + rest == rest;
    } else {
      var init, last := groups[..|groups| - 1], groups[|groups| - 1];
      var text, after := GroupText(last), Split(rest, '\n');
      GroupTextRead(last, rest);
      ModulesRead(init, text + rest);
      Regroup(Modules(init), text, rest);
      Regroup(ModulesLines(init), ModuleLines(last), after);
    }
  }

  /** The file, line by line: the three lines of the banner, the lines of each
      module in order, and the empty piece after the final line break. */
  function FileLines(groups: seq<(string, seq<Named>)>): seq<string>
  {
    ["/*", Notice, "*/"] + ModulesLines(groups) + [""]
  }

  lemma FileContentsShape(groups: seq<(string, seq<Named>)>)
    ensures FileContents(groups) == "/*" + ['\n'] + Notice + ['\n'] + "*/" + ['\n'] + Modules(groups)
    ensures '\n' !in Notice
  {
    assert "/*\n" == "/*" + ['\n'] && "\n*/\n" == ['\n'] + "*/" + ['\n'];
  }

  /** The file reads back as its lines when every module is plain. */
  lemma FileRead(groups: seq<(string, seq<Named>)>)
    requires forall i :: 0 <= i < |groups| ==> PlainModule(groups[i])
    ensures Split(FileContents(groups), '\n') == FileLines(groups)
  {
    ModulesReadAll(groups);
    FileContentsShape(groups);
    SplitThreeLines("/*", Notice, "*/", '\n', Modules(groups));
    Regroup(["/*", Notice, "*/"], ModulesLines(groups), [""]);
  }

  lemma ModulesReadAll(groups: seq<(string, seq<Named>)>)
    requires forall i :: 0 <= i < |groups| ==> PlainModule(groups[i])
    ensures Split(Modules(groups), '\n') == ModulesLines(groups) + [""]
  {
    ModulesRead(groups, "");
    assert Modules(groups) + "" == Modules(groups);
  }

  /** The file's text: the banner, then one module per group, in order. */
  function FileContents(groups: seq<(string, seq<Named>)>): string
  {
    Banner + Modules(groups)
  }

  /** Every declaration of a group rendered at one tab. */
  method RenderAll(ds: seq<Named>) returns (renders: seq<string>)
    ensures renders == Renders(ds, 1)
  {
    renders := [];
    for i := 0 to |ds|
      invariant renders == Renders(ds[..i], 1)
    {
      var text: string;
      if ds[i].declaration.EnumDeclaration? {
        text := EnumToTypeScriptString(ds[i].declaration.source, 1);
      } else {
        text := InterfaceToTypeScriptString(ds[i].declaration.definition, 1);
      }
      assert ds[..i + 1][..i] == ds[..i];
      renders := renders + [text];
    }
    assert ds[..|ds|] == ds;
  }

  /** One module: its imports, then its declarations. */
  method WriteGroup(group: (string, seq<Named>)) returns (text: string)
    ensures text == GroupText(group)
  {
    var imports := GenerateTypeScriptImports(Interfaces(group.1));
    var renders := RenderAll(group.1);
    text := ModuleText(group.0, imports, renders);
  }

  /** `WriteDefinitions`, up to the file: the banner, then the modules
      accumulated one by one. */
  method WriteDefinitions(groups: seq<(string, seq<Named>)>) returns (contents: string)
    ensures contents == FileContents(groups)
  {
    var modules := "";
    for i := 0 to |groups|
      invariant modules == Modules(groups[..i])
    {
      var text := WriteGroup(groups[i]);
      ModulesStep(groups, i);
      modules := modules + text;
    }
    assert groups[..|groups|] == groups;
    contents := Banner + modules;
  }

  /** The file written for the kept declarations: its path and its text. */
  function FileOutput(s: Settings, currentDirectory: string, kept: seq<Named>): (string, string)
  {
    (GetFileDestination(s.destination, currentDirectory), FileContents(GroupBy(kept, NamespaceOf)))
  }

  /** What a written file promises about the declarations `named` and the
      ones `kept` of them: a TypeScript path ("typified.d.ts" without a
      destination); the banner first; one module per namespace of `named`,
      in the order namespaces are first met among `kept`, each holding the
      kept declarations of its namespace in order; and, when no namespace or
      import holds a line break, the text read line by line. */
  predicate WritesFile(s: Settings, named: seq<Named>, kept: seq<Named>, out: (string, string))
  {
    var groups := GroupBy(kept, NamespaceOf);
    && GetExtension(out.0) == ".ts"
    && (s.destination == "" ==> out.0 == "typified.d.ts")
    && StartsWith(out.1, Banner)
    && (forall d :: d in kept ==> d in named)
    && (forall i, j :: 0 <= i < j < |groups| ==> groups[i].0 != groups[j].0)
    && (set i | 0 <= i < |groups| :: groups[i].0) == KeySet(named, NamespaceOf)
    && (forall i :: 0 <= i < |groups| ==> groups[i].1 == WithKey(kept, NamespaceOf, groups[i].0))
    && ((forall i :: 0 <= i < |groups| ==> PlainModule(groups[i])) ==> Split(out.1, '\n') == FileLines(groups))
  }

  lemma FileOutputSpec(s: Settings, currentDirectory: string, named: seq<Named>, kept: seq<Named>)
    requires ValidateOptions(s).Ok?
    requires forall d :: d in kept ==> d in named
    requires KeySet(kept, NamespaceOf) == KeySet(named, NamespaceOf)
    ensures WritesFile(s, named, kept, FileOutput(s, currentDirectory, kept))
  {
    var groups := GroupBy(kept, NamespaceOf);
    DestinationIsTypeScriptFile(s, currentDirectory);
    GroupByShape(kept, NamespaceOf);
    FileStartsWithBanner(groups);
    if forall i :: 0 <= i < |groups| ==> PlainModule(groups[i]) {
      FileRead(groups);
    }
  }

  /** `Typify` on its values: the validated settings, the roots the assembly
      names and the working directory give the file's path and its text. The
      declarations are kept by the loop as written. */
  function TypifyOutput(s: Settings, roots: seq<HostType>, currentDirectory: string): (r: Result<(string, string)>)
  {
    var _ :- ValidateOptions(s);
    var types :- TypesToTypify(roots);
    var named :- DeclareAll(types, s);
    Ok(FileOutput(s, currentDirectory, KeptAsWritten(named)))
  }

  /** `Typify` with the dedup loop as intended. */
  function TypifyOutputIntended(s: Settings, roots: seq<HostType>, currentDirectory: string): (r: Result<(string, string)>)
  {
    var _ :- ValidateOptions(s);
    var types :- TypesToTypify(roots);
    var named :- DeclareAll(types, s);
    Ok(FileOutput(s, currentDirectory, Kept(named)))
  }

  /** A run that succeeds writes the file `WritesFile` describes, for the
      declarations the loop as written keeps. */
  lemma TypifyOutputSpec(s: Settings, roots: seq<HostType>, currentDirectory: string)
    requires TypifyOutput(s, roots, currentDirectory).Ok?
    ensures var named := DeclareAll(TypesToTypify(roots).value, s).value;
      WritesFile(s, named, KeptAsWritten(named), TypifyOutput(s, roots, currentDirectory).value)
  {
    var named := DeclareAll(TypesToTypify(roots).value, s).value;
    KeptAsWrittenNamespaces(named);
    FileOutputSpec(s, currentDirectory, named, KeptAsWritten(named));
  }

  /** The same for the intended dedup, whose kept declarations moreover
      differ in name within each namespace. */
  lemma TypifyOutputIntendedSpec(s: Settings, roots: seq<HostType>, currentDirectory: string)
    requires TypifyOutputIntended(s, roots, currentDirectory).Ok?
    ensures var named := DeclareAll(TypesToTypify(roots).value, s).value;
      && WritesFile(s, named, Kept(named), TypifyOutputIntended(s, roots, currentDirectory).value)
      && DistinctKeys(Kept(named), DeclarationKey)
  {
    var named := DeclareAll(TypesToTypify(roots).value, s).value;
    KeptSpec(named);
    KeptNamespaces(named);
    FileOutputSpec(s, currentDirectory, named, Kept(named));
  }

  /** Keeping the first declaration of each name loses no namespace. */
  lemma KeptNamespaces(named: seq<Named>)
    ensures KeySet(Kept(named), NamespaceOf) == KeySet(named, NamespaceOf)
  {
    var kept := Kept(named);
    DistinctElements(named, DeclarationKey);
    KeptSpec(named);
    forall x | x in KeySet(named, NamespaceOf) ensures x in KeySet(kept, NamespaceOf) {
      var d :| d in named && NamespaceOf(d) == x;
      assert DeclarationKey(d) in KeySet(kept, DeclarationKey);
      var e :| e in kept && DeclarationKey(e) == DeclarationKey(d);
    }
  }

  lemma FileStartsWithBanner(groups: seq<(string, seq<Named>)>)
    ensures StartsWith(FileContents(groups), Banner)
  {
    assert (Banner + Modules(groups))[..|Banner|] == Banner;
  }

  /** The loop of `Typify`: each type is declared in turn, and a declaration
      is kept unless the test as written finds a clash among those kept. */
  method DeclareAndKeep(types: seq<HostType>, s: Settings) returns (r: Result<seq<Named>>)
    ensures DeclareAll(types, s).Err? ==> r == Err(DeclareAll(types, s).fault)
    ensures DeclareAll(types, s).Ok? ==> r == Ok(KeptAsWritten(DeclareAll(types, s).value))
  {
    ghost var named: seq<Named> := [];
    var kept: seq<Named> := [];
    for i := 0 to |types|
      invariant DeclareAll(types[..i], s) == Ok(named)
      invariant kept == KeptAsWritten(named)
    {
      DeclareAllStep(types, s, i);
      var declared := Declare(types[i], s);
      if declared.Err? {
        DeclareAllStops(types, s, i + 1);
        return Err(declared.fault);
      }
      var d := declared.value;
      KeptAsWrittenSnoc(named, d);
      if !ClashAsWritten(kept, d) {
        kept := kept + [d];
      }
      named := named + [d];
    }
    assert types[..|types|] == types;
    return Ok(kept);
  }

  /** `Typify`: absent options mean fresh ones; the result is the file's path
      and text. */
  method Typify(options: TypifyOptions?, roots: seq<HostType>, currentDirectory: string)
      returns (r: Result<(string, string)>)
    ensures r == TypifyOutput(OrDefault(options), roots, currentDirectory)
  {
    var s: Settings;
    if options == null {
      var defaults := new TypifyOptions();
      s := defaults.Snapshot();
    } else {
      s := options.Snapshot();
    }
    var valid := ValidateOptions(s);
    if valid.Err? {
      return Err(valid.fault);
    }
    var types := GetTypesToTypify(roots, PropertyTypesToTypify);
    if types.Err? {
      return Err(types.fault);
    }
    var kept := DeclareAndKeep(types.value, s);
    if kept.Err? {
      return Err(kept.fault);
    }
    var contents := WriteDefinitions(GroupBy(kept.value, NamespaceOf));
    return Ok((GetFileDestination(s.destination, currentDirectory), contents));
  }
}
