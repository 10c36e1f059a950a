/** The fixed table from framework types to TypeScript names, and the
    namespace conversion from dotted .NET names to dashed lower-case module
    names. */
module TypeScriptUtils {
  import opened Wrappers
  import opened Text
  import opened Host

  /** The dictionary the lookup is built from: each TypeScript name with the
      framework types it stands for. */
  const TypeScriptToDotNet: seq<(string, seq<Builtin>)> := [
    ("number", [Int, Float, Decimal, Long, Byte, SByte, Short, UShort, UInt, ULong]),
    ("string", [String, Char]),
    ("boolean", [Bool]),
    ("Date", [DateTime, DateTimeOffset]),
    ("any", [Object])
  ]

  /** `SelectMany(pair => pair.Value, ...)`: one (type, name) pair per listed type,
      in dictionary order. */
  function Flatten(table: seq<(string, seq<Builtin>)>): seq<(Builtin, string)>
  {
    if |table| == 0 then []
    else seq(|table[0].1|, i requires 0 <= i < |table[0].1| => (table[0].1[i], table[0].0)) + Flatten(table[1..])
  }

  /** `ToLookup(pair => pair.value, pair => pair.Key)[b]`: every name paired
      with `b`, in order. */
  function NamesOf(pairs: seq<(Builtin, string)>, b: Builtin): seq<string>
  {
    if |pairs| == 0 then []
    else (if pairs[0].0 == b then [pairs[0].1] else []) + NamesOf(pairs[1..], b)
  }

  /** The lookup for a framework type. */
  function LookupNames(table: seq<(string, seq<Builtin>)>, b: Builtin): seq<string>
  {
    NamesOf(Flatten(table), b)
  }

  /** `DotNetTypeToTypeScriptTypeLookup.Contains(t)`. */
  predicate InLookup(table: seq<(string, seq<Builtin>)>, t: HostType)
  {
    t.builtin.Some? && |LookupNames(table, t.builtin.value)| > 0
  }

  /** The TypeScript name the table gives a type, when it lists it:
      `Lookup[t].First()`. */
  function LookupName(table: seq<(string, seq<Builtin>)>, t: HostType): (r: Option<string>)
    ensures r.Some? <==> InLookup(table, t)
    ensures r.Some? ==> r.value == LookupNames(table, t.builtin.value)[0]
  {
    if InLookup(table, t) then Some(LookupNames(table, t.builtin.value)[0]) else None
  }

  /** The name the current table gives each framework type (None: not listed). */
  function TableName(b: Builtin): Option<string>
  {
    match b
    case Int => Some("number") case Float => Some("number") case Decimal => Some("number")
    case Long => Some("number") case Byte => Some("number") case SByte => Some("number")
    case Short => Some("number") case UShort => Some("number") case UInt => Some("number")
    case ULong => Some("number")
    case String => Some("string") case Char => Some("string")
    case Bool => Some("boolean")
    case DateTime => Some("Date") case DateTimeOffset => Some("Date")
    case Object => Some("any")
    case Double => None
  }

  lemma FlattenedTable()
    ensures Flatten(TypeScriptToDotNet) == [
      (Int, "number"), (Float, "number"), (Decimal, "number"), (Long, "number"), (Byte, "number"),
      (SByte, "number"), (Short, "number"), (UShort, "number"), (UInt, "number"), (ULong, "number"),
      (String, "string"), (Char, "string"), (Bool, "boolean"),
      (DateTime, "Date"), (DateTimeOffset, "Date"), (Object, "any")]
  {
    var t := TypeScriptToDotNet;
    assert t[1..][1..][1..][1..][1..] == [];
    assert Flatten(t[1..][1..][1..][1..]) == [(Object, "any")];
    assert Flatten(t[1..][1..][1..]) == [(DateTime, "Date"), (DateTimeOffset, "Date"), (Object, "any")];
    assert Flatten(t[1..][1..]) == [(Bool, "boolean"), (DateTime, "Date"), (DateTimeOffset, "Date"), (Object, "any")];
  }

  /** Keys of the flattened table are pairwise distinct. */
  predicate UniqueTypes(pairs: seq<(Builtin, string)>)
  {
    forall i, j :: 0 <= i < j < |pairs| ==> pairs[i].0 != pairs[j].0
  }

  lemma FlattenedTableUnique()
    ensures UniqueTypes(Flatten(TypeScriptToDotNet))
  {
    FlattenedTable();
    var f := Flatten(TypeScriptToDotNet);
    forall i, j | 0 <= i < j < |f| ensures f[i].0 != f[j].0 {
    }
  }

  lemma {:induction false} NamesOfUnique(pairs: seq<(Builtin, string)>, b: Builtin, i: int)
    requires UniqueTypes(pairs)
    requires 0 <= i < |pairs| && pairs[i].0 == b
    ensures NamesOf(pairs, b) == [pairs[i].1]
  {
    if i == 0 {
      NamesOfAbsent(pairs[1..], b);
    } else {
      NamesOfUnique(pairs[1..], b, i - 1);
    }
  }

  lemma {:induction false} NamesOfAbsent(pairs: seq<(Builtin, string)>, b: Builtin)
    requires forall i :: 0 <= i < |pairs| ==> pairs[i].0 != b
    ensures NamesOf(pairs, b) == []
  {
    if |pairs| > 0 {
      NamesOfAbsent(pairs[1..], b);
    }
  }

  lemma LookupAt(b: Builtin, i: int)
    requires 0 <= i < |Flatten(TypeScriptToDotNet)| && Flatten(TypeScriptToDotNet)[i].0 == b
    ensures LookupNames(TypeScriptToDotNet, b) == [Flatten(TypeScriptToDotNet)[i].1]
  {
    FlattenedTableUnique();
    NamesOfUnique(Flatten(TypeScriptToDotNet), b, i);
  }

  /** Where the flattened table lists a framework type. */
  function TableIndex(b: Builtin): int
  {
    match b
    case Int => 0 case Float => 1 case Decimal => 2 case Long => 3 case Byte => 4
    case SByte => 5 case Short => 6 case UShort => 7 case UInt => 8 case ULong => 9
    case String => 10 case Char => 11 case Bool => 12
    case DateTime => 13 case DateTimeOffset => 14 case Object => 15
    case Double => -1
  }

  lemma TableIndexPairs(b: Builtin)
    ensures TableName(b).Some? ==>
      0 <= TableIndex(b) < |Flatten(TypeScriptToDotNet)| && Flatten(TypeScriptToDotNet)[TableIndex(b)] == (b, TableName(b).value)
    ensures TableName(b).None? ==> forall i :: 0 <= i < |Flatten(TypeScriptToDotNet)| ==> Flatten(TypeScriptToDotNet)[i].0 != b
  {
    FlattenedTable();
  }

  /** Every listed type has exactly one name, so `First()` is well defined, and
      that name is the one the table pairs it with; a type the table does not
      list has none. */
  lemma LookupSingleName(b: Builtin)
    ensures TableName(b).Some? ==> LookupNames(TypeScriptToDotNet, b) == [TableName(b).value]
    ensures TableName(b).None? ==> LookupNames(TypeScriptToDotNet, b) == []
  {
    TableIndexPairs(b);
    if TableName(b).Some? {
      LookupAt(b, TableIndex(b));
    } else {
      NamesOfAbsent(Flatten(TypeScriptToDotNet), b);
    }
  }

  /** `DotNetTypeToTypeScriptTypeLookup.Contains(t)` for the table above,
      read off the table by `LookupIsTable`. */
  predicate Mapped(t: HostType)
  {
    t.builtin.Some? && TableName(t.builtin.value).Some?
  }

  /** `DotNetTypeToTypeScriptTypeLookup[t].First()`. */
  function MappedName(t: HostType): (r: string)
    requires Mapped(t)
  {
    TableName(t.builtin.value).value
  }

  /** `Lookup.Where(g => g.Contains(name)).Select(g => g.Key).Contains(t)`. */
  predicate MapsTo(t: HostType, name: string)
  {
    t.builtin.Some? && TableName(t.builtin.value) == Some(name)
  }

  /** The three predicates above are the lookup built from the dictionary:
      a type is in it exactly when the table lists it, its first (and only)
      name is the table's, and it is in the group of a name exactly when the
      table pairs it with that name. */
  lemma LookupIsTable(t: HostType, name: string)
    ensures Mapped(t) <==> InLookup(TypeScriptToDotNet, t)
    ensures Mapped(t) ==> LookupName(TypeScriptToDotNet, t) == Some(MappedName(t))
    ensures MapsTo(t, name) <==> t.builtin.Some? && name in LookupNames(TypeScriptToDotNet, t.builtin.value)
  {
    if t.builtin.Some? {
      LookupSingleName(t.builtin.value);
    }
  }

  /** `ToTypeScriptNamespace`: every '.' becomes '-', then the text is
      lower-cased. */
  function ToTypeScriptNamespace(ns: string): (r: string)
    ensures |r| == |ns|
    ensures '.' !in r
    ensures NoUpper(r)
    ensures forall i :: 0 <= i < |ns| ==> r[i] == if ns[i] == '.' then '-' else LowerChar(ns[i])
  {
    var r := Lower(ReplaceChar(ns, '.', '-'));
    assert forall i :: 0 <= i < |r| ==> r[i] != '.';
    r
  }

  /** `t.Namespace.ToTypeScriptNamespace()`: a type without a namespace
      raises. */
  function ConvertedNamespace(t: HostType): (r: Result<string>)
    ensures r.Err? <==> t.ns.None?
    ensures r.Err? ==> r.fault == NullReference
    ensures r.Ok? ==> r.value == ToTypeScriptNamespace(t.ns.value)
  {
    match t.ns
    case None => Err(NullReference)
    case Some(ns) => Ok(ToTypeScriptNamespace(ns))
  }

  /** Converting an already converted namespace changes nothing. */
  lemma ToTypeScriptNamespaceIdempotent(ns: string)
    ensures ToTypeScriptNamespace(ToTypeScriptNamespace(ns)) == ToTypeScriptNamespace(ns)
  {
    var r := ToTypeScriptNamespace(ns);
    var rr := ToTypeScriptNamespace(r);
    forall i | 0 <= i < |r| ensures rr[i] == r[i] {
      assert r[i] != '.' && !IsUpper(r[i]);
    }
  }

  lemma NamespaceExample()
    ensures ToTypeScriptNamespace("Typify.NET.Tests") == "typify-net-tests"
  {
    var r := ToTypeScriptNamespace("Typify.NET.Tests");
    assert r[0] == 't' && r[6] == '-' && r[7] == 'n' && r[8] == 'e' && r[9] == 't';
  }
}
