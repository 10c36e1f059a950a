/** The few framework routines the pipeline leans on, written out with the
    behaviour they have on Unix: `Path.GetExtension`, `Path.IsPathRooted` and
    `Version.TryParse`/`CompareTo`. */
module Platform {
  import opened Wrappers
  import opened Text

  /** `Path.GetExtension`, scanning back from the end of `path[..i]`: the
      first '.' met gives the extension (or nothing when it ends the path),
      and a '/' ends the search. */
  function ExtensionBefore(path: string, i: nat): (r: string)
    requires i <= |path|
    ensures |r| <= |path|
  {
    if i == 0 then ""
    else if path[i - 1] == '.' then (if i == |path| then "" else path[i - 1..])
    else if path[i - 1] == '/' then ""
    else ExtensionBefore(path, i - 1)
  }

  function GetExtension(path: string): (r: string)
    ensures |r| <= |path|
  {
    ExtensionBefore(path, |path|)
  }

  /** A character that ends the backwards scan. */
  predicate Stop(c: char) { c == '.' || c == '/' }

  lemma {:induction false} ExtensionBeforeSpec(path: string, i: nat)
    requires i <= |path|
    requires forall k :: i <= k < |path| ==> !Stop(path[k])
    ensures var r := ExtensionBefore(path, i);
      && (r != [] ==> |r| >= 2 && r[0] == '.' && r == path[|path| - |r|..]
                      && forall k :: 1 <= k < |r| ==> !Stop(r[k]))
      && (r == [] ==> forall j :: 0 <= j < i && j < |path| - 1 && path[j] == '.' ==>
                        exists k :: j < k < |path| && Stop(path[k]))
  {
    if i > 0 && path[i - 1] != '.' && path[i - 1] != '/' {
      ExtensionBeforeSpec(path, i - 1);
    } else if i > 0 {
      var r := ExtensionBefore(path, i);
      if r != [] {
        forall k | 1 <= k < |r| ensures !Stop(r[k]) {
          assert r[k] == path[i - 1 + k];
        }
      } else {
        forall j | 0 <= j < i && j < |path| - 1 && path[j] == '.'
          ensures exists k :: j < k < |path| && Stop(path[k])
        {
          if j < i - 1 {
            assert Stop(path[i - 1]);
          }
        }
      }
    }
  }

  /** The extension is either empty or a '.' followed by at least one
      character, ending the path, with no '.' or '/' after the dot; it is empty
      exactly when every '.' other than a final one is followed by another '.'
      or by a '/'. */
  lemma GetExtensionSpec(path: string)
    ensures var r := GetExtension(path);
      && (r != [] ==> |r| >= 2 && r[0] == '.' && r == path[|path| - |r|..]
                      && forall k :: 1 <= k < |r| ==> !Stop(r[k]))
      && (r == [] ==> forall j :: 0 <= j < |path| - 1 && path[j] == '.' ==>
                        exists k :: j < k < |path| && Stop(path[k]))
  {
    ExtensionBeforeSpec(path, |path|);
  }

  lemma ExtensionExamples()
    ensures GetExtension("typified.d.ts") == ".ts"
    ensures GetExtension("Entity.cs") == ".cs"
    ensures GetExtension("out.d/typings") == ""
    ensures GetExtension("notes.") == ""
    ensures GetExtension("") == ""
  {
    var a := "typified.d.ts";
    assert a[10] == '.' && a[11] == 't' && a[12] == 's';
    assert a[10..] == ".ts";
    assert ExtensionBefore(a, 11) == ".ts";
    assert ExtensionBefore(a, 12) == ".ts";
    var b := "Entity.cs";
    assert b[6] == '.' && b[7] == 'c' && b[8] == 's';
    assert b[6..] == ".cs";
    assert ExtensionBefore(b, 7) == ".cs";
    assert ExtensionBefore(b, 8) == ".cs";
    var c := "out.d/typings";
    assert c[5] == '/';
    assert ExtensionBefore(c, 6) == "";
    assert ExtensionBefore(c, 7) == "";
    assert ExtensionBefore(c, 8) == "";
    assert ExtensionBefore(c, 9) == "";
    assert ExtensionBefore(c, 10) == "";
    assert ExtensionBefore(c, 11) == "";
    assert ExtensionBefore(c, 12) == "";
  }

  /** `Path.IsPathRooted` on Unix: the path starts with '/'. */
  predicate IsPathRooted(path: string)
  {
    |path| > 0 && path[0] == '/'
  }

  /** `System.Version`; an unset build or revision is -1. */
  datatype Version = Version(major: int, minor: int, build: int, revision: int)

  const IntMax := 0x7FFF_FFFF

  predicate IsDigit(c: char) { '0' <= c <= '9' }

  predicate AllDigits(s: string) { forall k :: 0 <= k < |s| ==> IsDigit(s[k]) }

  function DigitsValue(s: string): (v: nat)
    requires AllDigits(s)
  {
    if |s| == 0 then 0 else DigitsValue(s[..|s| - 1]) * 10 + (s[|s| - 1] as int - '0' as int)
  }

  /** One version component: a non-empty run of ASCII digits whose value fits
      in an `int`. */
  function ParseComponent(s: string): (r: Option<nat>)
    ensures r.Some? ==> r.value <= IntMax
  {
    if |s| > 0 && AllDigits(s) && DigitsValue(s) <= IntMax then Some(DigitsValue(s)) else None
  }

  /** `Version.TryParse`: two to four dot-separated components. */
  function ParseVersion(s: string): (r: Option<Version>)
    ensures r.Some? ==> 2 <= |Split(s, '.')| <= 4
    ensures r.Some? ==> r.value.major >= 0 && r.value.minor >= 0 && r.value.build >= -1 && r.value.revision >= -1
    ensures r.Some? ==> (r.value.build == -1 <==> |Split(s, '.')| == 2)
    ensures r.Some? ==> (r.value.revision == -1 <==> |Split(s, '.')| < 4)
  {
    var parts := Split(s, '.');
    if |parts| < 2 || |parts| > 4 then None
    else
      var cs := seq(|parts|, k requires 0 <= k < |parts| => ParseComponent(parts[k]));
      if exists k :: 0 <= k < |cs| && cs[k].None? then None
      else Some(Version(cs[0].value, cs[1].value,
                        if |cs| > 2 then cs[2].value else -1,
                        if |cs| > 3 then cs[3].value else -1))
  }

  /** `Version.CompareTo(other) < 0`: lexicographic on the four fields. */
  predicate VersionLess(v: Version, w: Version)
  {
    if v.major != w.major then v.major < w.major
    else if v.minor != w.minor then v.minor < w.minor
    else if v.build != w.build then v.build < w.build
    else v.revision < w.revision
  }

  /** `new Version(2, 0)`. */
  const TypeScript2 := Version(2, 0, -1, -1)

  /** A parsed version is below 2.0 exactly when its major part is below 2. */
  lemma BelowTwoIffMajor(s: string)
    requires ParseVersion(s).Some?
    ensures VersionLess(ParseVersion(s).value, TypeScript2) <==> ParseVersion(s).value.major < 2
  {
  }

  /** The default target version parses as 2.2. */
  lemma DefaultVersionParses()
    ensures ParseVersion("2.2") == Some(Version(2, 2, -1, -1))
  {
    SplitWithoutSeparator("2", '.');
    assert "2.2"[1..] == ".2" && ".2"[1..] == "2" && ['2'] + "" == "2";
    assert Split("2.2", '.') == ["2", "2"];
  }

  /** "1.8" parses, with major part 1. */
  lemma OldVersionParses()
    ensures ParseVersion("1.8") == Some(Version(1, 8, -1, -1))
  {
    assert "8"[1..] == "" && ['8'] + "" == "8";
    assert Split("8", '.') == ["8"];
    assert Split(".8", '.') == ["", "8"];
    assert "1.8"[1..] == ".8" && ['1'] + "" == "1";
    assert Split("1.8", '.') == ["1", "8"];
  }

  /** Text without two components is not a version. */
  lemma NonVersionsFail()
    ensures ParseVersion("notaversionnumber").None?
    ensures ParseVersion("2").None?
  {
    assert forall k :: 0 <= k < |"notaversionnumber"| ==> "notaversionnumber"[k] != '.';
    SplitWithoutSeparator("notaversionnumber", '.');
    SplitWithoutSeparator("2", '.');
  }
}
