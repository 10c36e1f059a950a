/** The two text shapes every generation of the generator writes: the member
    line of an interface, and a block of indented lines between a header and a
    closing line. Each comes with the reading that recovers what was written. */
module Render {
  import opened Wrappers
  import opened Text

  /** `{(IsReadonly ? "readonly " : "")}{Name}{(IsNullable ? "?" : "")}: {Type};` */
  function MemberLine(isReadonly: bool, name: string, isNullable: bool, tsType: string): string
  {
    (if isReadonly then "readonly " else "") + Declaration(name, isNullable, tsType)
  }

  /** A member line is one line when its name and type are. */
  lemma MemberLinePlain(isReadonly: bool, name: string, isNullable: bool, tsType: string)
    requires '\n' !in name && '\n' !in tsType
    ensures '\n' !in MemberLine(isReadonly, name, isNullable, tsType)
  {
    var prefix, mark := if isReadonly then "readonly " else "", if isNullable then "?" else "";
    assert '\n' !in prefix && '\n' !in mark;
    assert MemberLine(isReadonly, name, isNullable, tsType) == prefix + (name + mark + ": " + tsType + ";");
  }

  /** The member line after any "readonly ". */
  function Declaration(name: string, isNullable: bool, tsType: string): string
  {
    name + (if isNullable then "?" else "") + ": " + tsType + ";"
  }

  /** `s.IndexOf(c)`: the first position of `c`, or -1. */
  function IndexOf(s: string, c: char): (r: int)
    ensures -1 <= r < |s|
    ensures r == -1 <==> c !in s
    ensures r >= 0 ==> s[r] == c && c !in s[..r]
  {
    if |s| == 0 then -1
    else if s[0] == c then 0
    else
      var k := IndexOf(s[1..], c);
      assert k >= 0 ==> s[..k + 1] == [s[0]] + s[1..][..k];
      if k == -1 then -1 else k + 1
  }

  /** A member name as identifiers are: no blank, colon or question mark. */
  predicate PlainName(name: string)
  {
    ' ' !in name && ':' !in name && '?' !in name
  }

  /** Reads the part of a member line after any "readonly " back into the
      name, the nullable flag and the type. */
  function DecodeDeclaration(rest: string): Option<(string, bool, string)>
  {
    var colon := IndexOf(rest, ':');
    if colon < 0 || |rest| < colon + 3 || rest[colon + 1] != ' ' || rest[|rest| - 1] != ';' then None
    else
      var isNullable := colon > 0 && rest[colon - 1] == '?';
      Some((rest[..if isNullable then colon - 1 else colon], isNullable, rest[colon + 2..|rest| - 1]))
  }

  /** Reads a member line back into its four parts. */
  function DecodeMemberLine(line: string): Option<(bool, string, bool, string)>
  {
    if StartsWith(line, "readonly ") then WithReadonly(true, DecodeDeclaration(line[9..]))
    else WithReadonly(false, DecodeDeclaration(line))
  }

  function WithReadonly(isReadonly: bool, d: Option<(string, bool, string)>): Option<(bool, string, bool, string)>
  {
    if d.None? then None else Some((isReadonly, d.value.0, d.value.1, d.value.2))
  }

  /** The first position holding `c` is `k` when `c` is there and not before. */
  lemma IndexOfAt(s: string, c: char, k: int)
    requires 0 <= k < |s| && s[k] == c && c !in s[..k]
    ensures IndexOf(s, c) == k
  {
    var r := IndexOf(s, c);
    assert c in s;
    forall j | 0 <= j < k ensures s[j] != c {
      assert s[..k][j] == s[j];
    }
    forall j | 0 <= j < r ensures s[j] != c {
      assert s[..r][j] == s[j];
    }
  }

  /** Decoding once the colon is found: what comes before it (less a "?"),
      and what lies between ": " and the final ";". */
  lemma DecodeAt(rest: string, at: int)
    requires IndexOf(rest, ':') == at && 0 <= at && |rest| >= at + 3
    requires rest[at + 1] == ' ' && rest[|rest| - 1] == ';'
    ensures var isNullable := at > 0 && rest[at - 1] == '?';
      DecodeDeclaration(rest) == Some((rest[..if isNullable then at - 1 else at], isNullable, rest[at + 2..|rest| - 1]))
  {
  }

  /** Where the parts of a declaration sit in its text. */
  lemma DeclarationLayout(name: string, q: string, tsType: string)
    requires ':' !in name + q
    ensures var rest, at := name + q + ": " + tsType + ";", |name| + |q|;
      && |rest| == at + 3 + |tsType|
      && rest[at] == ':' && rest[at + 1] == ' ' && rest[|rest| - 1] == ';'
      && rest[..at] == name + q
      && rest[at + 2..|rest| - 1] == tsType
  {
  }

  lemma DeclarationRoundTrip(name: string, isNullable: bool, tsType: string)
    requires ':' !in name && '?' !in name
    ensures DecodeDeclaration(Declaration(name, isNullable, tsType)) == Some((name, isNullable, tsType))
  {
    var q := if isNullable then "?" else "";
    var rest := name + q + ": " + tsType + ";";
    var at := |name| + |q|;
    assert rest == Declaration(name, isNullable, tsType);
    DeclarationLayout(name, q, tsType);
    IndexOfAt(rest, ':', at);
    DecodeAt(rest, at);
    if isNullable {
      assert rest[at - 1] == '?';
      assert rest[..at - 1] == (name + q)[..at - 1] == name;
    } else {
      assert rest[..at] == name;
      if at > 0 {
        assert rest[at - 1] == name[at - 1];
      }
    }
  }

  /** A line without "readonly " in front cannot be taken for one that has it
      when the name holds no blank and no colon. */
  lemma NoReadonlyPrefix(name: string, isNullable: bool, tsType: string)
    requires ' ' !in name && ':' !in name
    ensures !StartsWith(Declaration(name, isNullable, tsType), "readonly ")
  {
    var line := name + (if isNullable then "?" else "") + ": " + tsType + ";";
    if |name| >= 9 {
      assert line[8] == name[8];
    } else if isNullable && |name| == 8 {
      assert line[8] == '?';
    } else {
      var k := if isNullable then |name| + 1 else |name|;
      assert line[k] == ':' && k < 9;
      assert "readonly "[k] != ':';
    }
  }

  /** Text behind "readonly " is decoded as if the prefix were absent. */
  lemma DecodeReadonly(rest: string)
    ensures DecodeMemberLine("readonly " + rest) == WithReadonly(true, DecodeDeclaration(rest))
  {
    assert ("readonly " + rest)[..9] == "readonly ";
    assert ("readonly " + rest)[9..] == rest;
  }

  lemma ReadonlyLineRoundTrip(name: string, isNullable: bool, tsType: string)
    requires PlainName(name)
    ensures DecodeMemberLine(MemberLine(true, name, isNullable, tsType)) == Some((true, name, isNullable, tsType))
  {
    DeclarationRoundTrip(name, isNullable, tsType);
    DecodeReadonly(Declaration(name, isNullable, tsType));
  }

  lemma WritableLineRoundTrip(name: string, isNullable: bool, tsType: string)
    requires PlainName(name)
    ensures DecodeMemberLine(MemberLine(false, name, isNullable, tsType)) == Some((false, name, isNullable, tsType))
  {
    DeclarationRoundTrip(name, isNullable, tsType);
    NoReadonlyPrefix(name, isNullable, tsType);
    assert MemberLine(false, name, isNullable, tsType) == Declaration(name, isNullable, tsType);
  }

  /** Every member line reads back as the flags, name and type it was written
      from: "readonly " leads exactly when the member is read-only, and "?"
      follows the name exactly when it is nullable. */
  lemma MemberLineRoundTrip(isReadonly: bool, name: string, isNullable: bool, tsType: string)
    requires PlainName(name)
    ensures DecodeMemberLine(MemberLine(isReadonly, name, isNullable, tsType))
      == Some((isReadonly, name, isNullable, tsType))
  {
    if isReadonly {
      ReadonlyLineRoundTrip(name, isNullable, tsType);
    } else {
      WritableLineRoundTrip(name, isNullable, tsType);
    }
  }

  /** `indent + string.Join(suffix + "\n" + indent, items)` as lines: each item
      indented, every one but the last followed by `suffix`; no item still
      leaves one line holding only the indent. */
  function IndentedLines(indent: string, suffix: string, items: seq<string>): (r: seq<string>)
    ensures |r| == if |items| == 0 then 1 else |items|
  {
    if |items| == 0 then [indent]
    else seq(|items|, i requires 0 <= i < |items| => indent + items[i] + (if i < |items| - 1 then suffix else ""))
  }

  lemma {:induction false} JoinIndented(indent: string, suffix: string, items: seq<string>)
    ensures indent + Join(suffix + "\n" + indent, items) == Join("\n", IndentedLines(indent, suffix, items))
  {
    if |items| == 1 {
      var lines := IndentedLines(indent, suffix, items);
      assert lines[0] == indent + items[0] + "";
      assert indent + items[0] + "" == indent + items[0];
      assert lines == [indent + items[0]];
    } else if |items| > 1 {
      var rest := items[1..];
      JoinIndented(indent, suffix, rest);
      var lines := IndentedLines(indent, suffix, items);
      assert lines[1..] == IndentedLines(indent, suffix, rest);
      assert lines[0] == indent + items[0] + suffix;
      assert Join("\n", lines) == lines[0] + "\n" + Join("\n", lines[1..]);
    }
  }

  lemma {:induction false} JoinSnoc(sep: string, xs: seq<string>, x: string)
    requires |xs| >= 1
    ensures Join(sep, xs + [x]) == Join(sep, xs) + sep + x
  {
    if |xs| > 1 {
      assert (xs + [x])[1..] == xs[1..] + [x];
      JoinSnoc(sep, xs[1..], x);
    } else {
      assert (xs + [x])[1..] == [x];
    }
  }

  /** `header + "\n" + indent + Join(suffix + "\n" + indent, items) + "\n" + closing`. */
  function Block(header: string, indent: string, suffix: string, items: seq<string>, closing: string): string
  {
    header + "\n" + indent + Join(suffix + "\n" + indent, items) + "\n" + closing
  }

  /** A block reads back, line by line, as its header, one indented line per
      item and its closing line, when none of the parts holds a line break. */
  lemma BlockLines(header: string, indent: string, suffix: string, items: seq<string>, closing: string)
    requires '\n' !in header && '\n' !in indent && '\n' !in suffix && '\n' !in closing
    requires forall k :: 0 <= k < |items| ==> '\n' !in items[k]
    ensures Split(Block(header, indent, suffix, items, closing), '\n')
      == [header] + IndentedLines(indent, suffix, items) + [closing]
  {
    var lines := IndentedLines(indent, suffix, items);
    JoinIndented(indent, suffix, items);
    var all := [header] + lines + [closing];
    JoinSnoc("\n", [header] + lines, closing);
    assert ([header] + lines)[1..] == lines;
    assert Join("\n", all) == Block(header, indent, suffix, items, closing);
    forall k | 0 <= k < |all| ensures '\n' !in all[k] {
      if 0 < k < |all| - 1 {
        var i := k - 1;
        assert all[k] == lines[i];
        if |items| > 0 {
          assert lines[i] == indent + items[i] + (if i < |items| - 1 then suffix else "");
        }
      }
    }
    JoinSplit(all, '\n');
  }

  /** With no suffix, each item line is the indent followed by the item. */
  lemma BlockLinesPlain(header: string, indent: string, items: seq<string>, closing: string)
    requires '\n' !in header && '\n' !in indent && '\n' !in closing
    requires forall k :: 0 <= k < |items| ==> '\n' !in items[k]
    ensures var lines := Split(Block(header, indent, "", items, closing), '\n');
      && lines[0] == header
      && lines[|lines| - 1] == closing
      && (|items| > 0 ==> |lines| == |items| + 2 && forall k :: 0 <= k < |items| ==> lines[k + 1] == indent + items[k])
  {
    BlockLines(header, indent, "", items, closing);
    var lines := IndentedLines(indent, "", items);
    forall k | 0 <= k < |items| ensures lines[k] == indent + items[k] {
      assert indent + items[k] + "" == indent + items[k];
    }
  }
}
