/** Character classes and string helpers shared by every generation of the generator.
    Case mapping is ASCII only: every other character is left as it is. */
module Text {

  predicate IsUpper(c: char) { 'A' <= c <= 'Z' }

  predicate IsLower(c: char) { 'a' <= c <= 'z' }

  predicate IsLetter(c: char) { IsUpper(c) || IsLower(c) }

  function LowerChar(c: char): (r: char)
    ensures !IsUpper(r)
    ensures IsUpper(c) ==> IsLower(r)
    ensures !IsUpper(c) ==> r == c
  {
    if IsUpper(c) then (c as int + 32) as char else c
  }

  function UpperChar(c: char): (r: char)
    ensures !IsLower(r)
    ensures IsLower(c) ==> IsUpper(r)
    ensures !IsLower(c) ==> r == c
  {
    if IsLower(c) then (c as int - 32) as char else c
  }

  /** `ToLower` / `ToLowerInvariant` on ASCII. */
  function Lower(s: string): (r: string)
    ensures |r| == |s|
    ensures forall i :: 0 <= i < |s| ==> r[i] == LowerChar(s[i])
  {
    seq(|s|, i requires 0 <= i < |s| => LowerChar(s[i]))
  }

  predicate NoUpper(s: string) { forall i :: 0 <= i < |s| ==> !IsUpper(s[i]) }

  /** `Replace(from, to)` on single characters. */
  function ReplaceChar(s: string, from: char, to: char): (r: string)
    ensures |r| == |s|
    ensures forall i :: 0 <= i < |s| ==> r[i] == if s[i] == from then to else s[i]
  {
    seq(|s|, i requires 0 <= i < |s| => if s[i] == from then to else s[i])
  }

  function Concat(xs: seq<string>): string
  {
    if |xs| == 0 then "" else xs[0] + Concat(xs[1..])
  }

  /** `string.Join(sep, xs)`: an empty sequence joins to "". */
  function Join(sep: string, xs: seq<string>): string
  {
    if |xs| == 0 then "" else if |xs| == 1 then xs[0] else xs[0] + sep + Join(sep, xs[1..])
  }

  predicate StartsWith(s: string, prefix: string) { |prefix| <= |s| && s[..|prefix|] == prefix }

  /** `new string(c, n)`. */
  function Repeat(c: char, n: nat): (r: string)
    ensures |r| == n && forall i :: 0 <= i < n ==> r[i] == c
  {
    seq(n, i => c)
  }

  function Tabs(n: nat): string { Repeat('\t', n) }

  /** The decimal text of an integer, as `int.ToString()` writes it. */
  function IntToString(n: int): string
    decreases if n < 0 then -n + 1 else n
  {
    if n < 0 then "-" + IntToString(-n)
    else if n < 10 then [('0' as int + n) as char]
    else IntToString(n / 10) + [('0' as int + n % 10) as char]
  }

  lemma {:induction false} ConcatAppend(xs: seq<string>, x: string)
    ensures Concat(xs + [x]) == Concat(xs) + x
  {
    if |xs| == 0 {
      assert xs + [x] == [x];
    } else {
      assert (xs + [x])[1..] == xs[1..] + [x];
      ConcatAppend(xs[1..], x);
    }
  }

  lemma {:induction false} JoinLength(sep: string, xs: seq<string>)
    requires |xs| > 0
    ensures |Join(sep, xs)| == |Concat(xs)| + (|xs| - 1) * |sep|
  {
    if |xs| > 1 {
      JoinLength(sep, xs[1..]);
    }
  }

  lemma {:induction false} JoinNoUpper(sep: string, xs: seq<string>)
    requires NoUpper(sep)
    requires forall k :: 0 <= k < |xs| ==> NoUpper(xs[k])
    ensures NoUpper(Join(sep, xs))
  {
    if |xs| > 1 {
      JoinNoUpper(sep, xs[1..]);
    }
  }

  /** `s.Split(sep)`: always at least one piece; an empty string is one empty piece. */
  function Split(s: string, sep: char): (r: seq<string>)
    ensures |r| >= 1
    ensures forall k :: 0 <= k < |r| ==> sep !in r[k]
  {
    if |s| == 0 then [""]
    else
      var rest := Split(s[1..], sep);
      if s[0] == sep then [""] + rest
      else [[s[0]] + rest[0]] + rest[1..]
  }

  /** Joining the pieces with the separator gives the string back. */
  lemma {:induction false} SplitJoin(s: string, sep: char)
    ensures Join([sep], Split(s, sep)) == s
  {
    if |s| > 0 {
      var rest := Split(s[1..], sep);
      SplitJoin(s[1..], sep);
      if s[0] == sep {
        assert Split(s, sep)[1..] == rest;
      } else {
        var r := Split(s, sep);
        if |rest| == 1 {
          assert r == [[s[0]] + rest[0]];
        } else {
          assert r[1..] == rest[1..];
          assert Join([sep], rest) == rest[0] + [sep] + Join([sep], rest[1..]);
        }
      }
    }
  }

  lemma {:induction false} SplitWithoutSeparator(s: string, sep: char)
    requires sep !in s
    ensures Split(s, sep) == [s]
  {
    if |s| > 0 {
      SplitWithoutSeparator(s[1..], sep);
      assert [s[0]] + s[1..] == s;
    }
  }

  /** One step of `Split`: the first character either ends the first piece
      or joins it. */
  lemma SplitStep(s: string, sep: char)
    requires |s| > 0
    ensures s[0] == sep ==> Split(s, sep) == [""] + Split(s[1..], sep)
    ensures s[0] != sep ==> Split(s, sep) == [[s[0]] + Split(s[1..], sep)[0]] + Split(s[1..], sep)[1..]
  {
  }

  /** Splitting at a separator placed between two strings splits each side. */
  lemma {:induction false} SplitAroundSeparator(a: string, sep: char, b: string)
    ensures Split(a + [sep] + b, sep) == Split(a, sep) + Split(b, sep)
  {
    var s := a + [sep] + b;
    if |a| == 0 {
      assert s == [sep] + b;
      SplitStep(s, sep);
      assert s[1..] == b;
    } else {
      var t := a[1..] + [sep] + b;
      assert s[0] == a[0] && s[1..] == t;
      SplitAroundSeparator(a[1..], sep, b);
      SplitStep(s, sep);
      SplitStep(a, sep);
      var ra, rb := Split(a[1..], sep), Split(b, sep);
      if a[0] != sep {
        assert (ra + rb)[0] == ra[0];
        assert (ra + rb)[1..] == ra[1..] + rb;
      }
    }
  }

  /** Joining pieces that hold no separator and splitting again gives the
      pieces back. */
  lemma {:induction false} JoinSplit(xs: seq<string>, sep: char)
    requires |xs| >= 1
    requires forall k :: 0 <= k < |xs| ==> sep !in xs[k]
    ensures Split(Join([sep], xs), sep) == xs
  {
    if |xs| == 1 {
      SplitWithoutSeparator(xs[0], sep);
    } else {
      JoinSplit(xs[1..], sep);
      SplitWithoutSeparator(xs[0], sep);
      SplitAroundSeparator(xs[0], sep, Join([sep], xs[1..]));
      assert xs == [xs[0]] + xs[1..];
    }
  }

  /** The pieces of each string in turn. */
  function SplitEach(xs: seq<string>, sep: char): seq<string>
  {
    if |xs| == 0 then [] else Split(xs[0], sep) + SplitEach(xs[1..], sep)
  }

  /** Joining at a separator and splitting again gives the pieces of each
      string in turn, whatever the strings hold. */
  lemma {:induction false} SplitJoinEach(xs: seq<string>, sep: char)
    requires |xs| >= 1
    ensures Split(Join([sep], xs), sep) == SplitEach(xs, sep)
  {
    if |xs| == 1 {
      assert SplitEach(xs[1..], sep) == [];
    } else {
      SplitJoinEach(xs[1..], sep);
      SplitAroundSeparator(xs[0], sep, Join([sep], xs[1..]));
    }
  }

  /** A character in neither the separator nor the pieces is not in their join. */
  lemma {:induction false} JoinWithout(sep: string, xs: seq<string>, c: char)
    requires c !in sep && forall k :: 0 <= k < |xs| ==> c !in xs[k]
    ensures c !in Join(sep, xs)
  {
    if |xs| > 1 {
      JoinWithout(sep, xs[1..], c);
    }
  }

  /** A first line without a separator comes back first. */
  lemma SplitLine(a: string, sep: char, rest: string)
    requires sep !in a
    ensures Split(a + [sep] + rest, sep) == [a] + Split(rest, sep)
  {
    SplitAroundSeparator(a, sep, rest);
    SplitWithoutSeparator(a, sep);
  }

  /** Three lines ended by a separator come back first. */
  lemma SplitThreeLines(a: string, b: string, c: string, sep: char, rest: string)
    requires sep !in a && sep !in b && sep !in c
    ensures Split(a + [sep] + b + [sep] + c + [sep] + rest, sep) == [a, b, c] + Split(rest, sep)
  {
    assert a + [sep] + b + [sep] + c + [sep] + rest == a + [sep] + (b + [sep] + (c + [sep] + rest));
    SplitLine(c, sep, rest);
    SplitLine(b, sep, c + [sep] + rest);
    SplitLine(a, sep, b + [sep] + (c + [sep] + rest));
  }

  /** A block written as `lead`, the header's end with its separator, the
      imports, the body and the separated closing line, grouped from the
      right after the header. */
  lemma LayoutBlock(lead: string, headerEnd: string, imports: string, body: string, closing: string, sep: char, rest: string)
    ensures lead + (headerEnd + [sep]) + imports + body + ([sep] + closing + [sep]) + rest
      == lead + headerEnd + [sep] + (imports + (body + [sep] + (closing + [sep] + rest)))
  {
  }

  /** A header line, lines read from `opening`, the lines of `body`, and a
      closing line, then the rest. */
  lemma SplitBlock(header: string, opening: string, openingLines: seq<string>, body: string, bodyLines: seq<string>,
                   closing: string, sep: char, rest: string)
    requires sep !in header && sep !in closing
    requires Split(opening + (body + [sep] + (closing + [sep] + rest)), sep)
      == openingLines + Split(body + [sep] + (closing + [sep] + rest), sep)
    requires Split(body, sep) == bodyLines
    ensures Split(header + [sep] + (opening + (body + [sep] + (closing + [sep] + rest))), sep)
      == [header] + openingLines + bodyLines + [closing] + Split(rest, sep)
  {
    var x3 := closing + [sep] + rest;
    var x2 := body + [sep] + x3;
    var r := Split(rest, sep);
    SplitLine(closing, sep, rest);
    SplitAroundSeparator(body, sep, x3);
    assert Split(x2, sep) == bodyLines + ([closing] + r);
    SplitLine(header, sep, opening + x2);
    assert Split(header + [sep] + (opening + x2), sep) == [header] + (openingLines + (bodyLines + ([closing] + r)));
    Regroup([header], openingLines, bodyLines + ([closing] + r));
    Regroup([header] + openingLines, bodyLines, [closing] + r);
    Regroup([header] + openingLines + bodyLines, [closing], r);
  }

  lemma Regroup<T>(a: seq<T>, b: seq<T>, c: seq<T>)
    ensures a + (b + c) == a + b + c
  {
  }

  /** A first line, a body and what follows the body's closing separator. */
  lemma SplitOpenBlock(first: string, body: string, after: string, sep: char)
    requires sep !in first
    ensures Split(first + [sep] + body + [sep] + after, sep) == [first] + Split(body, sep) + Split(after, sep)
  {
    assert first + [sep] + body + [sep] + after == first + [sep] + (body + [sep] + after);
    SplitAroundSeparator(body, sep, after);
    SplitLine(first, sep, body + [sep] + after);
  }

  /** A block glued after `lead`: its first line carries the lead, and the
      closing piece starts whatever follows. */
  lemma SplitLeadBlock(lead: string, header: string, body: string, closing: string, rest: string, sep: char)
    requires sep !in lead && sep !in header
    ensures Split(lead + ((header + [sep] + body + [sep] + closing) + rest), sep)
      == [lead + header] + Split(body, sep) + Split(closing + rest, sep)
  {
    assert lead + ((header + [sep] + body + [sep] + closing) + rest) == (lead + header) + [sep] + body + [sep] + (closing + rest);
    SplitOpenBlock(lead + header, body, closing + rest, sep);
  }
}
