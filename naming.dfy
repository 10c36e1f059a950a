/** Identifier casing: the regular-expression word splitter and the camelCase and
    snake_case conversions of `StringUtils` (the legacy `Utilities` class holds the same code). */
module Naming {
  import opened Text

  /** `NamingStrategy`; `Other` stands for any undeclared value the enum can hold. */
  datatype NamingStrategy = None | CamelCase | SnakeCase | Other(code: int)

  /** The splitter's pattern matches between s[i-1] and s[i] when one of its three
      alternatives holds: an upper-case letter followed by upper-then-lower, a
      non-upper-case character followed by an upper-case one, or a letter followed
      by a non-letter. Every alternative looks behind, so position 0 never matches,
      and no alternative matches at the very end. */
  predicate IsCut(s: string, i: int)
    requires 0 < i < |s|
  {
    || (IsUpper(s[i - 1]) && IsUpper(s[i]) && i + 1 < |s| && IsLower(s[i + 1]))
    || (!IsUpper(s[i - 1]) && IsUpper(s[i]))
    || (IsLetter(s[i - 1]) && !IsLetter(s[i]))
  }

  /** The words of s[start..], the current word starting at `start` and `i` the next
      position to test. */
  function SplitFrom(s: string, start: nat, i: nat): (w: seq<string>)
    requires start < i <= |s|
    ensures |w| >= 1
    decreases |s| - i
  {
    if i == |s| then [s[start..]]
    else if IsCut(s, i) then [s[start..i]] + SplitFrom(s, i, i + 1)
    else SplitFrom(s, start, i + 1)
  }

  /** `Regex.Split` with the splitter's pattern. The empty string splits into one empty word. */
  function SplitOnCapitalLetters(s: string): (w: seq<string>)
    ensures |w| >= 1
  {
    if |s| == 0 then [s] else SplitFrom(s, 0, 1)
  }

  /** Where word k starts inside the concatenation of the words. */
  function Offset(w: seq<string>, k: nat): nat
    requires k <= |w|
  {
    |Concat(w[..k])|
  }

  lemma {:induction false} OffsetCons(a: string, w: seq<string>, k: nat)
    requires k <= |w|
    ensures Offset([a] + w, k + 1) == |a| + Offset(w, k)
  {
    assert ([a] + w)[..k + 1] == [a] + w[..k];
    assert ([a] + w[..k])[1..] == w[..k];
  }

  /** The words of s[start..]: non-empty and concatenating back to it. */
  predicate WordsOf(s: string, start: nat, w: seq<string>)
    requires start <= |s|
  {
    Concat(w) == s[start..] && forall k :: 0 <= k < |w| ==> |w[k]| > 0
  }

  /** A non-empty word ending at i, then the words of s[i..]. */
  lemma WordsCons(s: string, start: nat, i: nat, rest: seq<string>)
    requires start < i <= |s| && WordsOf(s, i, rest)
    ensures WordsOf(s, start, [s[start..i]] + rest)
  {
    var w := [s[start..i]] + rest;
    assert w[1..] == rest;
    assert Concat(w) == s[start..i] + Concat(rest);
    assert s[start..] == s[start..i] + s[i..];
    assert forall k :: 1 <= k < |w| ==> w[k] == rest[k - 1];
  }

  lemma {:induction false} SplitFromConcat(s: string, start: nat, i: nat)
    requires start < i <= |s|
    ensures WordsOf(s, start, SplitFrom(s, start, i))
    decreases |s| - i
  {
    SplitFromStep(s, start, i);
    if i == |s| {
      assert Concat([s[start..]]) == s[start..] + Concat([]);
    } else if IsCut(s, i) {
      SplitFromConcat(s, i, i + 1);
      WordsCons(s, start, i, SplitFrom(s, i, i + 1));
    } else {
      SplitFromConcat(s, start, i + 1);
    }
  }

  /** Every word after the first starts at a position the pattern matches. */
  predicate StartsAreCuts(s: string, start: nat, w: seq<string>)
  {
    forall k :: 0 < k <= |w| ==> start + Offset(w, k) <= |s| && (k < |w| ==> 0 < start + Offset(w, k) < |s| && IsCut(s, start + Offset(w, k)))
  }

  /** No position strictly inside a word matches the pattern. */
  predicate InsidesAreNotCuts(s: string, start: nat, w: seq<string>)
  {
    forall k, p :: 0 <= k < |w| && start + Offset(w, k) < p < start + Offset(w, k) + |w[k]| ==> NotCutAt(s, p)
  }

  /** Position p lies inside s and the pattern does not match there. */
  predicate NotCutAt(s: string, p: int)
  {
    0 < p < |s| && !IsCut(s, p)
  }

  /** Word boundaries of a word ended by a cut at i, followed by the words from i. */
  lemma StartsCons(s: string, start: nat, i: nat, rest: seq<string>)
    requires start < i < |s| && IsCut(s, i)
    requires |rest| >= 1 && StartsAreCuts(s, i, rest)
    ensures StartsAreCuts(s, start, [s[start..i]] + rest)
  {
    var w := [s[start..i]] + rest;
    forall k | 0 < k <= |w|
      ensures start + Offset(w, k) <= |s| && (k < |w| ==> 0 < start + Offset(w, k) < |s| && IsCut(s, start + Offset(w, k)))
    {
      OffsetCons(s[start..i], rest, k - 1);
      if k == 1 {
        assert rest[..0] == [];
        assert Offset(w, k) == i - start;
      } else {
        assert 0 < k - 1 <= |rest|;
      }
    }
  }

  /** No cut inside a word with no cut before i, followed by the words from i. */
  lemma InsidesCons(s: string, start: nat, i: nat, rest: seq<string>)
    requires start < i < |s|
    requires forall j :: start < j < i ==> !IsCut(s, j)
    requires InsidesAreNotCuts(s, i, rest)
    ensures InsidesAreNotCuts(s, start, [s[start..i]] + rest)
  {
    var w := [s[start..i]] + rest;
    forall k, p | 0 <= k < |w| && start + Offset(w, k) < p < start + Offset(w, k) + |w[k]|
      ensures NotCutAt(s, p)
    {
      if k == 0 {
        assert w[..0] == [];
        assert Offset(w, 0) == |Concat([])| == 0;
        assert start < p < i;
      } else {
        OffsetCons(s[start..i], rest, k - 1);
        assert w[k] == rest[k - 1];
        assert i + Offset(rest, k - 1) < p < i + Offset(rest, k - 1) + |rest[k - 1]|;
        assert NotCutAt(s, p);
      }
    }
  }

  /** The splitter's first step: the last word, a word ended by a cut, or the same word. */
  lemma SplitFromStep(s: string, start: nat, i: nat)
    requires start < i <= |s|
    ensures i == |s| ==> SplitFrom(s, start, i) == [s[start..]]
    ensures i < |s| && IsCut(s, i) ==> SplitFrom(s, start, i) == [s[start..i]] + SplitFrom(s, i, i + 1)
    ensures i < |s| && !IsCut(s, i) ==> SplitFrom(s, start, i) == SplitFrom(s, start, i + 1)
  {
  }

  /** A single word has no later word to start anywhere. */
  lemma StartsLast(s: string, start: nat)
    requires start < |s|
    ensures StartsAreCuts(s, start, [s[start..]])
  {
    var w := [s[start..]];
    assert w[..1] == w;
    assert w[1..] == [];
    assert Concat(w) == s[start..] + Concat([]);
    assert Offset(w, 1) == |s| - start;
  }

  lemma {:induction false} SplitFromStarts(s: string, start: nat, i: nat)
    requires start < i <= |s|
    ensures StartsAreCuts(s, start, SplitFrom(s, start, i))
    decreases |s| - i, 1
  {
    SplitFromStep(s, start, i);
    if i == |s| {
      StartsLast(s, start);
    } else if IsCut(s, i) {
      SplitFromStarts(s, i, i + 1);
      StartsCons(s, start, i, SplitFrom(s, i, i + 1));
    } else {
      SplitFromStartsSkip(s, start, i);
    }
  }

  /** A position that is not a cut leaves the current word open. */
  lemma {:induction false} SplitFromStartsSkip(s: string, start: nat, i: nat)
    requires start < i < |s| && !IsCut(s, i)
    ensures StartsAreCuts(s, start, SplitFrom(s, start, i))
    decreases |s| - i, 0
  {
    SplitFromStep(s, start, i);
    SplitFromStarts(s, start, i + 1);
  }

  lemma {:induction false} SplitFromInsides(s: string, start: nat, i: nat)
    requires start < i <= |s|
    requires forall j :: start < j < i ==> !IsCut(s, j)
    ensures InsidesAreNotCuts(s, start, SplitFrom(s, start, i))
    decreases |s| - i, 1
  {
    SplitFromStep(s, start, i);
    if i == |s| {
      var w := [s[start..]];
      assert w[..0] == [];
      forall k, p | 0 <= k < |w| && start + Offset(w, k) < p < start + Offset(w, k) + |w[k]|
        ensures NotCutAt(s, p)
      {
        assert k == 0 && Offset(w, k) == 0;
      }
    } else if IsCut(s, i) {
      SplitFromInsides(s, i, i + 1);
      InsidesCons(s, start, i, SplitFrom(s, i, i + 1));
    } else {
      SplitFromInsidesSkip(s, start, i);
    }
  }

  /** A position that is not a cut leaves the current word open. */
  lemma {:induction false} SplitFromInsidesSkip(s: string, start: nat, i: nat)
    requires start < i < |s| && !IsCut(s, i)
    requires forall j :: start < j < i ==> !IsCut(s, j)
    ensures InsidesAreNotCuts(s, start, SplitFrom(s, start, i))
    decreases |s| - i, 0
  {
    SplitFromStep(s, start, i);
    SplitFromInsides(s, start, i + 1);
  }

  /** The splitter cuts exactly at the positions its pattern matches: the words are
      non-empty, concatenate back to the input, every word after the first starts at a
      matching position, and no position strictly inside a word matches. */
  lemma SplitSpec(s: string)
    requires |s| > 0
    ensures var w := SplitOnCapitalLetters(s);
      && Concat(w) == s
      && (forall k :: 0 <= k < |w| ==> |w[k]| > 0)
      && StartsAreCuts(s, 0, w)
      && InsidesAreNotCuts(s, 0, w)
  {
    SplitFromConcat(s, 0, 1);
    SplitFromStarts(s, 0, 1);
    SplitFromInsides(s, 0, 1);
  }

  /** `words[i].Substring(0, 1).ToUpper() + words[i].Substring(1)`. */
  function Capitalize(word: string): (r: string)
    ensures |r| == |word|
  {
    if |word| == 0 then word else [UpperChar(word[0])] + word[1..]
  }

  /** The later words of a camelCase name, each capitalised, in order. */
  function CapitalizedTail(ws: seq<string>): string
  {
    if |ws| == 0 then "" else Capitalize(ws[0]) + CapitalizedTail(ws[1..])
  }

  lemma {:induction false} CapitalizedTailAppend(ws: seq<string>, x: string)
    ensures CapitalizedTail(ws + [x]) == CapitalizedTail(ws) + Capitalize(x)
  {
    if |ws| == 0 {
      assert ws + [x] == [x];
    } else {
      assert (ws + [x])[1..] == ws[1..] + [x];
      CapitalizedTailAppend(ws[1..], x);
    }
  }

  /** What `ToCamelCase` returns: short strings unchanged; otherwise the first word
      lower-cased, then every later word with only its first character upper-cased. */
  function CamelCaseOf(s: string): string
  {
    if |s| < 2 then s
    else
      var w := SplitOnCapitalLetters(s);
      Lower(w[0]) + CapitalizedTail(w[1..])
  }

  /** `ToCamelCase`: builds the result word by word. */
  method ToCamelCase(str: string) returns (result: string)
    ensures result == CamelCaseOf(str)
  {
    if |str| < 2 {
      return str;
    }
    var words := SplitOnCapitalLetters(str);
    result := Lower(words[0]);
    for i := 1 to |words|
      invariant result + CapitalizedTail(words[i..]) == CamelCaseOf(str)
    {
      ghost var prev, rest := result, CapitalizedTail(words[i + 1..]);
      var next := Capitalize(words[i]);
      assert words[i..][1..] == words[i + 1..];
      assert CapitalizedTail(words[i..]) == next + rest;
      result := result + next;
      assert result + rest == prev + (next + rest);
    }
    assert words[|words|..] == [];
  }

  /** One character of a capitalised word run starting at `start`. */
  predicate CapitalizedFrom(s: string, start: nat, t: string)
  {
    && start < |s|
    && |t| == |s| - start
    && forall q :: 0 <= q < |t| ==>
         t[q] == if q == 0 || IsCut(s, start + q) then UpperChar(s[start + q]) else s[start + q]
  }

  /** A capitalised slice: its first character upper-cased, the rest kept. */
  lemma CapitalizeSlice(s: string, start: nat, i: nat)
    requires start < i <= |s|
    ensures var c := Capitalize(s[start..i]);
      |c| == i - start && forall q :: 0 <= q < |c| ==> c[q] == if q == 0 then UpperChar(s[start + q]) else s[start + q]
  {
    var word := s[start..i];
    var c := [UpperChar(word[0])] + word[1..];
    assert Capitalize(word) == c;
    forall q | 0 < q < |c|
      ensures c[q] == s[start + q]
    {
      assert c[q] == word[1..][q - 1] == word[q];
    }
  }

  /** A capitalised word with no cut inside it, followed by the capitalised
      rest that starts at a cut. */
  lemma CapitalizedFromCons(s: string, start: nat, i: nat, tail: string)
    requires start < i < |s| && IsCut(s, i)
    requires forall j :: start < j < i ==> !IsCut(s, j)
    requires CapitalizedFrom(s, i, tail)
    ensures CapitalizedFrom(s, start, Capitalize(s[start..i]) + tail)
  {
    var head := Capitalize(s[start..i]);
    CapitalizeSlice(s, start, i);
    var t := head + tail;
    forall q | 0 <= q < |t|
      ensures t[q] == if q == 0 || IsCut(s, start + q) then UpperChar(s[start + q]) else s[start + q]
    {
      if q < |head| {
        assert t[q] == head[q];
      } else {
        assert t[q] == tail[q - |head|];
        assert start + q == i + (q - |head|);
      }
    }
  }

  /** The last word: capitalised, with no cut inside it. */
  lemma CapitalizedFromLast(s: string, start: nat)
    requires start < |s|
    requires forall j :: start < j < |s| ==> !IsCut(s, j)
    ensures CapitalizedFrom(s, start, Capitalize(s[start..]))
  {
    CapitalizeSlice(s, start, |s|);
    assert s[start..] == s[start..|s|];
  }

  /** The splitter's last word, capitalised. */
  lemma CapitalizedTailLast(s: string, start: nat)
    requires start < |s|
    requires forall j :: start < j < |s| ==> !IsCut(s, j)
    ensures CapitalizedFrom(s, start, CapitalizedTail(SplitFrom(s, start, |s|)))
  {
    var w := SplitFrom(s, start, |s|);
    assert w == [s[start..]];
    assert CapitalizedTail(w) == Capitalize(s[start..]) + CapitalizedTail([]);
    CapitalizedFromLast(s, start);
  }

  /** A word ended by a cut at i, capitalised before the words from i. */
  lemma {:induction false} CapitalizedTailCut(s: string, start: nat, i: nat)
    requires start < i < |s| && IsCut(s, i)
    requires forall j :: start < j < i ==> !IsCut(s, j)
    ensures CapitalizedFrom(s, start, CapitalizedTail(SplitFrom(s, start, i)))
    decreases |s| - i, 0
  {
    CapitalizedTailFrom(s, i, i + 1);
    var w := SplitFrom(s, start, i);
    var rest := SplitFrom(s, i, i + 1);
    assert w == [s[start..i]] + rest;
    assert w[1..] == rest;
    assert CapitalizedTail(w) == Capitalize(s[start..i]) + CapitalizedTail(rest);
    CapitalizedFromCons(s, start, i, CapitalizedTail(rest));
  }

  /** A position that is not a cut leaves the current word open. */
  lemma {:induction false} CapitalizedTailSkip(s: string, start: nat, i: nat)
    requires start < i < |s| && !IsCut(s, i)
    requires forall j :: start < j < i ==> !IsCut(s, j)
    ensures CapitalizedFrom(s, start, CapitalizedTail(SplitFrom(s, start, i)))
    decreases |s| - i, 0
  {
    assert SplitFrom(s, start, i) == SplitFrom(s, start, i + 1);
    CapitalizedTailFrom(s, start, i + 1);
  }

  lemma {:induction false} CapitalizedTailFrom(s: string, start: nat, i: nat)
    requires start < i <= |s|
    requires forall j :: start < j < i ==> !IsCut(s, j)
    ensures CapitalizedFrom(s, start, CapitalizedTail(SplitFrom(s, start, i)))
    decreases |s| - i, 1
  {
    if i == |s| {
      CapitalizedTailLast(s, start);
    } else if IsCut(s, i) {
      CapitalizedTailCut(s, start, i);
    } else {
      CapitalizedTailSkip(s, start, i);
    }
  }

  lemma {:induction false} CamelFrom(s: string, i: nat)
    requires 0 < i <= |s|
    requires forall j :: 0 < j < i ==> !IsCut(s, j)
    ensures var w := SplitFrom(s, 0, i);
      var r := Lower(w[0]) + CapitalizedTail(w[1..]);
      && 0 < |w[0]|
      && |r| == |s|
      && forall p :: 0 <= p < |s| ==>
           r[p] == if p < |w[0]| then LowerChar(s[p]) else if IsCut(s, p) then UpperChar(s[p]) else s[p]
    decreases |s| - i
  {
    var w := SplitFrom(s, 0, i);
    if i == |s| {
      assert w == [s[0..]];
      assert w[1..] == [];
    } else if IsCut(s, i) {
      var rest := SplitFrom(s, i, i + 1);
      CapitalizedTailFrom(s, i, i + 1);
      assert w == [s[0..i]] + rest;
      assert w[1..] == rest;
    } else {
      CamelFrom(s, i + 1);
    }
  }

  /** `ToCamelCase` keeps the length of its input and changes characters only as its
      design says: the first word is lower-cased throughout, each later word has its
      first character (a position the splitter matches) upper-cased, and every other
      character is kept. */
  lemma CamelCaseSpec(s: string)
    requires |s| >= 2
    ensures var r := CamelCaseOf(s);
      var first := SplitOnCapitalLetters(s)[0];
      && 0 < |first|
      && |r| == |s|
      && forall p :: 0 <= p < |s| ==>
           r[p] == if p < |first| then LowerChar(s[p]) else if IsCut(s, p) then UpperChar(s[p]) else s[p]
  {
    CamelFrom(s, 1);
  }

  /** Short strings pass through both conversions unchanged. */
  lemma ShortNamesUnchanged(s: string)
    requires |s| < 2
    ensures CamelCaseOf(s) == s && SnakeCaseOf(s) == s
  {
  }

  function LowerAll(ws: seq<string>): (r: seq<string>)
    ensures |r| == |ws| && forall k :: 0 <= k < |ws| ==> r[k] == Lower(ws[k])
  {
    seq(|ws|, k requires 0 <= k < |ws| => Lower(ws[k]))
  }

  /** What `ToSnakeCase` returns: short strings unchanged; otherwise every word
      lower-cased and joined with "_". */
  function SnakeCaseOf(s: string): string
  {
    if |s| < 2 then s else Join("_", LowerAll(SplitOnCapitalLetters(s)))
  }

  /** `ToSnakeCase`: lower-cases the word array in place, then joins it. */
  method ToSnakeCase(str: string) returns (result: string)
    ensures result == SnakeCaseOf(str)
  {
    if |str| < 2 {
      return str;
    }
    var split := SplitOnCapitalLetters(str);
    var words := new string[|split|](i requires 0 <= i < |split| => split[i]);
    for i := 0 to words.Length
      invariant words[..] == LowerAll(split[..i]) + split[i..]
    {
      words[i] := Lower(words[i]);
      assert LowerAll(split[..i + 1]) == LowerAll(split[..i]) + [Lower(split[i])];
    }
    assert split[..words.Length] == split;
    assert words[..] == LowerAll(split);
    result := Join("_", words[..]);
  }

  lemma {:induction false} ConcatLower(ws: seq<string>)
    ensures Concat(LowerAll(ws)) == Lower(Concat(ws))
  {
    if |ws| > 0 {
      ConcatLower(ws[1..]);
      assert LowerAll(ws)[1..] == LowerAll(ws[1..]);
    }
  }

  /** A snake_case name has no upper-case letter, is one character longer than its
      input per word boundary, and gives the lower-cased input back once its
      separators are dropped. */
  lemma SnakeCaseSpec(s: string)
    requires |s| >= 2
    ensures var w := SplitOnCapitalLetters(s);
      var r := SnakeCaseOf(s);
      && NoUpper(r)
      && |r| == |s| + |w| - 1
      && Concat(LowerAll(w)) == Lower(s)
  {
    var w := SplitOnCapitalLetters(s);
    SplitSpec(s);
    ConcatLower(w);
    JoinLength("_", LowerAll(w));
    assert |Concat(LowerAll(w))| == |s|;
    forall k | 0 <= k < |w| ensures NoUpper(LowerAll(w)[k]) { }
    JoinNoUpper("_", LowerAll(w));
  }

  /** `FormatName`: camel-cased, snake-cased or verbatim by strategy; any value that is
      not a declared strategy falls back to verbatim. */
  function FormatName(name: string, strategy: NamingStrategy): (r: string)
    ensures strategy.CamelCase? ==> r == CamelCaseOf(name)
    ensures strategy.SnakeCase? ==> r == SnakeCaseOf(name)
    ensures !strategy.CamelCase? && !strategy.SnakeCase? ==> r == name
  {
    match strategy
    case CamelCase => CamelCaseOf(name)
    case SnakeCase => SnakeCaseOf(name)
    case _ => name
  }

  /** The fixture property `NullableInt` splits into "Nullable" and "Int". */
  lemma NullableIntExample()
    ensures SplitOnCapitalLetters("NullableInt") == ["Nullable", "Int"]
    ensures CamelCaseOf("NullableInt") == "nullableInt"
    ensures SnakeCaseOf("NullableInt") == "nullable_int"
  {
    var s := "NullableInt";
    assert !IsCut(s, 1) && !IsCut(s, 2) && !IsCut(s, 3) && !IsCut(s, 4);
    assert !IsCut(s, 5) && !IsCut(s, 6) && !IsCut(s, 7) && IsCut(s, 8);
    assert !IsCut(s, 9) && !IsCut(s, 10);
    assert s[8..] == "Int";
    assert SplitFrom(s, 8, 11) == ["Int"];
    assert SplitFrom(s, 8, 10) == ["Int"];
    assert SplitFrom(s, 8, 9) == ["Int"];
    assert s[0..8] == "Nullable";
    assert SplitFrom(s, 0, 8) == [s[0..8]] + SplitFrom(s, 8, 9);
    assert SplitFrom(s, 0, 8) == ["Nullable", "Int"];
    assert SplitFrom(s, 0, 7) == ["Nullable", "Int"];
    assert SplitFrom(s, 0, 6) == ["Nullable", "Int"];
    assert SplitFrom(s, 0, 5) == ["Nullable", "Int"];
    assert SplitFrom(s, 0, 4) == ["Nullable", "Int"];
    assert SplitFrom(s, 0, 3) == ["Nullable", "Int"];
    assert SplitFrom(s, 0, 2) == ["Nullable", "Int"];
    assert SplitFrom(s, 0, 1) == ["Nullable", "Int"];
    assert SplitOnCapitalLetters(s) == ["Nullable", "Int"];
    assert Lower("Nullable") == "nullable";
    assert Lower("Int") == "int";
    assert Capitalize("Int") == "Int";
  }
}
