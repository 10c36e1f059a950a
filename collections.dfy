/** Order-preserving sequence helpers: `DistinctBy`, first-seen grouping and
    the append-if-absent idiom the pipeline uses to grow its work list. */
module Collections {

  /** The set of keys of the elements of `xs`. */
  function KeySet<T(==), K>(xs: seq<T>, key: T -> K): set<K>
  {
    set x | x in xs :: key(x)
  }

  /** Element `i` of `xs` is the first one carrying its key. */
  predicate FirstOfKey<T, K(==)>(xs: seq<T>, key: T -> K, i: int)
    requires 0 <= i < |xs|
  {
    forall j :: 0 <= j < i ==> key(xs[j]) != key(xs[i])
  }

  /** No two elements of `xs` share a key. */
  predicate DistinctKeys<T, K(==)>(xs: seq<T>, key: T -> K)
  {
    forall i, j :: 0 <= i < j < |xs| ==> key(xs[i]) != key(xs[j])
  }

  /** `xs` has no repeated element. */
  predicate NoDuplicates<T(==)>(xs: seq<T>)
  {
    forall i, j :: 0 <= i < j < |xs| ==> xs[i] != xs[j]
  }

  /** `idx` is a strictly increasing list of positions of `xs` at which the
      elements of `r` are found, in order. */
  ghost predicate Embedding<T>(r: seq<T>, xs: seq<T>, idx: seq<int>)
  {
    && |idx| == |r|
    && (forall k :: 0 <= k < |idx| ==> 0 <= idx[k] < |xs| && r[k] == xs[idx[k]])
    && (forall k, l :: 0 <= k < l < |idx| ==> idx[k] < idx[l])
  }

  /** What `DistinctBy` yields: walking `xs` from the left, an element is kept
      when its key has not been met before. */
  function Distinct<T(==), K(==)>(xs: seq<T>, key: T -> K): seq<T>
  {
    if |xs| == 0 then []
    else
      var init, last := xs[..|xs| - 1], xs[|xs| - 1];
      if key(last) in KeySet(init, key) then Distinct(init, key)
      else Distinct(init, key) + [last]
  }

  lemma KeySetSnoc<T, K>(xs: seq<T>, x: T, key: T -> K)
    ensures KeySet(xs + [x], key) == KeySet(xs, key) + {key(x)}
  {
    assert forall y :: y in xs + [x] <==> y in xs || y == x;
  }

  /** `DistinctBy`: a set of seen keys is grown while the input is walked;
      `HashSet.Add` succeeds exactly when the key is new. */
  method DistinctBy<T(==), K(==)>(source: seq<T>, key: T -> K) returns (result: seq<T>)
    ensures result == Distinct(source, key)
  {
    var seenKeys: set<K> := {};
    result := [];
    for i := 0 to |source|
      invariant result == Distinct(source[..i], key)
      invariant seenKeys == KeySet(source[..i], key)
    {
      var k := key(source[i]);
      assert source[..i + 1] == source[..i] + [source[i]];
      assert source[..i + 1][..i] == source[..i];
      KeySetSnoc(source[..i], source[i], key);
      if k !in seenKeys {
        seenKeys := seenKeys + {k};
        result := result + [source[i]];
      }
    }
    assert source[..|source|] == source;
  }

  /** The output is a subsequence of the input, and every element kept is the
      first of the input carrying its key. */
  lemma {:induction false} DistinctSubsequence<T, K>(xs: seq<T>, key: T -> K) returns (idx: seq<int>)
    ensures Embedding(Distinct(xs, key), xs, idx)
    ensures forall k :: 0 <= k < |idx| ==> 0 <= idx[k] < |xs| && FirstOfKey(xs, key, idx[k])
  {
    if |xs| == 0 {
      idx := [];
    } else {
      var init, last := xs[..|xs| - 1], xs[|xs| - 1];
      var pre := DistinctSubsequence(init, key);
      if key(last) in KeySet(init, key) {
        idx := pre;
      } else {
        idx := pre + [|xs| - 1];
        forall j | 0 <= j < |xs| - 1 ensures key(xs[j]) != key(last) {
          assert xs[j] == init[j];
        }
      }
      forall k | 0 <= k < |pre|
        ensures FirstOfKey(xs, key, pre[k])
      {
        assert FirstOfKey(init, key, pre[k]);
        assert forall j :: 0 <= j <= pre[k] ==> xs[j] == init[j];
      }
    }
  }

  /** Output keys are pairwise distinct and cover exactly the input keys. */
  lemma {:induction false} DistinctKeySets<T, K>(xs: seq<T>, key: T -> K)
    ensures DistinctKeys(Distinct(xs, key), key)
    ensures KeySet(Distinct(xs, key), key) == KeySet(xs, key)
  {
    if |xs| > 0 {
      var init, last := xs[..|xs| - 1], xs[|xs| - 1];
      DistinctKeySets(init, key);
      assert xs == init + [last];
      KeySetSnoc(init, last, key);
      var d := Distinct(init, key);
      if key(last) !in KeySet(init, key) {
        KeySetSnoc(d, last, key);
        forall i | 0 <= i < |d| ensures key(d[i]) != key(last) {
          assert d[i] in d;
        }
      }
    }
  }

  /** An input whose keys are already distinct comes back unchanged. */
  lemma {:induction false} DistinctOfDistinctKeys<T, K>(xs: seq<T>, key: T -> K)
    requires DistinctKeys(xs, key)
    ensures Distinct(xs, key) == xs
  {
    if |xs| > 0 {
      var init, last := xs[..|xs| - 1], xs[|xs| - 1];
      DistinctOfDistinctKeys(init, key);
      assert key(last) !in KeySet(init, key) by {
        forall y | y in init ensures key(y) != key(last) {
          var j :| 0 <= j < |init| && init[j] == y;
          assert xs[j] == y;
        }
      }
      assert xs == init + [last];
    }
  }

  /** `DistinctBy` is idempotent; on empty input it yields nothing. */
  lemma DistinctIdempotent<T, K>(xs: seq<T>, key: T -> K)
    ensures Distinct(Distinct(xs, key), key) == Distinct(xs, key)
    ensures |xs| == 0 ==> Distinct(xs, key) == []
  {
    DistinctKeySets(xs, key);
    DistinctOfDistinctKeys(Distinct(xs, key), key);
  }

  /** Every element of `Distinct(xs, key)` is an element of `xs`. */
  lemma DistinctElements<T, K>(xs: seq<T>, key: T -> K)
    ensures forall y :: y in Distinct(xs, key) ==> y in xs
  {
    var idx := DistinctSubsequence(xs, key);
    forall y | y in Distinct(xs, key) ensures y in xs {
      var k :| 0 <= k < |Distinct(xs, key)| && Distinct(xs, key)[k] == y;
      assert xs[idx[k]] == y;
    }
  }

  /** The key LINQ's `Distinct()` compares by: the element itself. */
  function Identity<T>(x: T): T { x }

  /** `Distinct()`: every element of the input, once. */
  lemma DistinctByIdentity<T>(xs: seq<T>)
    ensures forall y :: y in Distinct(xs, Identity) <==> y in xs
    ensures NoDuplicates(Distinct(xs, Identity))
  {
    DistinctElements(xs, Identity);
    DistinctKeySets(xs, Identity);
    assert forall y :: y in xs ==> Identity(y) in KeySet(xs, Identity);
  }

  /** The elements of `xs` whose key is `k`, in input order. */
  function WithKey<T(==), K(==)>(xs: seq<T>, key: T -> K, k: K): (r: seq<T>)
    ensures forall y :: y in r ==> y in xs && key(y) == k
  {
    if |xs| == 0 then []
    else if key(xs[0]) == k then [xs[0]] + WithKey(xs[1..], key, k)
    else WithKey(xs[1..], key, k)
  }

  /** `GroupBy`: one group per key, in the order keys are first met, each
      holding the elements with that key in input order. */
  function GroupBy<T(==), K(==)>(xs: seq<T>, key: T -> K): seq<(K, seq<T>)>
  {
    var firsts := Distinct(xs, key);
    seq(|firsts|, i requires 0 <= i < |firsts| => (key(firsts[i]), WithKey(xs, key, key(firsts[i]))))
  }

  /** The elements with key `k` are picked out of `xs` in order: exactly the
      positions holding that key, increasing. */
  lemma {:induction false} WithKeySubsequence<T, K>(xs: seq<T>, key: T -> K, k: K) returns (idx: seq<int>)
    ensures Embedding(WithKey(xs, key, k), xs, idx)
    ensures forall p :: 0 <= p < |xs| ==> (p in idx <==> key(xs[p]) == k)
  {
    if |xs| == 0 {
      idx := [];
    } else {
      var rest := WithKeySubsequence(xs[1..], key, k);
      var shifted := ShiftedEmbedding(xs, WithKey(xs[1..], key, k), rest);
      if key(xs[0]) == k {
        idx := [0] + shifted;
        ConsEmbedding(xs, WithKey(xs[1..], key, k), shifted);
        assert forall p :: 0 < p < |xs| ==> (p in idx <==> p in shifted);
      } else {
        idx := shifted;
        assert 0 !in idx;
      }
      forall p | 0 < p < |xs| ensures p in idx <==> key(xs[p]) == k {
        assert xs[p] == xs[1..][p - 1];
      }
    }
  }

  /** A non-empty sequence is its front followed by its last element. */
  lemma LastSplit<T>(xs: seq<T>)
    requires |xs| > 0
    ensures xs == xs[..|xs| - 1] + [xs[|xs| - 1]]
  {
  }

  /** The first element placed in front of an embedding that avoids position 0. */
  lemma ConsEmbedding<T>(xs: seq<T>, r: seq<T>, idx: seq<int>)
    requires |xs| > 0 && Embedding(r, xs, idx)
    requires forall k :: 0 <= k < |idx| ==> idx[k] > 0
    ensures Embedding([xs[0]] + r, xs, [0] + idx)
  {
  }

  /** An embedding still holds after an element is appended, and extends to
      that element at the new last position. */
  lemma SnocEmbedding<T>(r: seq<T>, xs: seq<T>, idx: seq<int>, x: T)
    requires Embedding(r, xs, idx)
    ensures Embedding(r, xs + [x], idx)
    ensures Embedding(r + [x], xs + [x], idx + [|xs|])
    ensures forall p :: p in idx ==> p < |xs|
  {
    assert forall k :: 0 <= k < |idx| ==> (xs + [x])[idx[k]] == xs[idx[k]];
  }

  /** An embedding into the tail, moved one position along. */
  lemma ShiftedEmbedding<T>(xs: seq<T>, r: seq<T>, rest: seq<int>) returns (shifted: seq<int>)
    requires |xs| > 0 && Embedding(r, xs[1..], rest)
    ensures Embedding(r, xs, shifted)
    ensures forall k :: 0 <= k < |shifted| ==> shifted[k] > 0
    ensures forall p :: 0 < p < |xs| ==> (p in shifted <==> p - 1 in rest)
  {
    shifted := seq(|rest|, i requires 0 <= i < |rest| => rest[i] + 1);
    forall p | 0 < p < |xs| ensures p in shifted <==> p - 1 in rest {
      if p - 1 in rest {
        var i :| 0 <= i < |rest| && rest[i] == p - 1;
        assert shifted[i] == p;
      }
    }
  }

  /** A subsequence of a subsequence of `c` is a subsequence of `c`. */
  lemma EmbeddingCompose<T>(a: seq<T>, b: seq<T>, c: seq<T>, ab: seq<int>, bc: seq<int>) returns (ac: seq<int>)
    requires Embedding(a, b, ab) && Embedding(b, c, bc)
    ensures Embedding(a, c, ac)
  {
    ac := seq(|ab|, k requires 0 <= k < |ab| => bc[ab[k]]);
  }

  lemma {:induction false} WithKeyOfMember<T, K>(xs: seq<T>, key: T -> K, y: T)
    requires y in xs
    ensures y in WithKey(xs, key, key(y))
  {
    if xs[0] != y {
      WithKeyOfMember(xs[1..], key, y);
    }
  }

  /** Group keys are pairwise distinct and are the input's keys; every group is
      non-empty, holds only elements of its key, and every input element sits
      in the group of its key. */
  lemma GroupByShape<T, K>(xs: seq<T>, key: T -> K)
    ensures var g := GroupBy(xs, key);
      && (forall i :: 0 <= i < |g| ==> g[i].1 == WithKey(xs, key, g[i].0))
      && (forall i, j :: 0 <= i < j < |g| ==> g[i].0 != g[j].0)
      && (set i | 0 <= i < |g| :: g[i].0) == KeySet(xs, key)
      && (forall i :: 0 <= i < |g| ==> |g[i].1| > 0 && forall y :: y in g[i].1 ==> y in xs && key(y) == g[i].0)
      && (forall y :: y in xs ==> exists i :: 0 <= i < |g| && g[i].0 == key(y) && y in g[i].1)
  {
    GroupKeys(xs, key);
    GroupsNonEmpty(xs, key);
    GroupsCover(xs, key);
  }

  lemma GroupKeys<T, K>(xs: seq<T>, key: T -> K)
    ensures var g, firsts := GroupBy(xs, key), Distinct(xs, key);
      && |g| == |firsts|
      && (forall i :: 0 <= i < |g| ==> g[i].0 == key(firsts[i]) && g[i].1 == WithKey(xs, key, g[i].0))
      && (forall i, j :: 0 <= i < j < |g| ==> g[i].0 != g[j].0)
      && (set i | 0 <= i < |g| :: g[i].0) == KeySet(xs, key)
  {
    var g, firsts := GroupBy(xs, key), Distinct(xs, key);
    DistinctKeySets(xs, key);
    assert (set i | 0 <= i < |g| :: g[i].0) == KeySet(firsts, key) by {
      forall k | k in KeySet(firsts, key) ensures k in (set i | 0 <= i < |g| :: g[i].0) {
        var y :| y in firsts && key(y) == k;
        var i :| 0 <= i < |firsts| && firsts[i] == y;
        assert g[i].0 == k;
      }
    }
  }

  lemma GroupsNonEmpty<T, K>(xs: seq<T>, key: T -> K)
    ensures var g := GroupBy(xs, key);
      forall i :: 0 <= i < |g| ==> |g[i].1| > 0 && forall y :: y in g[i].1 ==> y in xs && key(y) == g[i].0
  {
    var g, firsts := GroupBy(xs, key), Distinct(xs, key);
    DistinctElements(xs, key);
    forall i | 0 <= i < |g| ensures |g[i].1| > 0 {
      assert firsts[i] in firsts;
      WithKeyOfMember(xs, key, firsts[i]);
    }
  }

  lemma GroupsCover<T, K>(xs: seq<T>, key: T -> K)
    ensures var g := GroupBy(xs, key);
      forall y :: y in xs ==> exists i :: 0 <= i < |g| && g[i].0 == key(y) && y in g[i].1
  {
    var g, firsts := GroupBy(xs, key), Distinct(xs, key);
    DistinctKeySets(xs, key);
    forall y | y in xs ensures exists i :: 0 <= i < |g| && g[i].0 == key(y) && y in g[i].1 {
      assert key(y) in KeySet(firsts, key);
      var z :| z in firsts && key(z) == key(y);
      var i :| 0 <= i < |firsts| && firsts[i] == z;
      WithKeyOfMember(xs, key, y);
      assert g[i].0 == key(y) && y in g[i].1;
    }
  }

  /** Groups come in the order their keys are first met: `firsts[i]` is the
      position of the first element of group `i`, and these increase. */
  lemma GroupByOrder<T, K>(xs: seq<T>, key: T -> K) returns (firsts: seq<int>)
    ensures var g := GroupBy(xs, key);
      && |firsts| == |g|
      && (forall i :: 0 <= i < |g| ==> 0 <= firsts[i] < |xs| && key(xs[firsts[i]]) == g[i].0 && FirstOfKey(xs, key, firsts[i]))
      && (forall i, j :: 0 <= i < j < |g| ==> firsts[i] < firsts[j])
  {
    firsts := DistinctSubsequence(xs, key);
  }

  /** `AddRange(ys.Where(y => !list.Contains(y)))`: the filter is evaluated lazily
      while the list grows, so each element is appended when not yet present. */
  function AppendAbsent<T(==)>(xs: seq<T>, ys: seq<T>): seq<T>
  {
    if |ys| == 0 then xs
    else
      var r := AppendAbsent(xs, ys[..|ys| - 1]);
      var y := ys[|ys| - 1];
      if y in r then r else r + [y]
  }

  /** The old list is kept as a prefix, nothing is duplicated, and the result
      holds exactly the elements of both inputs. */
  lemma {:induction false} AppendAbsentSpec<T>(xs: seq<T>, ys: seq<T>)
    requires NoDuplicates(xs)
    ensures var r := AppendAbsent(xs, ys);
      && |xs| <= |r| && r[..|xs|] == xs
      && NoDuplicates(r)
      && forall z :: z in r <==> z in xs || z in ys
  {
    if |ys| > 0 {
      var init := ys[..|ys| - 1];
      AppendAbsentSpec(xs, init);
      assert ys == init + [ys[|ys| - 1]];
      var r := AppendAbsent(xs, init);
      var y := ys[|ys| - 1];
      if y !in r {
        assert (r + [y])[..|xs|] == r[..|xs|];
      }
    }
  }
}
