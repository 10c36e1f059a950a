/** The list of types to declare, grown the way both generators grow it:
    the roots are added when absent, then everything a search finds from
    them, made distinct, is added when absent. */
module Worklist {
  import opened Wrappers
  import opened Collections

  /** `SelectMany(search)` over `ts`, in order; the first failure stops it. */
  function SearchAll<T>(ts: seq<T>, search: T -> Result<seq<T>>): (r: Result<seq<T>>)
    ensures r.Ok? ==> forall u :: u in r.value ==> exists i :: 0 <= i < |ts| && search(ts[i]).Ok? && u in search(ts[i]).value
    ensures r.Ok? ==> forall i :: 0 <= i < |ts| ==> search(ts[i]).Ok? && forall u :: u in search(ts[i]).value ==> u in r.value
  {
    if |ts| == 0 then Ok([])
    else
      var init :- SearchAll(ts[..|ts| - 1], search);
      var last :- search(ts[|ts| - 1]);
      assert forall u :: u in init + last ==> u in init || u in last;
      assert forall i :: 0 <= i < |ts| - 1 ==> ts[i] == ts[..|ts| - 1][i];
      Ok(init + last)
  }

  /** Once a prefix fails, the whole search fails the same way. */
  lemma {:induction false} SearchAllStops<T>(ts: seq<T>, search: T -> Result<seq<T>>, i: nat)
    requires i <= |ts| && SearchAll(ts[..i], search).Err?
    ensures SearchAll(ts, search) == SearchAll(ts[..i], search)
    decreases |ts|
  {
    if i < |ts| {
      var init := ts[..|ts| - 1];
      assert init[..i] == ts[..i];
      SearchAllStops(init, search, i);
    } else {
      assert ts[..i] == ts;
    }
  }

  /** The grown list. */
  function Grow<T(==)>(roots: seq<T>, search: T -> Result<seq<T>>): (r: Result<seq<T>>)
  {
    var listed := AppendAbsent([], roots);
    var found :- SearchAll(listed, search);
    Ok(AppendAbsent(listed, Distinct(found, Identity)))
  }

  /** The list has no repeats, starts with the roots in first-seen order and
      holds each of them, and everything a root's search finds. */
  lemma GrowSpec<T>(roots: seq<T>, search: T -> Result<seq<T>>)
    requires Grow(roots, search).Ok?
    ensures var r := Grow(roots, search).value;
      && NoDuplicates(r)
      && (forall t :: t in roots ==> t in r)
      && |AppendAbsent([], roots)| <= |r| && r[..|AppendAbsent([], roots)|] == AppendAbsent([], roots)
      && (forall t :: t in roots ==> search(t).Ok? && forall u :: u in search(t).value ==> u in r)
  {
    var listed := AppendAbsent([], roots);
    AppendAbsentSpec([], roots);
    var found := SearchAll(listed, search).value;
    DistinctByIdentity(found);
    AppendAbsentSpec(listed, Distinct(found, Identity));
    assert forall t :: t in roots ==> t in listed;
  }

  /** Everything in the list that is not a root was found by searching a
      root. */
  lemma GrowFound<T>(roots: seq<T>, search: T -> Result<seq<T>>, u: T)
    requires Grow(roots, search).Ok?
    requires u in Grow(roots, search).value && u !in roots
    ensures exists t :: t in roots && search(t).Ok? && u in search(t).value
  {
    var listed := AppendAbsent([], roots);
    AppendAbsentSpec([], roots);
    var found := SearchAll(listed, search).value;
    DistinctElements(found, Identity);
    AppendAbsentSpec(listed, Distinct(found, Identity));
    assert u in Distinct(found, Identity);
    var i :| 0 <= i < |listed| && search(listed[i]).Ok? && u in search(listed[i]).value;
    assert listed[i] in listed;
  }

  /** The imperative growth: an append loop over the roots, a search loop,
      `Distinct()`, and an append loop over what was found. */
  method GetTypesToTypify<T(==)>(roots: seq<T>, search: T -> Result<seq<T>>) returns (r: Result<seq<T>>)
    ensures r == Grow(roots, search)
  {
    var types: seq<T> := [];
    for i := 0 to |roots|
      invariant types == AppendAbsent([], roots[..i])
    {
      assert roots[..i + 1][..i] == roots[..i];
      if roots[i] !in types {
        types := types + [roots[i]];
      }
    }
    assert roots[..|roots|] == roots;
    var found: seq<T> := [];
    for i := 0 to |types|
      invariant SearchAll(types[..i], search) == Ok(found)
    {
      assert types[..i + 1][..i] == types[..i];
      var more := search(types[i]);
      if more.Err? {
        SearchAllStops(types, search, i + 1);
        return Err(more.fault);
      }
      found := found + more.value;
    }
    assert types[..|types|] == types;
    var distinct := DistinctBy(found, Identity);
    var result := types;
    for i := 0 to |distinct|
      invariant result == AppendAbsent(types, distinct[..i])
    {
      assert distinct[..i + 1][..i] == distinct[..i];
      if distinct[i] !in result {
        result := result + [distinct[i]];
      }
    }
    assert distinct[..|distinct|] == distinct;
    return Ok(result);
  }
}
