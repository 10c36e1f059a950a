/** Option and Result, the failure-carrying values used throughout the model. */
module Wrappers {

  datatype Option<+T> = None | Some(value: T)

  /** Why an operation of the generator stopped instead of producing a value. */
  datatype Fault =
    /** `TypifyInvalidOptionException`: the offending option's name and value. */
    | InvalidOption(optionName: string, optionValue: string)
    /** `TypifyException` raised for a member that is neither a property nor a field. */
    | UnsupportedMember(runtimeType: string)
    /** A `NullReferenceException` from reading a type without a namespace. */
    | NullReference
    /** An `IndexOutOfRangeException` from reading a missing generic argument. */
    | IndexOutOfRange
    /** Any other exception, with its message. */
    | Failure(message: string)

  datatype Result<+T> = Ok(value: T) | Err(fault: Fault)
  {
    predicate IsFailure() { Err? }

    function PropagateFailure<U>(): Result<U>
      requires Err?
    {
      Err(fault)
    }

    function Extract(): T
      requires Ok?
    {
      value
    }
  }

  /** Every element mapped, in order; the first failure stops it. */
  function MapAll<T, U>(xs: seq<T>, f: T -> Result<U>): (r: Result<seq<U>>)
    ensures r.Ok? ==> |r.value| == |xs| && forall i :: 0 <= i < |xs| ==> f(xs[i]) == Ok(r.value[i])
    ensures r.Err? <==> exists i :: 0 <= i < |xs| && f(xs[i]).Err?
  {
    if |xs| == 0 then Ok([])
    else
      var init := MapAll(xs[..|xs| - 1], f);
      if init.Err? then
        assert forall i :: 0 <= i < |xs| - 1 ==> xs[..|xs| - 1][i] == xs[i];
        Err(init.fault)
      else
        match f(xs[|xs| - 1])
        case Err(fault) => Err(fault)
        case Ok(last) => Ok(init.value + [last])
  }

  /** Once a prefix fails, the whole map fails the same way. */
  lemma {:induction false} MapAllStops<T, U>(xs: seq<T>, f: T -> Result<U>, i: nat)
    requires i <= |xs| && MapAll(xs[..i], f).Err?
    ensures MapAll(xs, f) == MapAll(xs[..i], f)
    decreases |xs|
  {
    if i < |xs| {
      var init := xs[..|xs| - 1];
      assert init[..i] == xs[..i];
      MapAllStops(init, f, i);
    } else {
      assert xs[..i] == xs;
    }
  }
}
