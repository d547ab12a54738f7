/** Optional values, results, and the Python exceptions that the modelled code can raise. */
module Wrappers {

  datatype Option<+T> = None | Some(value: T) {
    function GetOr(default: T): T {
      match this
      case Some(v) => v
      case None => default
    }
  }

  datatype Result<+T, +E> = Ok(value: T) | Err(error: E) {
    predicate IsFailure() {
      Err?
    }

    function PropagateFailure<U>(): Result<U, E>
      requires Err?
    {
      Err(error)
    }

    function Extract(): T
      requires Ok?
    {
      value
    }
  }

  /** The exceptions that escape the modelled functions. */
  datatype PyError =
    | AttributeError(attribute: string)   // a method a value does not have, such as `get` on a string
    | TypeError(message: string)          // an operand or iteration of the wrong type
    | KeyError(column: string)            // a DataFrame column that does not exist
    | ValueError(message: string)         // an explicit raise, or a value a conversion refuses

  /** `[f(x) for x in xs]`: the first error raised, or every result in order. */
  function MapAll<X, Y, E>(f: X -> Result<Y, E>, xs: seq<X>): (r: Result<seq<Y>, E>)
    ensures r.Ok? ==> |r.value| == |xs|
    decreases |xs|
  {
    if |xs| == 0 then Ok([])
    else
      var y :- f(xs[0]);
      var ys :- MapAll(f, xs[1..]);
      Ok([y] + ys)
  }

  /** A mapping succeeds when every element does, and then holds every result in order. */
  lemma {:induction false} MapAllOk<X, Y, E>(f: X -> Result<Y, E>, xs: seq<X>)
    ensures MapAll(f, xs).Ok? <==> forall i :: 0 <= i < |xs| ==> f(xs[i]).Ok?
    ensures MapAll(f, xs).Ok? ==>
      |MapAll(f, xs).value| == |xs| && forall i :: 0 <= i < |xs| ==> MapAll(f, xs).value[i] == f(xs[i]).value
    decreases |xs|
  {
    if |xs| > 0 {
      MapAllOk(f, xs[1..]);
      assert forall i :: 1 <= i < |xs| ==> xs[1..][i - 1] == xs[i];
    }
  }

  /** Otherwise it fails with the first failing element's error. */
  lemma {:induction false} MapAllErr<X, Y, E>(f: X -> Result<Y, E>, xs: seq<X>, i: nat)
    requires i < |xs| && f(xs[i]).Err?
    requires forall j :: 0 <= j < i ==> f(xs[j]).Ok?
    ensures MapAll(f, xs) == Err(f(xs[i]).error)
    decreases i
  {
    if i > 0 {
      assert f(xs[0]).Ok?;
      MapAllErr(f, xs[1..], i - 1);
    }
  }
}
