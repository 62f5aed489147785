/** Failure-carrying wrappers shared by every module of the model. */
module Wrappers {

  datatype Option<+T> = None | Some(value: T)

  /** The Python exception classes the modelled code raises or lets escape. */
  datatype Exception =
    | KeyError            // a registry lookup of an absent key
    | ValueError          // a duplicate insertion, a wrong element kind, a bad constant
    | TypeError           // int(None) and friends, outside a handler that converts it
    | SchemaParsingError  // the XML layer's own error
    | AttributeError      // an attribute read on None
    | NameError           // a name the code uses but never defines

  datatype Result<+T> = Ok(value: T) | Err(error: Exception) {
    predicate IsFailure() { Err? }

    function PropagateFailure<U>(): Result<U>
      requires Err?
    {
      Err(error)
    }

    function Extract(): T
      requires Ok?
    {
      value
    }
  }

  /** A result without a value: a method that either returns normally or raises. */
  datatype Outcome = Pass | Fail(error: Exception) {
    predicate IsFailure() { Fail? }

    function PropagateFailure(): Outcome
      requires Fail?
    {
      this
    }
  }

  /**
   * A list comprehension whose item conversion may raise: every item is
   * converted, in order, and the first failure is the comprehension's.
   */
  function Collect<A, B>(f: A -> Result<B>, xs: seq<A>): (r: Result<seq<B>>)
    ensures r.Ok? <==> forall i :: 0 <= i < |xs| ==> f(xs[i]).Ok?
    ensures r.Ok? ==> |r.value| == |xs| && forall i :: 0 <= i < |xs| ==> r.value[i] == f(xs[i]).value
    ensures r.Err? ==> exists i :: 0 <= i < |xs| && f(xs[i]).Err? && r.error == f(xs[i]).error
                                 && forall k :: 0 <= k < i ==> f(xs[k]).Ok?
  {
    if xs == [] then Ok([])
    else
      var head :- f(xs[0]);
      var tail := Collect(f, xs[1..]);
      if tail.Err? then
        assert forall i :: 1 <= i <= |xs[1..]| ==> xs[1..][i - 1] == xs[i];
        Err(tail.error)
      else Ok([head] + tail.value)
  }
}
