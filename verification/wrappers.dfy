/** Failure-compatible wrappers used throughout the model.
    A Python `None` return and a Python exception that aborts the computation
    are both modelled as `None`; each member says which of the two it means. */
module Wrappers {

  datatype Option<+T> = None | Some(value: T) {

    predicate IsFailure() {
      None?
    }

    function PropagateFailure<U>(): Option<U>
      requires None?
    {
      None
    }

    function Extract(): T
      requires Some?
    {
      value
    }

    /** The carried value, or `default` when there is none. */
    function GetOr(default: T): T {
      match this
      case Some(v) => v
      case None => default
    }
  }

  /** Every value of a list of partial results, or `None` when any is missing:
      a loop that aborts at its first failing step. */
  function AllSome<T>(xs: seq<Option<T>>): (r: Option<seq<T>>)
    ensures r.Some? <==> forall i :: 0 <= i < |xs| ==> xs[i].Some?
    ensures r.Some? ==> |r.value| == |xs| && forall i :: 0 <= i < |xs| ==> r.value[i] == xs[i].value
  {
    if |xs| == 0 then Some([])
    else
      var init := AllSome(xs[..|xs| - 1]);
      var last := xs[|xs| - 1];
      if init.None? || last.None? then None else Some(init.value + [last.value])
  }
}
