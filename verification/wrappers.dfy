/** Option and Result, the failure-compatible wrappers used by every parser of the model. */
module Wrappers {

  datatype Option<+T> = None | Some(value: T)

  /** Ok carries a parsed value; Err carries the reason the source raises an exception. */
  datatype Result<+T, +E> = Ok(value: T) | Err(error: E) {

    predicate IsFailure() {
      Err?
    }

    function PropagateFailure<U>(): Result<U, E>
      requires Err?
    {
      Err(error)
    }

    function Extract(): T
      requires Ok?
    {
      value
    }
  }

  /**
    Gathers the values of a sequence of results, failing with the first
    failure, as a loop that raises at the first bad element does.
  */
  function Collect<T, E>(rs: seq<Result<T, E>>): (r: Result<seq<T>, E>)
    ensures r.Ok? <==> forall k :: 0 <= k < |rs| ==> rs[k].Ok?
    ensures r.Ok? ==> |r.value| == |rs| && forall k :: 0 <= k < |rs| ==> r.value[k] == rs[k].value
    ensures r.Err? ==> exists k :: 0 <= k < |rs| && rs[k].Err? && rs[k].error == r.error && forall j :: 0 <= j < k ==> rs[j].Ok?
  {
    if rs == [] then Ok([])
    else if rs[0].Err? then Err(rs[0].error)
    else
      var rest := Collect(rs[1..]);
      if rest.Err? then
        assert exists k :: 0 <= k < |rs| && rs[k].Err? && rs[k].error == rest.error && forall j :: 0 <= j < k ==> rs[j].Ok? by {
          var k :| 0 <= k < |rs| - 1 && rs[1..][k].Err? && rs[1..][k].error == rest.error && forall j :: 0 <= j < k ==> rs[1..][j].Ok?;
          assert rs[k + 1] == rs[1..][k];
          assert forall j :: 1 <= j < k + 1 ==> rs[j] == rs[1..][j - 1];
        }
        Err(rest.error)
      else Ok([rs[0].value] + rest.value)
  }
}
