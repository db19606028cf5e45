/** Failure-carrying values shared by every module of the model: an absent
    value, and a computation that either produces a value or raises. */
module Results {

  datatype Option<+T> = None | Some(value: T)

  /** `Err` stands for a Python exception escaping the modelled routine. */
  datatype Result<+T, +E> = Ok(value: T) | Err(error: E) {
    predicate IsFailure() {
      Err?
    }

    function PropagateFailure<U>(): Result<U, E>
      requires Err?
    {
      Err(error)
    }

    function Extract(): T
      requires Ok?
    {
      value
    }
  }

  /** Applies `f` to every element in order; the first failure raises. */
  function MapResult<T, U, E>(xs: seq<T>, f: T -> Result<U, E>): (r: Result<seq<U>, E>)
    ensures r.Ok? <==> forall i :: 0 <= i < |xs| ==> f(xs[i]).Ok?
    ensures r.Ok? ==> |r.value| == |xs| && forall i :: 0 <= i < |xs| ==> f(xs[i]) == Ok(r.value[i])
    decreases |xs|
  {
    if |xs| == 0 then Ok([])
    else
      var head := f(xs[0]);
      var rest := MapResult(xs[1..], f);
      if head.Err? then Err(head.error)
      else if rest.Err? then
        var i :| 0 <= i < |xs[1..]| && f(xs[1..][i]).Err?;
        assert xs[i + 1] == xs[1..][i];
        Err(rest.error)
      else
        var r := [head.value] + rest.value;
        assert forall i :: 1 <= i < |xs| ==> xs[i] == xs[1..][i - 1] && r[i] == rest.value[i - 1];
        Ok(r)
  }
}
