/** Optional values and success-or-error results, used wherever the
    extension either has nothing to report or raises an exception. */
module Outcomes {

  datatype Option<+T> = None | Some(value: T) {
    function GetOr(default: T): T {
      match this
      case Some(v) => v
      case None => default
    }
  }

  datatype Result<+T, +E> = Ok(value: T) | Err(error: E)

  /** The values of `rs` in order when every one succeeded; otherwise the
      error of the first one that failed, as a loop that raises would. */
  function Collect<T, E>(rs: seq<Result<T, E>>): (r: Result<seq<T>, E>)
    ensures r.Ok? <==> forall i :: 0 <= i < |rs| ==> rs[i].Ok?
    ensures r.Ok? ==> |r.value| == |rs|
    ensures r.Err? ==> exists i :: 0 <= i < |rs| && rs[i].Err? && r.error == rs[i].error
                                   && forall j :: 0 <= j < i ==> rs[j].Ok?
  {
    if rs == [] then Ok([])
    else
      match rs[0]
      case Err(e) => Err(e)
      case Ok(v) =>
        match Collect(rs[1..])
        case Err(e) =>
          assert forall i :: 0 <= i < |rs[1..]| ==> rs[1..][i] == rs[i + 1];
          Err(e)
        case Ok(rest) =>
          assert forall i :: 1 <= i < |rs| ==> rs[i] == rs[1..][i - 1];
          Ok([v] + rest)
  }

  /** Value `i` of a successful collection is the value of result `i`. */
  lemma {:induction false} CollectOrder<T, E>(rs: seq<Result<T, E>>, i: nat)
    requires Collect(rs).Ok? && i < |rs|
    ensures rs[i].Ok? && Collect(rs).value[i] == rs[i].value
    decreases i
  {
    if i > 0 {
      assert rs[1..][i - 1] == rs[i];
      CollectOrder(rs[1..], i - 1);
    }
  }
}
