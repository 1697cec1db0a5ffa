/** Success/failure results and the "first failure wins" sequencing that a
    Python loop gets from an exception escaping it. */
module Results {

  datatype Option<+T> = None | Some(value: T) {
    /** The wrapped value, or `default` when there is none. */
    function GetOr(default: T): T {
      match this
      case Some(v) => v
      case None => default
    }
  }

  datatype Result<+T, +E> = Success(value: T) | Failure(error: E)

  /** Runs the steps `rs` in order: all values when every step succeeds,
      otherwise the error of the first step that failed (later steps are
      never reached, as when an exception leaves a loop). */
  function AllOk<T, E>(rs: seq<Result<T, E>>): (r: Result<seq<T>, E>)
    ensures r.Success? <==> forall i :: 0 <= i < |rs| ==> rs[i].Success?
    ensures r.Success? ==> |r.value| == |rs|
    ensures r.Success? ==> forall i :: 0 <= i < |rs| ==> r.value[i] == rs[i].value
    ensures r.Failure? ==>
      exists i :: 0 <= i < |rs| && rs[i].Failure? && r.error == rs[i].error
        && forall j :: 0 <= j < i ==> rs[j].Success?
    decreases |rs|
  {
    if rs == [] then Success([])
    else
      match rs[0]
      case Failure(e) => Failure(e)
      case Success(v) =>
        match AllOk(rs[1..])
        case Failure(e) =>
          assert forall j :: 1 <= j < |rs| ==> rs[j] == rs[1..][j - 1];
          Failure(e)
        case Success(vs) => Success([v] + vs)
  }
}
