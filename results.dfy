/** Failure-carrying values used where the source throws or may yield `undefined`. */
module Results {

  /** A value that may be absent (the source's `undefined`). */
  datatype Option<+T> = None | Some(value: T)

  /** Either a computed value or the error the source would throw. */
  datatype Result<+T, +E> = Ok(value: T) | Err(error: E)

  /**
   * `array.map(f)` where `f` may throw, given the outcome of `f` on each
   * element: the first error, in order, aborts the whole map; otherwise every
   * value, in order.
   */
  function AllOk<T, E>(rs: seq<Result<T, E>>): (r: Result<seq<T>, E>)
    ensures r.Ok? <==> forall i :: 0 <= i < |rs| ==> rs[i].Ok?
    ensures r.Ok? ==> |r.value| == |rs| && forall i :: 0 <= i < |rs| ==> rs[i] == Ok(r.value[i])
    ensures r.Err? ==> exists k :: 0 <= k < |rs| && rs[k] == Err(r.error) && forall i :: 0 <= i < k ==> rs[i].Ok?
  {
    if rs == [] then Ok([])
    else
      match rs[0]
      case Err(e) => Err(e)
      case Ok(v) =>
        match AllOk(rs[1..])
        case Err(e) =>
          assert forall i :: 1 <= i < |rs| ==> rs[i] == rs[1..][i - 1];
          Err(e)
        case Ok(vs) =>
          assert forall i :: 1 <= i < |rs| ==> rs[i] == rs[1..][i - 1];
          Ok([v] + vs)
  }
}
