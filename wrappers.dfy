/** Optional values and results with an error, used for the source's
    `undefined` fields and its thrown exceptions. */
module Wrappers {

  datatype Option<+T> = None | Some(value: T) {
    /** The `??` operator: the value when present, the default otherwise. */
    function GetOr(default: T): T {
      match this
      case Some(v) => v
      case None => default
    }
  }

  datatype Result<+R, +E> = Ok(value: R) | Err(error: E)

  /** The values of the leading run of successes: the results a fail-fast
      loop gets through before its first error. */
  function OkPrefix<R, E>(results: seq<Result<R, E>>): (oks: seq<R>)
    ensures |oks| <= |results|
    ensures forall i :: 0 <= i < |oks| ==> results[i] == Ok(oks[i])
    ensures |oks| < |results| ==> results[|oks|].Err?
  {
    if results == [] then []
    else match results[0]
      case Err(_) => []
      case Ok(v) => [v] + OkPrefix(results[1..])
  }

  /** A loop that has got through `i` successes and meets another success
      at `i` is still inside the leading run; one that meets an error there
      has reached its end. */
  lemma OkPrefixStep<R, E>(results: seq<Result<R, E>>, i: nat)
    requires i <= |OkPrefix(results)| && i < |results|
    ensures results[i].Ok? ==> i < |OkPrefix(results)| && OkPrefix(results)[i] == results[i].value
    ensures results[i].Err? ==> i == |OkPrefix(results)|
  {
  }
}
