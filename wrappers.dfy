/** Optional values and results with an error, as the importer's JavaScript
    uses `null`/`undefined` and thrown errors. */
module Wrappers {

  datatype Option<+T> = None | Some(value: T)

  datatype Result<+T, +E> = Success(value: T) | Failure(error: E)

  /** `result` with `prefix` put in front of its value; a failure is kept. */
  function Prepend<T, E>(prefix: seq<T>, result: Result<seq<T>, E>): Result<seq<T>, E> {
    match result
    case Success(more) => Success(prefix + more)
    case Failure(e) => Failure(e)
  }

  lemma PrependAssoc<T, E>(a: seq<T>, b: seq<T>, r: Result<seq<T>, E>)
    ensures Prepend(a, Prepend(b, r)) == Prepend(a + b, r)
  {
    if r.Success? {
      assert a + (b + r.value) == (a + b) + r.value;
    }
  }
}
