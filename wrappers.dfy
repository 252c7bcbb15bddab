/** Option and Result values shared by every day: a `None` or an `Err` stands for the
    point where the Rust code panics (`expect`, `unwrap`) or returns an error. */
module Wrappers {

  datatype Option<T> = None | Some(value: T)

  datatype Result<T, E> = Ok(value: T) | Err(error: E)

  /** Each element mapped in order; the first error stops the whole, as a `collect` into a
      `Result` or an `expect` inside the `map` does. */
  function Collect<A, B, E>(xs: seq<A>, f: A -> Result<B, E>): (r: Result<seq<B>, E>)
    ensures r.Ok? <==> forall k :: 0 <= k < |xs| ==> f(xs[k]).Ok?
    ensures r.Ok? ==> |r.value| == |xs| && forall k :: 0 <= k < |xs| ==> f(xs[k]) == Ok(r.value[k])
  {
    if xs == [] then Ok([])
    else
      match f(xs[0])
      case Err(e) => Err(e)
      case Ok(first) =>
        var others := xs[1..];
        assert forall k :: 1 <= k < |xs| ==> xs[k] == others[k - 1];
        match Collect(others, f)
        case Err(e) => Err(e)
        case Ok(rest) => Ok([first] + rest)
  }
}
