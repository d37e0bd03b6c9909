/** Failure-carrying results shared by the day modules: Rust's Option and Result. */
module Wrappers {

  datatype Option<+T> = None | Some(value: T) {

    /** Rust's `unwrap_or`. */
    function UnwrapOr(default: T): T {
      match this
      case Some(v) => v
      case None => default
    }
  }

  /** Rust's `collect::<Option<Vec<_>>>()`: all the values, or None if any is missing. */
  function AllSome<T>(xs: seq<Option<T>>): (r: Option<seq<T>>)
    ensures r.Some? <==> forall i :: 0 <= i < |xs| ==> xs[i].Some?
    ensures r.Some? ==> |r.value| == |xs| && forall i :: 0 <= i < |xs| ==> xs[i] == Some(r.value[i])
  {
    if xs == [] then Some([])
    else
      match (xs[0], AllSome(xs[1..]))
      case (Some(x), Some(rest)) => Some([x] + rest)
      case (None, _) => None
      case (_, None) =>
        var i :| 0 <= i < |xs[1..]| && xs[1..][i].None?;
        assert xs[i + 1].None?;
        None
  }

  /** Rust's `iter().map(f).collect::<Option<Vec<_>>>()`: every image, or None if any is missing. */
  function MapAll<A, B>(f: A -> Option<B>, xs: seq<A>): (r: Option<seq<B>>)
    ensures r.Some? <==> forall i :: 0 <= i < |xs| ==> f(xs[i]).Some?
    ensures r.Some? ==> |r.value| == |xs| && forall i :: 0 <= i < |xs| ==> f(xs[i]) == Some(r.value[i])
  {
    if xs == [] then Some([])
    else
      match (f(xs[0]), MapAll(f, xs[1..]))
      case (Some(x), Some(rest)) => Some([x] + rest)
      case (None, _) => None
      case (_, None) =>
        var i :| 0 <= i < |xs[1..]| && f(xs[1..][i]).None?;
        assert f(xs[i + 1]).None?;
        None
  }

  /** Collecting one more element: the images so far, followed by its own. */
  lemma MapAllStep<A, B>(f: A -> Option<B>, xs: seq<A>, i: nat, ys: seq<B>)
    requires i < |xs| && MapAll(f, xs[..i]) == Some(ys) && f(xs[i]).Some?
    ensures MapAll(f, xs[..i + 1]) == Some(ys + [f(xs[i]).value])
  {
    var front := xs[..i + 1];
    assert forall k :: 0 <= k < i ==> front[k] == xs[..i][k];
    var r := MapAll(f, front);
    assert r.Some?;
    assert r.value == ys + [f(xs[i]).value];
  }

  datatype Result<+T> = Ok(value: T) | Err(message: string)
}
