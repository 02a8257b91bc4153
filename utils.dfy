/** Sequence helpers for the array idioms the schema model generator uses. */
module Utils {
  import opened Wrappers

  /**
   * `xs.map(f)` where `f` may throw: the callback runs on the elements in
   * order and the first error aborts the whole map.
   */
  function MapResult<A, B, E>(xs: seq<A>, f: A -> Result<B, E>): (r: Result<seq<B>, E>)
    ensures r.Ok? <==> forall i :: 0 <= i < |xs| ==> f(xs[i]).Ok?
    ensures r.Ok? ==> |r.value| == |xs| && forall i :: 0 <= i < |xs| ==> f(xs[i]) == Ok(r.value[i])
    ensures r.Err? ==>
      exists i :: 0 <= i < |xs| && f(xs[i]) == Err(r.error) && forall k :: 0 <= k < i ==> f(xs[k]).Ok?
    decreases |xs|
  {
    if xs == [] then Ok([])
    else
      match f(xs[0])
      case Err(e) => Err(e)
      case Ok(y) =>
        match MapResult(xs[1..], f)
        case Err(e) => Err(e)
        case Ok(ys) => Ok([y] + ys)
  }

  /** `filterTruthy`: keeps the present values, in order. */
  function FilterSome<T>(s: seq<Option<T>>): (r: seq<T>)
    ensures |r| <= |s|
    ensures forall i :: 0 <= i < |r| ==> Some(r[i]) in s
  {
    if s == [] then []
    else (if s[0].Some? then [s[0].value] else []) + FilterSome(s[1..])
  }

  lemma FilterSomeCons<T>(o: Option<T>, s: seq<Option<T>>)
    ensures FilterSome([o] + s) == (if o.Some? then [o.value] else []) + FilterSome(s)
  {
    assert ([o] + s)[1..] == s;
  }
}
