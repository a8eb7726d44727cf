/** The array methods the formatters call: `filter` and a `map` whose callback
    may throw. */
module JsArrays {
  import opened JsValues

  /** `xs.filter(p)`: the elements satisfying `p`, in their original order. */
  function Filter<T>(xs: seq<T>, p: T -> bool): (r: seq<T>)
    ensures |r| <= |xs|
    ensures forall i :: 0 <= i < |r| ==> p(r[i])
  {
    if xs == [] then []
    else
      var rest := Filter(xs[1..], p);
      if p(xs[0]) then [xs[0]] + rest else rest
  }

  /** The filtered list is non-empty exactly when some element satisfies `p`. */
  lemma {:induction false} FilterNonEmptyIff<T>(xs: seq<T>, p: T -> bool)
    ensures |Filter(xs, p)| > 0 <==> exists i :: 0 <= i < |xs| && p(xs[i])
  {
    if xs != [] {
      FilterNonEmptyIff(xs[1..], p);
      if !p(xs[0]) && exists i :: 0 <= i < |xs| && p(xs[i]) {
        var i :| 0 <= i < |xs| && p(xs[i]);
        assert xs[i] == xs[1..][i - 1];
      }
    }
  }

  lemma FilterCons<T>(x: T, xs: seq<T>, p: T -> bool)
    ensures Filter([x] + xs, p) == (if p(x) then [x] else []) + Filter(xs, p)
  {
    assert ([x] + xs)[1..] == xs;
  }

  /** `xs.map(f)` where the callback may throw: the first exception escapes and
      no array is produced; otherwise the results line up with the inputs. */
  function MapOrThrow<T, U>(xs: seq<T>, f: T -> Result<U>): (r: Result<seq<U>>)
    ensures r.Success? <==> forall i :: 0 <= i < |xs| ==> f(xs[i]).Success?
    ensures r.Success? ==> |r.value| == |xs|
                           && forall i :: 0 <= i < |xs| ==> r.value[i] == f(xs[i]).value
  {
    if xs == [] then Success([])
    else
      match f(xs[0])
      case TypeError(m) => TypeError(m)
      case Success(y) =>
        var rest := MapOrThrow(xs[1..], f);
        assert forall i :: 1 <= i < |xs| ==> xs[i] == xs[1..][i - 1];
        match rest
        case TypeError(m) => TypeError(m)
        case Success(ys) => Success([y] + ys)
  }
}
