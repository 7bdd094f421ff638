/**
 * The iterator adapters the address parser chains together, on finite sequences:
 * `filter_map` and `take`, each followed by `collect`.
 */
module Iterators {
  import opened Wrappers

  /**
   * `xs.into_iter().filter_map(f).collect()`: the values `f` yields, in order; elements for
   * which `f` yields nothing are skipped.
   */
  function FilterMap<A, B>(xs: seq<A>, f: A -> Option<B>): (r: seq<B>)
    ensures |r| <= |xs|
    decreases |xs|
  {
    if xs == [] then []
    else
      match f(xs[0])
      case Some(y) => [y] + FilterMap(xs[1..], f)
      case None => FilterMap(xs[1..], f)
  }

  /** A single element contributes its value if `f` yields one, and nothing otherwise. */
  lemma FilterMapSingle<A, B>(x: A, f: A -> Option<B>)
    ensures FilterMap([x], f) == if f(x).Some? then [f(x).value] else []
  {
    assert [x][1..] == [];
  }

  /** Filtering works element by element: the results for two runs are concatenated. */
  lemma {:induction false} FilterMapAppend<A, B>(xs: seq<A>, ys: seq<A>, f: A -> Option<B>)
    ensures FilterMap(xs + ys, f) == FilterMap(xs, f) + FilterMap(ys, f)
    decreases |xs|
  {
    if xs == [] {
      assert xs + ys == ys;
    } else {
      assert (xs + ys)[0] == xs[0];
      assert (xs + ys)[1..] == xs[1..] + ys;
      FilterMapAppend(xs[1..], ys, f);
      match f(xs[0])
      case Some(y) =>
        assert [y] + (FilterMap(xs[1..], f) + FilterMap(ys, f)) == [y] + FilterMap(xs[1..], f) + FilterMap(ys, f);
      case None =>
    }
  }

  /** An element for which `f` yields nothing contributes nothing and disturbs nothing around it. */
  lemma FilterMapSkip<A, B>(pre: seq<A>, x: A, post: seq<A>, f: A -> Option<B>)
    requires f(x).None?
    ensures FilterMap(pre + [x] + post, f) == FilterMap(pre + post, f)
  {
    assert pre + [x] + post == pre + ([x] + post);
    FilterMapAppend(pre, [x] + post, f);
    FilterMapAppend([x], post, f);
    FilterMapSingle(x, f);
    FilterMapAppend(pre, post, f);
  }

  /** When `f` yields a value for every element, the values line up with the elements. */
  lemma {:induction false} FilterMapAllSome<A, B>(xs: seq<A>, f: A -> Option<B>)
    requires forall i :: 0 <= i < |xs| ==> f(xs[i]).Some?
    ensures |FilterMap(xs, f)| == |xs|
    ensures forall i :: 0 <= i < |xs| ==> FilterMap(xs, f)[i] == f(xs[i]).value
    decreases |xs|
  {
    if xs != [] {
      FilterMapAllSome(xs[1..], f);
      assert f(xs[0]).Some?;
    }
  }

  /** `.take(n)` followed by `.collect()`: the first `n` elements, or all of them if fewer. */
  function Take<T>(xs: seq<T>, n: nat): (r: seq<T>)
    ensures |r| == if |xs| < n then |xs| else n
    ensures r <= xs
  {
    if |xs| <= n then xs else xs[..n]
  }
}
