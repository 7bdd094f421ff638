/**
 * `max<T: Ord>(first, second)`: the larger of two values under a total order, `first`
 * when they compare equal. The borrow lifetimes of the original carry no behaviour and
 * the references become plain values.
 */
module ExplicitLifetime {

  /**
   * What `Ord` promises of `<=`: a total preorder. Two values may compare equal without
   * being identical, which is what makes the tie-breaking rule observable.
   */
  ghost predicate TotalPreorder<T(!new)>(le: (T, T) -> bool) {
    && (forall x :: le(x, x))
    && (forall x, y, z :: le(x, y) && le(y, z) ==> le(x, z))
    && (forall x, y :: le(x, y) || le(y, x))
  }

  /** `if first >= second { first } else { second }`, with `a >= b` written `le(b, a)`. */
  function Max<T(!new)>(first: T, second: T, le: (T, T) -> bool): (r: T)
    requires TotalPreorder(le)
    ensures r == first || r == second
    ensures le(first, r) && le(second, r)
    ensures le(second, first) ==> r == first
    ensures !le(second, first) ==> r == second
  {
    if le(second, first) then first else second
  }

  /** On a tie, whichever way round, the first argument wins. */
  lemma MaxTieGoesToFirst<T(!new)>(first: T, second: T, le: (T, T) -> bool)
    requires TotalPreorder(le)
    requires le(first, second) && le(second, first)
    ensures Max(first, second, le) == first
    ensures Max(second, first, le) == second
  {
  }

  /** The program's own call, on integers: `max(5, 10)` is `10`. */
  lemma MaxExample()
    ensures Max(5, 10, (a: int, b: int) => a <= b) == 10
  {
  }
}
