/** Feeding a sequence of items, one at a time and with its zero-based
    position, to a step that either updates a state or fails: the shape of
    the line-by-line readers of a build configuration, which stop at the
    first line that panics. */
module Folds {
  import opened Wrappers

  /** The state after the first n items, or the error of the first of them
      that fails. */
  function Run<T, S, E>(step: (S, nat, T) -> Result<S, E>, start: S, items: seq<T>, n: nat): Result<S, E>
    requires n <= |items|
  {
    if n == 0 then Ok(start)
    else
      match Run(step, start, items, n - 1)
      case Err(e) => Err(e)
      case Ok(s) => step(s, n - 1, items[n - 1])
  }

  /** One item more: an error stays, otherwise the step decides. */
  lemma RunNext<T, S, E>(step: (S, nat, T) -> Result<S, E>, start: S, items: seq<T>, n: nat)
    requires n < |items|
    ensures Run(step, start, items, n + 1) ==
      match Run(step, start, items, n)
      case Err(e) => Err(e)
      case Ok(s) => step(s, n, items[n])
  {
  }

  /** Once an item fails, the outcome after any later count is that error. */
  lemma {:induction false} RunErrSticky<T, S, E>(step: (S, nat, T) -> Result<S, E>, start: S, items: seq<T>,
                                                 k: nat, n: nat, e: E)
    requires k <= n <= |items| && Run(step, start, items, k) == Err(e)
    ensures Run(step, start, items, n) == Err(e)
    decreases n
  {
    if n > k {
      RunErrSticky(step, start, items, k, n - 1, e);
    }
  }

  /** An item that fails after the ones before it succeeded decides the
      outcome of the whole sequence. */
  lemma RunFailsAt<T, S, E>(step: (S, nat, T) -> Result<S, E>, start: S, items: seq<T>, k: nat, e: E)
    requires k < |items| && Run(step, start, items, k).Ok?
    requires step(Run(step, start, items, k).value, k, items[k]) == Err(e)
    ensures Run(step, start, items, |items|) == Err(e)
  {
    RunErrSticky(step, start, items, k + 1, |items|, e);
  }
}
