/** Matrix entries that may be missing.

    The original program marks a missing reading, and the padding below a
    station's last row, with a floating-point NaN.  Here that sentinel is an
    explicit option: `None` is the missing entry, `Some(x)` a present one.
 */
module Cells {

  datatype Option<T> = None | Some(value: T)

  datatype Result<T, E> = Success(value: T) | Failure(error: E)

  /** One entry of the raw or of the output matrix. */
  type Cell = Option<real>

  /** A column of `n` missing entries, as `np.full(..., np.nan)` allocates. */
  function Missing(n: nat): (s: seq<Cell>)
    ensures |s| == n && forall k :: 0 <= k < n ==> s[k].None?
  {
    seq(n, _ => None)
  }

  predicate AllPresent(s: seq<Cell>) {
    forall k :: 0 <= k < |s| ==> s[k].Some?
  }

  predicate AllMissing(s: seq<Cell>) {
    forall k :: 0 <= k < |s| ==> s[k].None?
  }
}
