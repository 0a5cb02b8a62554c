/**
  The few pieces of JavaScript's `Math` that the bid handler relies on, stated
  over unbounded integers and exact reals.
 */
module JsMath {

  /** `Math.max` on two integers. */
  function Max(a: int, b: int): (m: int)
    ensures m >= a && m >= b
    ensures m == a || m == b
  {
    if a < b then b else a
  }

  /** The range of a `Math.random()` draw: a real in [0, 1). */
  type Unit = r: real | 0.0 <= r < 1.0

  lemma ProductBelow(u: Unit, n: int)
    requires n >= 1
    ensures 0.0 <= u * n as real < n as real
  {
    var m := n as real;
    assert 0.0 <= u * m;
    assert (1.0 - u) * m > 0.0;
  }

  /**
    `Math.floor(Math.random() * n)`: the uniform index below `n` that the
    handler derives from one draw.
   */
  function Scale(u: Unit, n: int): (k: int)
    requires n >= 1
    ensures 0 <= k < n
  {
    ProductBelow(u, n);
    (u * n as real).Floor
  }

  /** The draw that lands exactly on index `k` of a range of size `n`. */
  function PickFor(k: int, n: int): (u: Unit)
    requires 0 <= k < n
    ensures u * n as real == k as real
  {
    (k as real) / (n as real)
  }

  /** Every index below `n` is produced by some draw, so `Scale` is onto [0, n). */
  lemma ScaleOnto(k: int, n: int)
    requires 0 <= k < n
    ensures Scale(PickFor(k, n), n) == k
  {
  }
}
