/**
 * `Math.random()` as an oracle. The oracle gives one number per call, and
 * the k-th call scaled to `[0, n)` is `Pick(rand, k, n)`. That stands for
 * `Math.floor(Math.random() * n)` and for `(Math.random() * 16) | 0`, which
 * agrees with it on `[0, 1)`. The password shuffle's comparator
 * `Math.random() - 0.5` is modelled as a choice of the next element with
 * `Pick`.
 */
module Random {

  type Oracle = nat -> nat

  /** The index `Math.floor(Math.random() * n)` returned by the k-th call. */
  function Pick(rand: Oracle, k: nat, n: nat): (i: nat)
    requires n > 0
    ensures i < n
  {
    rand(k) % n
  }
}
