/**
 * `Math.round` on exact rationals, as the widgets use it on quotients of
 * whole numbers.
 */
module JsMath {
  type Pos = n: nat | n > 0 witness 1

  /** `Math.round(n / d)`: the nearest whole number, halves rounded up. */
  function Round(n: int, d: Pos): (r: int)
    ensures 2 * d * r <= 2 * n + d < 2 * d * r + 2 * d
    ensures n >= 0 ==> r >= 0
  {
    (2 * n + d) / (2 * d)
  }

  lemma MulMono(k: int, d: Pos)
    ensures k >= 1 ==> d * k >= d
    ensures k <= -1 ==> d * k + d <= 0
  {
  }

  /** Adding a whole multiple of the divisor shifts the rounded value. */
  lemma RoundShift(n: int, d: Pos, m: int)
    ensures Round(n + d * m, d) == Round(n, d) + m
  {
    var x := 2 * n + d;
    var D: Pos := 2 * d;
    var q := x / D;
    var q' := (x + D * m) / D;
    assert 2 * (n + d * m) + d == x + D * m;
    assert D * q' <= x + D * m < D * q' + D;
    assert D * (q + m) <= x + D * m < D * (q + m) + D;
    MulMono(q' - (q + m), D);
    assert D * q' - D * (q + m) == D * (q' - (q + m));
  }
}
