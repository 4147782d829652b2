/** Integer helpers shared by both renderers: the clamp of RaycastForm.Clamp and the
    C# conversions and operators that differ from Dafny's (truncating casts and remainders). */
module Numerics {

  /** RaycastForm.Clamp: `v` limited to `[lo, hi]`, testing the lower bound first. */
  function Clamp(v: int, lo: int, hi: int): (r: int)
    ensures lo <= hi ==> lo <= r <= hi
    ensures lo <= v <= hi ==> r == v
    ensures lo <= hi ==> forall u :: lo <= u <= hi ==> Dist(r, v) <= Dist(u, v)
    ensures v < lo ==> r == lo
  {
    if v < lo then lo
    else if v > hi then hi
    else v
  }

  function Dist(a: int, b: int): nat { if a < b then b - a else a - b }

  /** `int.MinValue` and `int.MaxValue`, the range of a C# `int`. */
  const IntMinValue: int := -0x8000_0000
  const IntMaxValue: int := 0x7FFF_FFFF

  /** `Math.Min` and `Math.Max` on integers. */
  function Min(a: int, b: int): int { if a <= b then a else b }
  function Max(a: int, b: int): int { if a >= b then a else b }

  /** C#'s `(int)x` on a double: truncation toward zero. */
  function Trunc(x: real): (r: int)
    ensures 0.0 <= x ==> r as real <= x < r as real + 1.0
    ensures x < 0.0 ==> r as real - 1.0 < x <= r as real
  {
    if x >= 0.0 then x.Floor else -((-x).Floor)
  }

  /** C#'s `%` (on int and float alike): the remainder of truncating division,
      which takes the sign of the dividend. Dafny's `%` is Euclidean. */
  function CsRem(a: int, n: int): (r: int)
    requires n > 0
    ensures 0 <= a ==> r == a % n
    ensures a < 0 ==> -n < r <= 0 && r == -((-a) % n)
  {
    if a >= 0 then a % n else -((-a) % n)
  }

  /** C#'s integer `/`: truncation toward zero. */
  function CsDiv(a: int, n: int): (q: int)
    requires n > 0
    ensures 0 <= a ==> q * n <= a < q * n + n
    ensures a < 0 ==> q * n - n < a <= q * n
  {
    if a >= 0 then a / n else -((-a) / n)
  }

  /** Index arithmetic of a row-major `w`-wide buffer: pixel `(x, y)` of a `w * h`
      buffer lies inside it. */
  lemma RowMajorIndex(w: int, h: int, x: int, y: int)
    requires 0 <= x < w && 0 <= y < h
    ensures 0 <= y * w + x < w * h
    ensures y * w + x + (w - x) <= w * h
  {
    assert y * w + w == (y + 1) * w;
    assert (y + 1) * w <= h * w by {
      MulMonotone(y + 1, h, w);
    }
  }

  lemma MulMonotone(a: int, b: int, c: int)
    requires a <= b && 0 <= c
    ensures a * c <= b * c
  {
    assert b * c - a * c == (b - a) * c;
  }

  /** Integer division of a non-negative bounded total by a positive count: the quotient
      brackets the total and inherits the per-item bound. */
  lemma DivBounds(total: int, n: int, bound: int)
    requires n > 0 && 0 <= total <= bound * n
    ensures 0 <= total / n <= bound
    ensures (total / n) * n <= total < (total / n + 1) * n
  {
    var q, r := total / n, total % n;
    assert total == q * n + r && 0 <= r < n;
    assert (q + 1) * n == q * n + n;
    assert (bound + 1) * n == bound * n + n;
    if q > bound {
      MulMonotone(bound + 1, q, n);
    }
    if q < 0 {
      MulMonotone(q, -1, n);
    }
  }

  /** The only `m` with `m * n <= v * n < (m + 1) * n` is `v` itself. */
  lemma BracketedQuotient(m: int, v: int, n: int)
    requires n > 0 && m * n <= v * n < (m + 1) * n
    ensures m == v
  {
    if m < v {
      MulMonotone(m + 1, v, n);
    } else if m > v {
      assert (v + 1) * n == v * n + n;
      MulMonotone(v + 1, m, n);
    }
  }
}
