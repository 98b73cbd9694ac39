/** The `f32` operations the colour code relies on, over the reals.

    Rust's `clamp`, `abs`, `min`, `rem_euclid` and `div_euclid` are written
    out here so that the colour modules can use them exactly as the crate
    does. NaN and rounding are not modelled. */
module Float {

  /** `x.abs()` */
  function Abs(x: real): (r: real)
    ensures r >= 0.0
    ensures r == x || r == -x
  {
    if x < 0.0 then -x else x
  }

  /** `x.min(y)`: the lesser of the two. */
  function Min(x: real, y: real): (r: real)
    ensures r <= x && r <= y
    ensures r == x || r == y
  {
    if x <= y then x else y
  }

  /** `x.clamp(lo, hi)`; Rust asserts `lo <= hi`, so that is demanded of callers. */
  function Clamp(x: real, lo: real, hi: real): (r: real)
    requires lo <= hi
    ensures lo <= r <= hi
    ensures lo <= x <= hi ==> r == x
    ensures x < lo ==> r == lo
    ensures x > hi ==> r == hi
  {
    if x < lo then lo else if x > hi then hi else x
  }

  /** True when `x` has no fractional part. */
  predicate IsIntegral(x: real) {
    x.Floor as real == x
  }

  /** `x.div_euclid(d)` for a positive divisor: the quotient rounded towards minus infinity. */
  function DivEuclid(x: real, d: real): (q: real)
    requires d > 0.0
    ensures IsIntegral(q)
    ensures q * d <= x < q * d + d
  {
    var q := (x / d).Floor as real;
    assert q <= x / d < q + 1.0;
    MulMonotone(q, x / d, d);
    MulMonotone(x / d, q + 1.0, d);
    assert (x / d) * d == x;
    assert (q + 1.0) * d == q * d + d;
    assert x < (q + 1.0) * d;
    assert q.Floor as real == q;
    q
  }

  /** `x.rem_euclid(d)` for a positive divisor: never negative, always below `d`,
      and `x` minus it is a whole multiple of `d`. */
  function RemEuclid(x: real, d: real): (r: real)
    requires d > 0.0
    ensures 0.0 <= r < d
    ensures r == x - DivEuclid(x, d) * d
  {
    var q := DivEuclid(x, d);
    assert q == (x / d).Floor as real;
    x - d * q
  }

  lemma MulMonotone(x: real, y: real, d: real)
    requires x <= y && d > 0.0
    ensures x * d <= y * d && d * x <= d * y
    ensures x < y ==> x * d < y * d && d * x < d * y
  {
  }

  /** Whole-multiple sectors: on `[k*d, (k+1)*d)` the quotient is `k` and the
      remainder is the offset from `k*d`. */
  lemma EuclidOnSector(x: real, d: real, k: int)
    requires d > 0.0
    requires k as real * d <= x < (k + 1) as real * d
    ensures DivEuclid(x, d) == k as real
    ensures RemEuclid(x, d) == x - k as real * d
  {
    var kr := k as real;
    var kr1 := (k + 1) as real;
    assert kr1 == kr + 1.0;
    QuotientWithin(x, kr, kr1, d);
    assert (x / d).Floor == k;
  }

  /** When `x` lies in `[k*d, j*d)` with `j = k+1`, the quotient `x/d` lies in `[k, k+1)`. */
  lemma QuotientWithin(x: real, k: real, j: real, d: real)
    requires d > 0.0 && j == k + 1.0
    requires k * d <= x < j * d
    ensures k <= x / d < j
  {
    var y := x / d;
    assert y * d == x;
    if y < k {
      MulMonotone(y, k, d);
    }
    if y >= j {
      MulMonotone(j, y, d);
    }
  }
}
