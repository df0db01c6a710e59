/** Exact-arithmetic models of the JavaScript number operations the colour
    formatters use: Math.round, Math.abs, Math.min, Math.max and the
    remainder operator `%`, which truncates towards zero. */
module JsMath {

  /** `Math.round`: the nearest integer, half-way cases going up. */
  function Round(x: real): (n: int)
    ensures x - 0.5 < n as real <= x + 0.5
  {
    (x + 0.5).Floor
  }

  /** `Math.abs`. */
  function Abs(x: real): (r: real)
    ensures 0.0 <= r && (r == x || r == -x)
  {
    if x < 0.0 then -x else x
  }

  /** `Math.min` on integers. */
  function Min(a: int, b: int): (r: int)
    ensures r <= a && r <= b && (r == a || r == b)
  {
    if a <= b then a else b
  }

  /** `Math.max` on integers. */
  function Max(a: int, b: int): (r: int)
    ensures a <= r && b <= r && (r == a || r == b)
  {
    if a >= b then a else b
  }

  /** `Math.trunc(a / n)` on integers: the quotient rounded towards zero. */
  function TruncQuotient(a: int, n: int): int
    requires n > 0
  {
    if a >= 0 then a / n else -((-a) / n)
  }

  /** `a % n` on integers: what is left of `a` after taking away the
      truncated quotient's multiple of `n`, so it takes the sign of `a`
      (unlike Dafny's `%`, which is never negative). */
  function IntRem(a: int, n: int): (r: int)
    requires n > 0
    ensures a >= 0 ==> 0 <= r < n
    ensures a < 0 ==> -n < r <= 0
    ensures a == n * TruncQuotient(a, n) + r
  {
    if a >= 0 then a % n else -((-a) % n)
  }

  lemma {:induction false} MultiplesApart(n: int, q1: int, q2: int)
    requires n > 0 && q1 < q2
    ensures n * q1 + n <= n * q2
    decreases q2 - q1
  {
    if q1 + 1 < q2 {
      MultiplesApart(n, q1, q2 - 1);
      MultiplesApart(n, q2 - 1, q2);
    } else {
      assert n * q2 == n * q1 + n;
    }
  }

  /** The contract of `IntRem` pins its value: any `r` that differs from `a`
      by a multiple of `n` and has the sign and size of a remainder is it. */
  lemma IntRemDetermined(a: int, n: int, q: int, r: int)
    requires n > 0
    requires a == n * q + r
    requires a >= 0 ==> 0 <= r < n
    requires a < 0 ==> -n < r <= 0
    ensures r == IntRem(a, n)
  {
    var q' := TruncQuotient(a, n);
    if q < q' {
      MultiplesApart(n, q, q');
    } else if q' < q {
      MultiplesApart(n, q', q);
    }
  }

  /** `a % n` on numbers: `a - n * trunc(a / n)`, again with the sign of `a`. */
  function RealRem(a: real, n: real): real
    requires n > 0.0
  {
    if a >= 0.0 then a - n * (a / n).Floor as real
    else -((-a) - n * ((-a) / n).Floor as real)
  }

  /** The remainder modulo 2, the only divisor the formatters use, lies in
      [0, 2) for a non-negative dividend and in (-2, 0] for a negative one. */
  lemma RealRemByTwo(a: real)
    ensures a >= 0.0 ==> 0.0 <= RealRem(a, 2.0) < 2.0
    ensures a < 0.0 ==> -2.0 < RealRem(a, 2.0) <= 0.0
  {
  }
}
