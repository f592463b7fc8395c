/** Python's integer `//` and `%`.

    Python rounds the quotient towards negative infinity, so the remainder
    takes the sign of the divisor: `7 % -3 == -2`.  Dafny's `/` and `%` are
    Euclidean (the remainder is never negative), which agrees with Python only
    for a positive divisor.  A zero divisor raises `ZeroDivisionError` in
    Python; the callers here check for it first.
 */
module PyArith {

  /** `x // m` */
  function FloorDiv(x: int, m: int): int
    requires m != 0
  {
    if m > 0 then x / m else (-x) / (-m)
  }

  /** `x % m`: the remainder has the sign of `m` (or is zero), is smaller
      than `m` in magnitude, and completes the division identity. */
  function Mod(x: int, m: int): (r: int)
    requires m != 0
    ensures x == FloorDiv(x, m) * m + r
    ensures m > 0 ==> 0 <= r < m
    ensures m < 0 ==> m < r <= 0
  {
    x - FloorDiv(x, m) * m
  }

  /** For a positive divisor Python's `%` is Dafny's `%`. */
  lemma ModPositive(x: int, m: int)
    requires m > 0
    ensures Mod(x, m) == x % m
  {
  }

  /** A multiple of `m` smaller than `m` in magnitude is zero. */
  lemma SmallMultiple(d: int, m: int)
    requires m > 0 && -m < d * m < m
    ensures d == 0
  {
  }

  /** Python's remainder is the unique value in range that differs from `x`
      by a multiple of `m`. */
  lemma ModUnique(x: int, m: int, q: int, r: int)
    requires m != 0 && x == q * m + r
    requires m > 0 ==> 0 <= r < m
    requires m < 0 ==> m < r <= 0
    ensures Mod(x, m) == r && FloorDiv(x, m) == q
  {
    var q', r' := FloorDiv(x, m), Mod(x, m);
    assert (q - q') * m == r' - r;
    if m > 0 {
      SmallMultiple(q - q', m);
    } else {
      assert (q' - q) * (-m) == r' - r;
      SmallMultiple(q' - q, -m);
    }
  }
}
