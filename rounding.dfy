/**
 * Exact floor and ceiling of a rational number n / d.
 *
 * The loan service divides an integer amount by an integer term count with
 * PHP's `/` and rounds with `floor` and `ceil`. Every value it rounds is a
 * rational whose denominator is the term count, so the model carries the
 * numerator as an integer and rounds it exactly here.
 */
module Rounding {

  /** The greatest integer not above n / d (d may be negative, never zero). */
  function Floor(n: int, d: int): (f: int)
    requires d != 0
    ensures d > 0 ==> f * d <= n < f * d + d
    ensures d < 0 ==> f * d >= n > f * d + d
  {
    if d > 0 then n / d else (-n) / (-d)
  }

  /** The least integer not below n / d. */
  function Ceil(n: int, d: int): (c: int)
    requires d >= 1
    ensures c * d - d < n <= c * d
  {
    var q := (n + d - 1) / d;
    assert n + d - 1 == q * d + (n + d - 1) % d;
    q
  }

  /** Below b by a whole unit or more stays so after scaling by a positive d. */
  lemma MulOrder(a: int, b: int, d: int)
    requires d >= 1
    ensures a < b ==> (a + 1) * d <= b * d
  {
    assert b * d - (a + 1) * d == (b - a - 1) * d;
    if a < b {
      assert (b - a - 1) * d >= 0;
    }
  }

  /** Any integer with the floor's defining bounds is the floor. */
  lemma {:induction false} FloorUnique(n: int, d: int, f: int)
    requires d >= 1
    requires f * d <= n < f * d + d
    ensures Floor(n, d) == f
  {
    MulOrder(Floor(n, d), f, d);
    MulOrder(f, Floor(n, d), d);
  }

  /** Any integer with the ceiling's defining bounds is the ceiling. */
  lemma {:induction false} CeilUnique(n: int, d: int, c: int)
    requires d >= 1
    requires c * d - d < n <= c * d
    ensures Ceil(n, d) == c
  {
    MulOrder(Ceil(n, d), c, d);
    MulOrder(c, Ceil(n, d), d);
  }

  /** The ceiling of m / d for 0 <= m < 2d is 0, 1 or 2, and 0 only for m = 0. */
  lemma {:induction false} CeilBelowTwo(m: int, d: int)
    requires d >= 1 && 0 <= m < 2 * d
    ensures 0 <= Ceil(m, d) <= 2
    ensures Ceil(m, d) == 0 <==> m == 0
  {
    var c := Ceil(m, d);
    MulOrder(c, 0, d);
    MulOrder(0, c, d);
    MulOrder(2, c, d);
  }

  /** Adding a whole multiple of the denominator shifts the ceiling by that whole number. */
  lemma {:induction false} CeilShift(k: int, n: int, d: int)
    requires d >= 1
    ensures Ceil(k * d + n, d) == k + Ceil(n, d)
  {
    var c := Ceil(n, d);
    assert (k + c) * d == k * d + c * d;
    CeilUnique(k * d + n, d, k + c);
  }
}
