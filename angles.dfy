// Angle arithmetic of the golden-triangle tiling.
//
// Every edge direction in the tiling is a multiple of 36 degrees, so a
// direction is stored as a code 0..9 (the angle divided by 36 degrees,
// measured counter-clockwise from a fixed axis).

module Angles {

  /** A direction code: a multiple of 36 degrees. */
  type Angle = n: int | 0 <= n < 10

  /** JavaScript's `a % 10` on integers: the remainder truncates toward
      zero, so it takes the sign of the dividend (unlike Dafny's `%`). */
  function Rem10(a: int): (r: int)
    ensures -10 < r < 10
    ensures (a - r) % 10 == 0
    ensures a >= 0 ==> r >= 0
    ensures a <= 0 ==> r <= 0
    ensures 0 <= a < 20 ==> r == if a < 10 then a else a - 10
  {
    if a >= 0 then
      assert a - a % 10 == 10 * (a / 10);
      a % 10
    else
      assert a + (-a) % 10 == -10 * ((-a) / 10);
      -((-a) % 10)
  }

  /** Flips a direction by 180 degrees (five units of 36 degrees). */
  function ReverseAngle(n: int): (r: int)
    ensures n >= -5 ==> 0 <= r < 10
    ensures (r - n - 5) % 10 == 0
    ensures 0 <= n < 10 ==> r == if n < 5 then n + 5 else n - 5
  {
    Rem10(n + 5)
  }

  /** Flipping a direction twice gives it back. */
  lemma ReverseAngleInvolutive(n: Angle)
    ensures ReverseAngle(n) != n
    ensures ReverseAngle(ReverseAngle(n)) == n
  {
  }
}
