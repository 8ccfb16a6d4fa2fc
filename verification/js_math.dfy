/** Integer arithmetic the way the player's JavaScript performs it, where that
    differs from Dafny's built-in operators, and the division facts the rest of
    the model leans on. */
module JsMath {

  function Abs(x: int): (r: nat)
    ensures r == x || r == -x
  {
    if x < 0 then -x else x
  }

  /** JavaScript's `%` on integral numbers: the remainder of division truncated
      toward zero, so it carries the sign of the dividend. Dafny's `%` is
      Euclidean and never negative; the two agree only on non-negative dividends. */
  function Rem(a: int, b: int): (r: int)
    requires b != 0
    ensures Abs(r) < Abs(b)
    ensures a >= 0 ==> r >= 0
    ensures a <= 0 ==> r <= 0
    ensures (a - r) % Abs(b) == 0
  {
    RemLeavesMultiple(a, Abs(b));
    if a >= 0 then a % Abs(b) else -((-a) % Abs(b))
  }

  /** Taking away the truncated remainder leaves a multiple of the divisor. */
  lemma RemLeavesMultiple(a: int, m: int)
    requires m > 0
    ensures a >= 0 ==> (a - a % m) % m == 0
    ensures a < 0 ==> (a - -((-a) % m)) % m == 0
  {
    if a >= 0 {
      assert a - a % m == (a / m) * m;
      DivModUnique(a - a % m, m, a / m, 0);
    } else {
      var q := (-a) / m;
      assert -a == q * m + (-a) % m;
      assert a - -((-a) % m) == (-q) * m;
      DivModUnique(a - -((-a) % m), m, -q, 0);
    }
  }

  /** Quotient and remainder are determined by the equation a == q * b + r
      with 0 <= r < b. */
  lemma DivModUnique(a: int, b: int, q: int, r: int)
    requires b > 0 && 0 <= r < b
    requires a == q * b + r
    ensures a / b == q && a % b == r
  {
    var q', r' := a / b, a % b;
    assert a == q' * b + r';
    assert (q - q') * b == r' - r;
    MulAwayFromZero(q - q', b);
  }

  /** A non-zero multiple of a positive b is at least b away from zero. */
  lemma MulAwayFromZero(k: int, b: int)
    requires b > 0
    ensures k >= 1 ==> k * b >= b
    ensures k <= -1 ==> k * b <= -b
  {
    if k >= 1 {
      assert k * b == (k - 1) * b + b;
      assert (k - 1) * b >= 0;
    } else if k <= -1 {
      assert k * b == (k + 1) * b - b;
      assert (k + 1) * b <= 0;
    }
  }

  /** On a non-negative dividend and a positive divisor, JavaScript's remainder is
      the ordinary one: the unique r in [0, b) with b dividing a - r. */
  lemma RemOfNatural(a: int, b: int)
    requires a >= 0 && b > 0
    ensures Rem(a, b) == a % b
    ensures 0 <= Rem(a, b) < b
  {
  }

  /** The case that tells the two operators apart: a negative dividend gives a
      non-positive JavaScript remainder, and a negative one exactly when Dafny's
      Euclidean remainder is non-zero. */
  lemma RemOfNegative(a: int, b: int)
    requires a < 0 && b > 0
    ensures Rem(a, b) == (if a % b == 0 then 0 else a % b - b)
  {
    var q := (-a) / b;
    var r := (-a) % b;
    assert -a == q * b + r;
    if r == 0 {
      DivModUnique(a, b, -q, 0);
    } else {
      DivModUnique(a, b, -q - 1, b - r);
    }
  }

  /** Stepping a number up by one moves its remainder one place around the
      cycle 0, 1, ..., m - 1, 0. */
  lemma ModSucc(a: int, m: int)
    requires m >= 1
    ensures (a + 1) % m == (if a % m == m - 1 then 0 else a % m + 1)
  {
    var q, r := a / m, a % m;
    assert a == q * m + r;
    if r == m - 1 {
      DivModUnique(a + 1, m, q + 1, 0);
    } else {
      DivModUnique(a + 1, m, q, r + 1);
    }
  }
}
