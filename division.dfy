/** Python 2's two ways of turning a quotient of integers into an integer.

    - `a / b` on two `int`s floors: the quotient is rounded toward negative
      infinity (Dafny's own `/` is Euclidean and agrees only for b > 0).
    - `int(x / y)` on floats whose operands are whole numbers truncates the
      exact quotient toward zero (as long as the float quotient is exact
      enough, see README).
 */
module PyDivision {

  function Abs(x: int): nat { if x < 0 then -x else x }

  /** a <= b scales by a non-negative factor. */
  lemma MulMonotone(a: int, b: int, c: int)
    requires a <= b && 0 <= c
    ensures a * c <= b * c
  {
    assert b * c - a * c == (b - a) * c;
  }

  /** Python 2 `n / d` on ints. */
  function FloorDiv(n: int, d: int): (q: int)
    requires d != 0
    ensures d > 0 ==> d * q <= n < d * q + d
    ensures d < 0 ==> d * q + d < n <= d * q
  {
    if d > 0 then n / d else (-n) / (-d)
  }

  /** Python `int(n / d)`: the exact quotient truncated toward zero. */
  function TruncDiv(n: int, d: int): (q: int)
    requires d != 0
    ensures Abs(q) * Abs(d) <= Abs(n) < (Abs(q) + 1) * Abs(d)
    ensures q > 0 ==> (n > 0) == (d > 0)
    ensures q < 0 ==> (n > 0) != (d > 0)
  {
    var m := Abs(n) / Abs(d);
    if (n >= 0) == (d > 0) then m else -m
  }

  /** Two non-negative multiples of d bracketing the same n are equal. */
  lemma {:induction false} BracketUnique(n: int, d: int, q1: int, q2: int)
    requires d > 0
    requires q1 * d <= n < (q1 + 1) * d
    requires q2 * d <= n < (q2 + 1) * d
    ensures q1 == q2
  {
    if q1 < q2 {
      MulMonotone(q1 + 1, q2, d);
    } else if q2 < q1 {
      MulMonotone(q2 + 1, q1, d);
    }
  }

  /** The floor bracket determines the quotient: FloorDiv is the only
      integer q with d*q <= n < d*q + d (for d > 0). */
  lemma {:induction false} FloorDivUnique(n: int, d: int, q: int)
    requires d != 0
    requires d > 0 ==> d * q <= n < d * q + d
    requires d < 0 ==> d * q + d < n <= d * q
    ensures q == FloorDiv(n, d)
  {
    var f := FloorDiv(n, d);
    if d > 0 {
      BracketUnique(n, d, q, f);
    } else {
      assert (-d) * q == -(d * q) && (-d) * f == -(d * f);
      BracketUnique(-n, -d, q, f);
    }
  }

  /** The truncation bracket and the sign rule determine the quotient. */
  lemma {:induction false} TruncDivUnique(n: int, d: int, q: int)
    requires d != 0
    requires Abs(q) * Abs(d) <= Abs(n) < (Abs(q) + 1) * Abs(d)
    requires q > 0 ==> (n > 0) == (d > 0)
    requires q < 0 ==> (n > 0) != (d > 0)
    ensures q == TruncDiv(n, d)
  {
    var t := TruncDiv(n, d);
    BracketUnique(Abs(n), Abs(d), Abs(q), Abs(t));
  }

  /** For d > 0, FloorDiv never decreases when the numerator grows. */
  lemma {:induction false} FloorDivMonotone(n1: int, n2: int, d: int)
    requires d > 0 && n1 <= n2
    ensures FloorDiv(n1, d) <= FloorDiv(n2, d)
  {
    var q1, q2 := FloorDiv(n1, d), FloorDiv(n2, d);
    if q2 < q1 {
      MulMonotone(q2 + 1, q1, d);
    }
  }

  /** For d > 0, TruncDiv never decreases when the numerator grows. */
  lemma {:induction false} TruncDivMonotone(n1: int, n2: int, d: int)
    requires d > 0 && n1 <= n2
    ensures TruncDiv(n1, d) <= TruncDiv(n2, d)
  {
    if 0 <= n1 {
      TruncDivMonotoneNonNeg(n1, n2, d);
    } else if n2 <= 0 {
      TruncDivMonotoneNonNeg(-n2, -n1, d);
    }
  }

  /** Helper of TruncDivMonotone: on non-negative numerators TruncDiv grows. */
  lemma {:induction false} TruncDivMonotoneNonNeg(n1: int, n2: int, d: int)
    requires d > 0 && 0 <= n1 <= n2
    ensures TruncDiv(n1, d) <= TruncDiv(n2, d)
  {
    var q1, q2 := TruncDiv(n1, d), TruncDiv(n2, d);
    if q2 < q1 {
      MulMonotone(q2 + 1, q1, d);
    }
  }

  /** On a non-negative numerator and positive divisor the two roundings
      agree; they differ on negative quotients that are not whole. */
  lemma {:induction false} TruncAgreesWithFloor(n: int, d: int)
    requires d > 0 && 0 <= n
    ensures TruncDiv(n, d) == FloorDiv(n, d)
  {
    var t := TruncDiv(n, d);
    FloorDivUnique(n, d, t);
  }
}
