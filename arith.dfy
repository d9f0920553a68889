/** Small facts of integer arithmetic that the solver does not find by itself. */
module Arith {

  function Abs(x: int): (r: int) {
    if x < 0 then -x else x
  }

  lemma MulSign(q: int, den: int)
    requires q >= 0 && den > 0
    ensures q * den >= 0
  {
  }

  lemma DivBounds(a: int, b: int, q: int)
    requires a >= 0 && b > 0 && q == a / b
    ensures q >= 0 && q * b <= a < q * b + b
  {
    assert a == q * b + a % b;
  }

  lemma MulSub(a: int, b: int, c: int)
    ensures a * c - b * c == (a - b) * c
  {
  }

  lemma MulAbsAtLeast(a: int, b: int)
    requires a != 0 && b > 0
    ensures Abs(a * b) >= b
  {
    if a > 0 {
      assert a * b == (a - 1) * b + b;
      MulSign(a - 1, b);
    } else {
      assert a * b == -((-a - 1) * b + b);
      MulSign(-a - 1, b);
    }
  }

  /** Euclidean division by k goes up by one exactly at the multiples of k. */
  lemma DivStep(y: int, k: int)
    requires k > 0
    ensures (y + 1) / k - y / k == (if (y + 1) % k == 0 then 1 else 0)
  {
    var q, r := y / k, y % k;
    assert y == k * q + r && 0 <= r < k;
    if r == k - 1 {
      assert y + 1 == k * (q + 1) + 0;
      DivUnique(y + 1, k, q + 1, 0);
    } else {
      assert y + 1 == k * q + (r + 1);
      DivUnique(y + 1, k, q, r + 1);
    }
  }

  lemma DivUnique(a: int, k: int, q: int, r: int)
    requires k > 0 && 0 <= r < k && a == k * q + r
    ensures a / k == q && a % k == r
  {
    var q', r' := a / k, a % k;
    assert a == k * q' + r' && 0 <= r' < k;
    assert k * (q - q') == r' - r by {
      assert k * q - k * q' == k * (q - q');
    }
    if q > q' {
      assert k * (q - q') >= k by { assert k * (q - q') == k * (q - q' - 1) + k; MulSign(q - q' - 1, k); }
    } else if q < q' {
      assert k * (q' - q) >= k by { assert k * (q' - q) == k * (q' - q - 1) + k; MulSign(q' - q - 1, k); }
    }
  }

  lemma MulMonotone(a: int, b: int, c: int)
    requires a <= b && c >= 0
    ensures a * c <= b * c
  {
    MulSub(b, a, c);
    if c > 0 {
      MulSign(b - a, c);
    }
  }

  lemma MulAtLeastOne(a: int, b: int)
    requires a >= 1 && b > 0
    ensures a * b >= b
  {
    MulSub(a, 1, b);
    MulSign(a - 1, b);
  }
}
