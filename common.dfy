/**
 * Shared vocabulary: an optional value, and Python's `int()` applied to an
 * exact quotient (it rounds toward zero, unlike Dafny's Euclidean `/`).
 */
module Common {
  datatype Option<T> = None | Some(value: T)

  /** `int(a / b)` for a positive divisor, computed exactly: truncation toward zero. */
  function TruncDiv(a: int, b: int): int
    requires b > 0
  {
    if a >= 0 then a / b else -((-a) / b)
  }

  /** The quotient is the exact one rounded toward zero. */
  lemma TruncDivSpec(a: int, b: int)
    requires b > 0
    ensures var q := TruncDiv(a, b);
      (a >= 0 ==> 0 <= q && q * b <= a < q * b + b) &&
      (a < 0 ==> q <= 0 && q * b - b < a <= q * b)
  {
  }

  /** `int(x)` for an exact real `x`: truncation toward zero. */
  function TruncReal(x: real): int
  {
    if x >= 0.0 then x.Floor else -((-x).Floor)
  }

  /** The integer is the real rounded toward zero. */
  lemma TruncRealSpec(x: real)
    ensures var n := TruncReal(x);
      (x >= 0.0 ==> 0 <= n && n as real <= x < n as real + 1.0) &&
      (x < 0.0 ==> n <= 0 && n as real - 1.0 < x <= n as real)
  {
  }

  lemma {:induction false} TruncDivUnique(a: int, b: int, q: int)
    requires b > 0 && a >= 0
    requires q * b <= a < q * b + b
    ensures TruncDiv(a, b) == q
  {
    var r := TruncDiv(a, b);
    TruncDivSpec(a, b);
    if r < q {
      MulMono(r + 1, q, b);
    } else if r > q {
      MulMono(q + 1, r, b);
    }
  }

  /** A non-negative quotient is positive exactly when the dividend reaches the divisor. */
  lemma {:induction false} TruncDivPositive(a: int, b: int)
    requires a >= 0 && b > 0
    ensures TruncDiv(a, b) > 0 <==> a >= b
  {
    var q := TruncDiv(a, b);
    TruncDivSpec(a, b);
    if q <= 0 {
      MulMono(q, 0, b);
    } else {
      MulMono(1, q, b);
    }
  }

  lemma MulMono(x: int, y: int, b: int)
    requires x <= y && b > 0
    ensures x * b <= y * b
  {
  }

  /** Stepping the dividend by one raises the quotient exactly when it lands on a multiple. */
  lemma {:induction false} DivStep(x: int, k: int)
    requires x >= 0 && k > 0
    ensures (x + 1) / k == x / k + (if (x + 1) % k == 0 then 1 else 0)
  {
    var q, r := x / k, x % k;
    assert x == q * k + r && 0 <= r < k;
    if r == k - 1 {
      assert x + 1 == (q + 1) * k;
      DivModUnique(x + 1, k, q + 1, 0);
    } else {
      assert x + 1 == q * k + (r + 1);
      DivModUnique(x + 1, k, q, r + 1);
    }
  }

  lemma {:induction false} DivModUnique(a: int, k: int, q: int, r: int)
    requires k > 0 && 0 <= r < k && a == q * k + r
    ensures a / k == q && a % k == r
  {
    var q', r' := a / k, a % k;
    assert a == q' * k + r';
    if q' < q {
      MulMono(q' + 1, q, k);
    } else if q' > q {
      MulMono(q + 1, q', k);
    }
  }

  lemma {:induction false} ModShift(a: int, k: int)
    requires a >= 0 && k > 0
    ensures (a + k) % k == a % k && (a + k) / k == a / k + 1
  {
    assert a + k == (a / k + 1) * k + a % k;
    DivModUnique(a + k, k, a / k + 1, a % k);
  }
}
