/** Powers of two, written `1 << n` in the source. */
module Powers {

  function Pow2(n: nat): (r: int)
    ensures 0 < r
  {
    if n == 0 then 1 else 2 * Pow2(n - 1)
  }

  lemma {:induction false} Pow2Add(a: nat, b: nat)
    ensures Pow2(a + b) == Pow2(a) * Pow2(b)
  {
    if a > 0 {
      Pow2Add(a - 1, b);
      Double(Pow2(a - 1), Pow2(b));
      assert a - 1 + b == a + b - 1;
    }
  }

  lemma Double(x: int, y: int)
    ensures 2 * (x * y) == (2 * x) * y
  {
  }

  lemma {:induction false} Pow2Monotone(a: nat, b: nat)
    requires a <= b
    ensures Pow2(a) <= Pow2(b)
  {
    if a < b {
      Pow2Monotone(a, b - 1);
    }
  }

  /** Quotient and remainder are determined by the division equation. */
  lemma DivModUnique(n: int, d: int, q: int, r: int)
    requires 0 < d && 0 <= r < d && n == q * d + r
    ensures n / d == q && n % d == r
  {
    var q', r' := n / d, n % d;
    assert (q - q') * d == r' - r;
    MulSign(q - q', d);
  }

  /** A non-zero multiple of a positive `d` is at least `d` away from zero. */
  lemma MulSign(x: int, d: int)
    requires 0 < d
    ensures 1 <= x ==> d <= x * d
    ensures x <= -1 ==> x * d <= -d
  {
    if 1 <= x {
      MulMonotone(1, d, x, d);
    } else if x <= -1 {
      MulMonotone(1, d, -x, d);
    }
  }

  /** Monotonicity of multiplication on naturals. */
  lemma MulMonotone(a: int, b: int, c: int, d: int)
    requires 0 <= a <= c && 0 <= b <= d
    ensures a * b <= c * d
  {
    assert a * b <= c * b;
    assert c * b <= c * d;
  }
}
