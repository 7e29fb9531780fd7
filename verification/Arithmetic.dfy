/** Powers of two and the division facts the bit-level code rests on. */
module Arithmetic {

  function Pow2(n: nat): (p: nat)
    ensures p > 0
  {
    if n == 0 then 1 else 2 * Pow2(n - 1)
  }

  function Min(a: int, b: int): int {
    if a <= b then a else b
  }

  lemma {:induction false} Pow2Add(a: nat, b: nat)
    ensures Pow2(a + b) == Pow2(a) * Pow2(b)
  {
    if a == 0 {
      assert Pow2(a + b) == Pow2(b);
    } else {
      Pow2Add(a - 1, b);
      calc {
        Pow2(a + b);
        2 * Pow2(a - 1 + b);
        2 * (Pow2(a - 1) * Pow2(b));
        (2 * Pow2(a - 1)) * Pow2(b);
      }
    }
  }

  lemma {:induction false} Pow2Monotone(a: nat, b: nat)
    requires a <= b
    ensures Pow2(a) <= Pow2(b)
    ensures a < b ==> 2 * Pow2(a) <= Pow2(b)
  {
    if a < b {
      Pow2Monotone(a, b - 1);
    }
  }

  /** The quotient and remainder of `x` by `d` are the only pair that adds up to `x`. */
  lemma DivUnique(x: int, d: int, q: int, r: int)
    requires 0 <= r < d && x == q * d + r
    ensures x / d == q && x % d == r
  {
    var q', r' := x / d, x % d;
    assert x == q' * d + r';
    assert (q - q') * d == q * d - q' * d == r' - r;
    if q' < q {
      MulAtLeast(q - q', d);
    } else if q < q' {
      MulAtLeast(q' - q, d);
    }
  }

  lemma MulAtLeast(k: int, d: int)
    requires k >= 1 && d >= 0
    ensures k * d >= d
  {
    if k > 1 {
      MulAtLeast(k - 1, d);
      assert k * d == (k - 1) * d + d;
    }
  }

  lemma DivDiv(x: nat, a: nat, b: nat)
    requires a > 0 && b > 0
    ensures a * b > 0
    ensures x / (a * b) == (x / a) / b
    ensures x % (a * b) == x % a + a * ((x / a) % b)
  {
    MulAtLeast(a, b);
    var q, r := (x / a) / b, (x / a) % b;
    assert x == a * (x / a) + x % a;
    assert x / a == b * q + r;
    calc {
      x;
      a * (b * q + r) + x % a;
      { assert a * (b * q) == (a * b) * q; }
      q * (a * b) + (a * r + x % a);
    }
    assert r <= b - 1;
    MulMonotone(r, b - 1, a);
    assert a * (b - 1) == a * b - a;
    DivUnique(x, a * b, q, a * r + x % a);
  }

  lemma MulMonotone(x: int, y: int, k: int)
    requires x <= y && k >= 0
    ensures k * x <= k * y && x * k <= y * k
  {
    assert k * (y - x) >= 0;
    assert k * y - k * x == k * (y - x);
  }

  /** Dividing by a larger power of two is dividing twice. */
  lemma DivPow2(x: nat, i: nat, j: nat)
    requires i <= j
    ensures x / Pow2(j) == (x / Pow2(i)) / Pow2(j - i)
  {
    Pow2Add(i, j - i);
    DivDiv(x, Pow2(i), Pow2(j - i));
  }
}
