/** Facts about quotients, remainders and powers of two that several modules share. */
module Arithmetic {

  lemma MultipleBounds(k: int, m: nat)
    ensures k >= 1 ==> k * m >= m
    ensures k <= -1 ==> k * m <= -(m as int)
  {
  }

  lemma ModUnique(n: int, m: nat, q: int, r: nat)
    requires 0 < m && r < m && n == q * m + r
    ensures n % m == r && n / m == q
  {
    assert n == (n / m) * m + n % m;
    assert (q - n / m) * m == n % m - r;
    MultipleBounds(q - n / m, m);
  }

  lemma QuotientIsNat(x: nat, m: nat)
    requires 0 < m
    ensures 0 <= x / m
  {
    assert x == (x / m) * m + x % m;
    MultipleBounds(x / m, m);
  }

  lemma ModBack(k: nat, m: nat)
    requires 0 < m <= k
    ensures (k - m) % m == k % m
  {
    assert k == (k / m) * m + k % m;
    assert k - m == (k / m - 1) * m + k % m;
    ModUnique(k - m, m, k / m - 1, k % m);
  }

  lemma MulCancel(a: int, b: int, c: nat)
    requires a * c < b * c
    ensures a < b
  {
    MultipleBounds(b - a, c);
    assert (b - a) * c == b * c - a * c;
  }

  function Pow2(n: nat): (r: nat)
    ensures 0 < r
  {
    if n == 0 then 1 else 2 * Pow2(n - 1)
  }

  lemma {:induction false} PowSum(a: nat, b: nat)
    ensures Pow2(a + b) == Pow2(a) * Pow2(b)
    decreases a
  {
    if a == 0 {
    } else {
      PowSum(a - 1, b);
    }
  }

  lemma ModShift(x: int, m: nat, k: int)
    requires 0 < m
    ensures (x + k * m) % m == x % m && (x + k * m) / m == x / m + k
  {
    assert x == (x / m) * m + x % m;
    assert x + k * m == (x / m + k) * m + x % m;
    ModUnique(x + k * m, m, x / m + k, x % m);
  }

  lemma MulMono(a: int, b: int, c: nat)
    requires a <= b
    ensures a * c <= b * c
  {
  }

  lemma Distribute(a: int, b: int, c: int)
    ensures (a + b) * c == a * c + b * c
  {
  }

  lemma Associate(a: int, b: int, c: int)
    ensures (a * b) * c == a * (b * c)
  {
  }

  /** Dividing a quotient again. */
  lemma Nested(x: nat, a: nat, b: nat, q: nat, r: nat, q': nat, r': nat)
    requires x == q * a + r && r < a && q == q' * b + r' && r' < b
    ensures x == q' * (a * b) + (r' * a + r) && 0 <= r' * a + r < a * b
  {
    Distribute(q' * b, r', a);
    Associate(q', b, a);
    MulMono(r' + 1, b, a);
    Distribute(r', 1, a);
  }

  lemma DivTwice(x: nat, a: nat, b: nat)
    requires 0 < a && 0 < b
    ensures 0 < a * b && x / (a * b) == x / a / b
  {
    var q, r := x / a, x % a;
    var q', r' := q / b, q % b;
    assert x == q * a + r && q == q' * b + r';
    Nested(x, a, b, q, r, q', r');
    ModUnique(x, a * b, q', r' * a + r);
  }
}
