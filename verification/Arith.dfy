/** Integer arithmetic shared by the models: rounding to an alignment and powers of two. */
module Arith {

  /** The least multiple of `y` that is not below `x`. */
  function RoundUp(x: nat, y: nat): (r: nat)
    requires y > 0
    ensures x <= r < x + y && r % y == 0
  {
    RemainderModulo(x, y);
    if x % y == 0 then x else x + (y - x % y)
  }

  lemma RemainderModulo(x: nat, y: nat)
    requires y > 0
    ensures (x + (y - x % y)) % y == 0
  {
    assert x + (y - x % y) == (x / y + 1) * y;
    MultipleModulo(x / y + 1, y);
  }

  /** The `roundup` macro of <sys/param.h> computes RoundUp. */
  lemma RoundUpMacro(x: nat, y: nat)
    requires y > 0
    ensures (x + (y - 1)) / y * y == RoundUp(x, y)
  {
    var m := (x + (y - 1)) / y;
    var r := RoundUp(x, y);
    assert x + (y - 1) == m * y + (x + (y - 1)) % y;
    assert r == r / y * y;
    assert m * y - r < y && r - m * y < y && m * y - r == (m - r / y) * y;
    SmallMultipleIsZero(m - r / y, y);
  }

  lemma MultipleModulo(q: int, y: int)
    requires y > 0
    ensures (q * y) % y == 0
  {
    var r := (q * y) % y;
    assert q * y == (q * y) / y * y + r;
    assert r == (q - (q * y) / y) * y;
    SmallMultipleIsZero(q - (q * y) / y, y);
  }

  lemma SmallMultipleIsZero(k: int, y: int)
    requires y > 0 && -y < k * y < y
    ensures k == 0
  {
  }

  /** RoundUp gives the least multiple of `y` that is not below `x`. */
  lemma RoundUpLeast(x: nat, y: nat, m: nat)
    requires y > 0 && m % y == 0 && x <= m
    ensures RoundUp(x, y) <= m
  {
    var r := RoundUp(x, y);
    if m < r {
      assert r == r / y * y && m == m / y * y;
      assert 0 < (r / y - m / y) * y < y;
      SmallMultipleIsZero(r / y - m / y, y);
      assert false;
    }
  }

  lemma RoundUpOfMultiple(x: nat, y: nat)
    requires y > 0 && x % y == 0
    ensures RoundUp(x, y) == x
  {
    RoundUpLeast(x, y, x);
  }

  lemma MulDiv(f: nat, p: nat)
    requires p > 0
    ensures f * p / p == f
  {
    MultipleModulo(f, p);
    var q := f * p / p;
    assert f * p == q * p;
    assert (f - q) * p == 0;
    SmallMultipleIsZero(f - q, p);
  }

  lemma DivUnique(m: nat, d: nat, k: nat, rem: nat)
    requires 0 <= rem < d && m == k * d + rem
    ensures m / d == k && m % d == rem
  {
    var q := m / d;
    assert m == q * d + m % d;
    assert (q - k) * d == rem - m % d;
    SmallMultipleIsZero(q - k, d);
  }

  lemma DivTwice(m: nat, p: nat)
    requires p > 0
    ensures m / (2 * p) == m / p / 2
  {
    var q, r := m / p, m % p;
    var k, t := q / 2, q % 2;
    assert m == q * p + r && q == 2 * k + t;
    assert q * p == k * (2 * p) + t * p;
    DivUnique(m, 2 * p, k, t * p + r);
  }

  lemma DivBounds(m: nat, p: nat, n: nat)
    requires 0 < p <= m && m < n * p
    ensures 1 <= m / p < n
  {
    var q := m / p;
    assert m == q * p + m % p;
    assert q != 0;
    if q >= n {
      MulMonotone(n, q, p);
      assert false;
    }
  }

  lemma DivDiv(a: nat, b: nat, c: nat, t: nat)
    requires b > 0 && c > 0 && t == b * c
    ensures t > 0 && a / t == a / b / c
  {
    QuotientAndRest(a, b);
    QuotientAndRest(a / b, c);
    DivDivParts(a, b, c, t, a / b, a % b, a / b / c, a / b % c);
  }

  lemma QuotientAndRest(a: nat, b: nat)
    requires b > 0
    ensures a == a / b * b + a % b && 0 <= a % b < b && a / b >= 0
  {
  }

  lemma DivDivParts(a: nat, b: nat, c: nat, t: nat, m: nat, r: nat, q: nat, s: nat)
    requires a == m * b + r && m == q * c + s && r < b && s < c && t == b * c
    ensures t > 0 && a / t == q
  {
    Regrouped(a, q, c, s, b, r, t);
    RemainderFits(s, c, b, r);
    DivUnique(a, t, q, s * b + r);
  }

  lemma Regrouped(a: nat, q: nat, c: nat, s: nat, b: nat, r: nat, t: nat)
    requires a == (q * c + s) * b + r && t == b * c
    ensures a == q * t + (s * b + r)
  {
    assert (q * c + s) * b == q * c * b + s * b;
    assert q * c * b == q * (b * c);
  }

  lemma RemainderFits(s: nat, c: nat, b: nat, r: nat)
    requires s < c && r < b
    ensures s * b + r < b * c
  {
    MulMonotone(s + 1, c, b);
    assert (s + 1) * b == s * b + b;
  }

  lemma MulMonotone(m: nat, n: nat, p: nat)
    requires m <= n
    ensures m * p <= n * p
  {
  }

  lemma MultipleTransitive(x: nat, b: nat, a: nat)
    requires a > 0 && b > 0 && x % b == 0 && b % a == 0
    ensures x % a == 0
  {
    assert x == (x / b) * ((b / a) * a) == ((x / b) * (b / a)) * a;
    MultipleModulo((x / b) * (b / a), a);
  }

  lemma MultipleSum(x: nat, y: nat, a: nat)
    requires a > 0 && x % a == 0 && y % a == 0
    ensures (x + y) % a == 0
  {
    assert x + y == (x / a + y / a) * a;
    MultipleModulo(x / a + y / a, a);
  }

  lemma MultipleAtLeast(x: nat, a: nat)
    requires a > 0 && x > 0 && x % a == 0
    ensures a <= x
  {
    if x < a {
      DivUnique(x, a, 0, x);
    }
  }

  function Pow2(n: nat): (p: nat)
    ensures p > 0
  {
    if n == 0 then 1 else 2 * Pow2(n - 1)
  }

  /** Exactly one bit is set; Bits.Pow2Test relates this to the test in the code. */
  predicate IsPow2(a: nat)
  {
    a == 1 || (a > 1 && a % 2 == 0 && IsPow2(a / 2))
  }

  lemma {:induction false} Pow2Divides(a: nat, b: nat)
    requires IsPow2(a) && IsPow2(b) && a <= b
    ensures b % a == 0
  {
    if a > 1 {
      Pow2Divides(a / 2, b / 2);
      var k := (b / 2) / (a / 2);
      assert b / 2 == k * (a / 2);
      assert b == k * a;
      MultipleModulo(k, a);
    }
  }
}
