/** Division with remainder by a variable divisor, kept away from everything else. */
module Arith {

  lemma MulBounds(d: int, n: int)
    requires n > 0
    ensures d >= 1 ==> d * n >= n
    ensures d <= -1 ==> d * n <= -n
    ensures d == 0 ==> d * n == 0
  {
  }

  lemma DivMod(a: int, n: int)
    requires n > 0
    ensures a == a / n * n + a % n && 0 <= a % n < n
  {
  }

  lemma ModUnique(a: int, q: int, r: int, n: int)
    requires n > 0 && 0 <= r < n && a == q * n + r
    ensures a % n == r && a / n == q
  {
    DivMod(a, n);
    var d := a / n - q;
    assert d * n == a / n * n - q * n;
    MulBounds(d, n);
  }

  lemma ModShift(a: int, k: int, n: int)
    requires n > 0
    ensures (a + k * n) % n == a % n
  {
    DivMod(a, n);
    assert (a / n + k) * n == a / n * n + k * n;
    ModUnique(a + k * n, a / n + k, a % n, n);
  }

  lemma SmallMod(a: int, n: int)
    requires 0 <= a < n
    ensures a % n == a
  {
    ModUnique(a, 0, a, n);
  }

  /** Numbers less than `n` apart with the same remainder are equal. */
  lemma SameResidue(a: int, b: int, n: int)
    requires n > 0 && a % n == b % n && -n < a - b < n
    ensures a == b
  {
    DivMod(a, n);
    DivMod(b, n);
    var d := a / n - b / n;
    assert d * n == a / n * n - b / n * n;
    MulBounds(d, n);
  }

  lemma DivMonotone(a: nat, b: nat, n: nat)
    requires n > 0 && a <= b
    ensures 0 <= a / n <= b / n <= b
  {
    DivMod(a, n);
    DivMod(b, n);
    var d := a / n - b / n;
    assert d * n == a / n * n - b / n * n;
    MulBounds(d, n);
    NonNegDiv(a, n);
    NonNegDiv(b, n);
  }

  lemma NonNegDiv(a: nat, n: nat)
    requires n > 0
    ensures 0 <= a / n <= a
  {
    DivMod(a, n);
    MulBounds(a / n, n);
    MulSelf(a / n, n);
  }

  lemma MulSelf(q: int, n: nat)
    requires n > 0
    ensures q >= 0 ==> q * n >= q
  {
  }

  /** A strictly later tick means a strictly later time. */
  lemma DivStrict(a: nat, b: nat, n: nat)
    requires n > 0 && a / n < b / n
    ensures a < b
  {
    if b <= a {
      DivMonotone(b, a, n);
    }
  }

  /** Reducing first modulo a multiple of `n` makes no difference modulo `n`. */
  lemma ModOfMultiple(i: nat, m: nat, q: nat, n: nat)
    requires n > 0 && m > 0 && m == q * n
    ensures i % m % n == i % n
  {
    DivMod(i, m);
    var k := i / m;
    assert k * (q * n) == k * q * n;
    ModShift(i % m, k * q, n);
  }
}
