/**
 * Remainder facts the ring buffers rely on. Dafny's `%` on naturals agrees
 * with C++'s unsigned `%`.
 */
module Arith {
  lemma {:induction false} MulAtLeast(d: int, n: int)
    requires d >= 1 && n > 0
    ensures d * n >= n
    decreases d
  {
    if d > 1 {
      MulAtLeast(d - 1, n);
      assert d * n == (d - 1) * n + n;
    }
  }

  /** The remainder is the unique one below `n`. */
  lemma ModUnique(x: int, q: int, rem: int, n: int)
    requires n > 0 && 0 <= rem < n && x == q * n + rem
    ensures x % n == rem
  {
    var q', r' := x / n, x % n;
    assert x == q' * n + r';
    assert (q - q') * n == r' - rem;
    if q > q' {
      MulAtLeast(q - q', n);
    } else if q < q' {
      MulAtLeast(q' - q, n);
    }
  }

  /** Reducing the first summand first does not change the remainder of a sum. */
  lemma ModAdd(a: int, b: int, n: int)
    requires n > 0
    ensures (a % n + b) % n == (a + b) % n
  {
    var c := a % n + b;
    assert a == (a / n) * n + a % n;
    assert c == (c / n) * n + c % n;
    assert a + b == (a / n + c / n) * n + c % n;
    ModUnique(a + b, a / n + c / n, c % n, n);
  }
}
