/** Powers of two and multiples of them. */
module Powers {

  function Pow2(n: nat): (r: nat)
    ensures r > 0
  {
    if n == 0 then 1 else 2 * Pow2(n - 1)
  }

  lemma {:induction false} Pow2Add(m: nat, n: nat)
    ensures Pow2(m + n) == Pow2(m) * Pow2(n)
  {
    if m > 0 {
      Pow2Add(m - 1, n);
      assert Pow2(m + n) == 2 * Pow2(m - 1 + n);
    }
  }

  lemma {:induction false} Pow2Monotone(m: nat, n: nat)
    requires m <= n
    ensures Pow2(m) <= Pow2(n)
    ensures m < n ==> 2 * Pow2(m) <= Pow2(n)
    decreases n
  {
    if m < n { Pow2Monotone(m, n - 1); }
  }

  /** Quotient and remainder are determined by their defining equation. */
  lemma DivIs(a: int, b: int, q: int, r: int)
    requires b > 0 && a == q * b + r && 0 <= r < b
    ensures a / b == q && a % b == r
  {
    OneQuotient(b, q, r, a / b, a % b);
  }

  lemma OneQuotient(b: int, q: int, r: int, q': int, r': int)
    requires b > 0 && q * b + r == q' * b + r' && 0 <= r < b && 0 <= r' < b
    ensures q == q' && r == r'
  {
    assert (q - q') * b == r' - r && (q' - q) * b == r - r';
    if q > q' { AtLeast(q - q', b); }
    if q < q' { AtLeast(q' - q, b); }
  }

  lemma AtLeast(x: int, b: int)
    requires x >= 1 && b > 0
    ensures x * b >= b
  {
  }

  /** Two multiples of `b` are equal or at least `b` apart. */
  lemma MultiplesApart(x: int, y: int, b: int)
    requires b > 0 && x % b == 0 && y % b == 0 && x < y
    ensures x + b <= y
  {
    var m, n := x / b, y / b;
    assert x == b * m && y == b * n;
    SmallerFactor(b, m, n);
    AtLeast(n - m, b);
    assert (n - m) * b == y - x;
  }

  lemma SmallerFactor(b: int, m: int, n: int)
    requires b > 0 && b * m < b * n
    ensures m < n
  {
  }

  lemma MultipleOf(a: int, b: int)
    requires b > 0
    ensures (a * b) % b == 0 && (a * b) / b == a
  {
    DivIs(a * b, b, a, 0);
  }

  /** A multiple of `n` is a multiple of `2n` or `n` past one. */
  lemma EvenOdd(s: nat, n: nat)
    requires n > 0 && s % n == 0
    ensures (s / n) % 2 == 0 ==> s % (2 * n) == 0
    ensures (s / n) % 2 == 1 ==> n <= s && (s - n) % (2 * n) == 0
  {
    var q := s / n;
    var r := q / 2;
    assert s == n * q;
    if q % 2 == 0 {
      Triple(n, r);
      assert s == r * (2 * n);
      DivIs(s, 2 * n, r, 0);
    } else {
      Triple(n, r);
      assert q == 2 * r + 1;
      Distribute(n, 2 * r);
      assert s - n == r * (2 * n);
      DivIs(s - n, 2 * n, r, 0);
    }
  }

  lemma Triple(n: int, r: int)
    ensures n * (2 * r) == r * (2 * n)
  {
  }

  lemma Distribute(n: int, k: int)
    ensures n * (k + 1) == n * k + n
  {
  }

  /** The halves of a multiple of `2n`. */
  lemma TwoHalves(s: nat, n: nat)
    requires n > 0 && s % (2 * n) == 0
    ensures s % n == 0 && (s / n) % 2 == 0 && (s + n) % n == 0 && ((s + n) / n) % 2 == 1
  {
    var q := s / (2 * n);
    assert s == (2 * n) * q;
    Triple(n, q);
    DivIs(s, n, 2 * q, 0);
    Distribute(n, 2 * q);
    DivIs(s + n, n, 2 * q + 1, 0);
  }

  /** A multiple of `m * d` is a multiple of `m`. */
  lemma CoarserMultiple(s: nat, m: nat, d: nat)
    requires m > 0 && d > 0 && m * d > 0 && s % (m * d) == 0
    ensures s % m == 0
  {
    var q := s / (m * d);
    assert s == (m * d) * q;
    Associate(m, d, q);
    DivIs(s, m, d * q, 0);
  }

  lemma Associate(m: int, d: int, q: int)
    ensures (m * d) * q == (d * q) * m
  {
  }

  lemma BothEnds(s: nat, n: nat, m: nat, d: nat)
    requires m > 0 && d > 0 && n == m * d && n > 0 && s % n == 0
    ensures s % m == 0 && (s + n) % m == 0
  {
    var q := s / n;
    assert s == n * q;
    CoarserMultiple(s, m, d);
    Distribute(n, q);
    DivIs(s + n, n, q + 1, 0);
    CoarserMultiple(s + n, m, d);
  }

  /** Aligned ranges that overlap are nested. */
  lemma NestedRanges(s: nat, e: nat, t: nat, m: nat)
    requires m > 0 && s % m == 0 && e % m == 0 && t % m == 0 && s < t + m && t < e
    ensures s <= t && t + m <= e
  {
    if t < s { MultiplesApart(t, s, m); }
    MultiplesApart(t, e, m);
  }
}
