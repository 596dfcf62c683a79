/** C's integers: truncating division, two's complement of 8, 16 and 32 bits, and
    the few laws of products and quotients that the proofs need. */
module CInt {

  function Wrap8(x: int): int { (x + 128) % 256 - 128 }

  function Wrap16(x: int): int { (x + 0x8000) % 0x1_0000 - 0x8000 }

  function Wrap32(x: int): int { (x + 0x8000_0000) % 0x1_0000_0000 - 0x8000_0000 }

  function Abs(a: int): int { if a < 0 then -a else a }

  /** Division truncates towards zero. */
  function Div(n: int, d: int): int
    requires d != 0
  {
    var q := Abs(n) / Abs(d);
    if (n < 0) == (d < 0) then q else -q
  }

  lemma DivIs(n: int, d: int)
    requires n >= 0 && d > 0
    ensures Div(n, d) == n / d
  {
  }

  lemma FloorIs(n: int, d: int)
    requires n >= 0 && d > 0
    ensures 0 <= n / d && n / d * d <= n
  {
  }

  /** What a quotient leaves over. */
  lemma RestIs(n: int, d: int)
    requires n >= 0 && d > 0
    ensures 0 <= n - n / d * d < d
  {
    assert n == n / d * d + n % d;
  }

  lemma DivRest(n: int, d: int) returns (e: int)
    requires d > 0
    ensures Div(n, d) * d + e == n && -d < e < d && (n >= 0 ==> e >= 0) && (n <= 0 ==> e <= 0)
  {
    var q := Abs(n) / d;
    RestIs(Abs(n), d);
    assert -q * d == -(q * d);
    e := if n < 0 then n + q * d else n - q * d;
  }

  lemma Product(a: int, b: int)
    requires a >= 0 && b >= 0
    ensures a * b >= 0
  {
  }

  lemma Times(a: int, b: int, c: int)
    requires a <= b && c >= 0
    ensures a * c <= b * c
  {
  }

  /** The quotient is the one number that fits. */
  lemma QuotientIs(a: int, m: int, q: int, r: int)
    requires 0 <= r < m && a == q * m + r
    ensures a / m == q
  {
    var d := a / m - q;
    assert d >= 1 ==> d * m >= m;
    assert d <= -1 ==> d * m <= -m;
    assert a == (a / m) * m + a % m;
    assert d * m == r - a % m;
  }

  /** A quotient is no larger than a factor. */
  lemma SmallQuotient(n: int, m: int, q: int)
    requires 0 <= n <= q * m && m > 0 && q >= 0
    ensures 0 <= n / m <= q
  {
    if n / m > q {
      TooLarge(n, m, q);
    }
  }

  lemma TooLarge(n: int, m: int, q: int)
    requires m > 0 && q >= 0 && n / m > q
    ensures n > q * m
  {
    Times(q + 1, n / m, m);
    assert (q + 1) * m == q * m + m;
  }
}
