/** Integer division: how a quotient is recognised, and how the source languages round it. */
module Arithmetic {
  /** v / d and v % d, from a remainder that is known to be one. */
  lemma DivWord(v: int, d: int, low: int, q: int)
    requires d > 0 && 0 <= low < d && v == low + d * q
    ensures v / d == q && v % d == low
  {
    var n := v / d - q;
    assert v == d * (v / d) + v % d;
    assert d * n == low - v % d by { assert d * n == d * (v / d) - d * q; }
    MulBound(d, n);
  }

  lemma MulBound(d: int, n: int)
    requires d > 0
    ensures n >= 1 ==> d * n >= d
    ensures n <= -1 ==> d * n <= -d
  {
  }

  /** Division that truncates toward zero. */
  function TruncDiv(a: int, b: int): int
    requires b > 0
  {
    if a >= 0 then a / b else -(-a / b)
  }

  /** The remainder of truncating division, negative for a negative dividend. */
  function TruncMod(a: int, b: int): int
    requires b > 0
  {
    a - b * TruncDiv(a, b)
  }

  /** Shifting negative dividends down first turns truncation into rounding down. */
  lemma FloorByShift(a: int, b: int)
    requires b > 0
    ensures TruncDiv(if a >= 0 then a else a - (b - 1), b) == a / b
  {
    if a < 0 {
      var c := -(a - (b - 1));
      var q := -(c / b);
      assert c == b * (c / b) + c % b;
      assert b * q == -(b * (c / b));
      DivWord(a, b, b - 1 - c % b, q);
    }
  }

  /** The quotient grows by one exactly at multiples of the divisor. */
  lemma NextQuotient(a: int, b: int)
    requires b > 1
    ensures (a + 1) / b == a / b + if (a + 1) % b == 0 then 1 else 0
    ensures (a + 1) % b == if a % b == b - 1 then 0 else a % b + 1
  {
    assert a == b * (a / b) + a % b;
    if a % b == b - 1 {
      assert b * (a / b + 1) == b * (a / b) + b;
      DivWord(a + 1, b, 0, a / b + 1);
    } else {
      DivWord(a + 1, b, a % b + 1, a / b);
    }
  }

  /** A multiple of b * c is a multiple of b. */
  lemma MultipleOfProduct(a: int, b: int, c: int)
    requires b > 0 && c > 0 && b * c > 0 && a % (b * c) == 0
    ensures a % b == 0
  {
    var q := a / (b * c);
    assert a == b * c * q;
    assert b * c * q == b * (c * q);
    DivWord(a, b, 0, c * q);
  }

  /** Reducing a summand early changes nothing. */
  lemma AddMod(a: int, b: int, m: int)
    requires m > 0
    ensures (a % m + b) % m == (a + b) % m
  {
    var q, p := a / m, (a % m + b) / m;
    assert a + b == m * (q + p) + (a % m + b) % m;
    DivWord(a + b, m, (a % m + b) % m, q + p);
  }
}
