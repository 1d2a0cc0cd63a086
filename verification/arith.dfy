/** Integer facts about multiplication and floor division that the timing
    and colour computations rely on, and the truncating division Python's
    `int()` applies to a quotient. */
module Arith {
  lemma MulMono(a: int, b: int, n: int)
    requires a <= b && n >= 0
    ensures a * n <= b * n
  {
  }

  /** Floor division is determined by its defining bounds. */
  lemma DivUnique(x: int, n: int, q: int)
    requires n > 0 && q * n <= x < q * n + n
    ensures x / n == q
  {
    var q0 := x / n;
    if q0 > q {
      MulMono(q + 1, q0, n);
    } else if q0 < q {
      MulMono(q0 + 1, q, n);
    }
  }

  lemma DivMonotone(x: int, y: int, n: int)
    requires n > 0 && x <= y
    ensures x / n <= y / n
  {
    var a := x / n;
    var b := y / n;
    if a > b {
      MulMono(b + 1, a, n);
    }
  }

  lemma MulDivCancel(c: int, n: int)
    requires n > 0
    ensures (c * n) / n == c
  {
    DivUnique(c * n, n, c);
  }

  /** Adding `c` to `x` adds `c / n` or one more to the floor quotient by
      `n`. */
  lemma DivAddBetween(x: nat, c: nat, n: int)
    requires n > 0
    ensures c / n <= (x + c) / n - x / n <= c / n + 1
  {
    var a, r := x / n, x % n;
    var q, t := c / n, c % n;
    assert x + c == (a + q) * n + (r + t) by {
      assert (a + q) * n == a * n + q * n;
    }
    if r + t < n {
      DivUnique(x + c, n, a + q);
    } else {
      assert (a + q + 1) * n == (a + q) * n + n;
      DivUnique(x + c, n, a + q + 1);
    }
  }

  /** Division truncating toward zero, as Python's `int()` applies to a
      quotient `a / b`. */
  function TruncDiv(a: int, b: int): int
    requires b > 0
  {
    if a >= 0 then a / b else -((-a) / b)
  }

  lemma TruncDivExact(c: int, b: int)
    requires b > 0
    ensures TruncDiv(c * b, b) == c
  {
    TruncDivBetween(c, c, c * b, b);
  }

  /** A quotient that lies between two integers truncates to a value between
      them. */
  lemma TruncDivBetween(lo: int, hi: int, a: int, b: int)
    requires b > 0 && lo * b <= a <= hi * b
    ensures lo <= TruncDiv(a, b) <= hi
  {
    if a >= 0 {
      FloorBetween(lo, hi, a, b);
    } else {
      assert (-hi) * b <= -a <= (-lo) * b;
      FloorBetween(-hi, -lo, -a, b);
    }
  }

  lemma FloorBetween(lo: int, hi: int, a: int, b: int)
    requires b > 0 && lo * b <= a <= hi * b
    ensures lo <= a / b <= hi
  {
    DivMonotone(a, hi * b, b);
    MulDivCancel(hi, b);
    DivMonotone(lo * b, a, b);
    MulDivCancel(lo, b);
  }
}
