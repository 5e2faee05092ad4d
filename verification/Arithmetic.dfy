/** The few facts about rows and columns that need multiplication. */
module Arithmetic {

  function Min(a: nat, b: nat): nat {
    if a < b then a else b
  }

  lemma MulMonotone(a: int, b: int, c: int)
    requires a <= b && 0 <= c
    ensures a * c <= b * c
  {
  }

  lemma MulStep(q: int, c: int)
    ensures (q + 1) * c == q * c + c
  {
  }

  lemma MulSum(a: int, b: int, c: int)
    ensures (a + b) * c == a * c + b * c
  {
  }

  lemma MulNegative(a: int, c: int)
    ensures -a * c == -(a * c)
  {
  }

  /** Quotient and remainder are determined by the division equation. */
  lemma DivUnique(a: int, c: int, q: int, r: int)
    requires c >= 1 && a == q * c + r && 0 <= r < c
    ensures a / c == q && a % c == r
  {
    var p := a / c;
    assert a == p * c + a % c;
    if p > q {
      MulMonotone(q + 1, p, c);
      MulStep(q, c);
    } else if p < q {
      MulMonotone(p + 1, q, c);
      MulStep(p, c);
    }
  }

  /** A cell of a grid lies in one of its rows. */
  lemma RowInGrid(p: int, rows: int, cols: int)
    requires cols >= 1 && 0 <= p < rows * cols
    ensures 0 <= p / cols < rows && p == p / cols * cols + p % cols
    ensures p / cols * cols + cols <= rows * cols
  {
    var q := p / cols;
    assert p == q * cols + p % cols;
    if q >= rows {
      MulMonotone(rows, q, cols);
    }
    if q < 0 {
      MulMonotone(q + 1, 0, cols);
      MulStep(q, cols);
    }
    if q < rows {
      MulMonotone(q + 1, rows, cols);
      MulStep(q, cols);
    }
  }

  /** A row and a column of a grid make one of its cells. */
  lemma CellInGrid(r: int, c: int, rows: int, cols: int)
    requires 0 <= r < rows && 0 <= c < cols
    ensures 0 <= r * cols + c < rows * cols
  {
    MulMonotone(0, r, cols);
    MulMonotone(r + 1, rows, cols);
    MulStep(r, cols);
  }

  lemma QuotientMonotone(a: int, b: int, c: int)
    requires c >= 1 && a <= b
    ensures a / c <= b / c
  {
    var p, q := a / c, b / c;
    assert a == p * c + a % c && b == q * c + b % c;
    if q < p {
      MulMonotone(q + 1, p, c);
      MulStep(q, c);
    }
  }

  /** Whole rows added leave the column as it is. */
  lemma DivShift(a: int, k: int, c: int)
    requires c >= 1
    ensures (a + k * c) / c == a / c + k && (a + k * c) % c == a % c
  {
    var q, r := a / c, a % c;
    assert (q + k) * c == q * c + k * c;
    DivUnique(a + k * c, c, q + k, r);
  }

  lemma Multiple(k: int, c: int)
    requires c >= 1
    ensures (k * c) % c == 0 && (k * c) / c == k
  {
    DivUnique(k * c, c, k, 0);
  }

  lemma CongruentClose(x: int, y: int, c: int)
    requires c >= 1 && x % c == y % c && -c < x - y < c
    ensures x == y
  {
    var p, q := x / c, y / c;
    assert x == p * c + x % c && y == q * c + y % c;
    if p > q {
      MulMonotone(q + 1, p, c);
      MulStep(q, c);
    } else if p < q {
      MulMonotone(p + 1, q, c);
      MulStep(p, c);
    }
  }

  /** A multiple of `c` may be subtracted without changing the remainder. */
  lemma SubMultiple(a: int, m: int, c: int)
    requires c >= 1 && m % c == 0
    ensures (a - m) % c == a % c
  {
    DivShift(a, -(m / c), c);
    assert m == m / c * c;
    assert -(m / c) * c == -m;
  }

  lemma SumOfMultiples(m: int, n: int, c: int)
    requires c >= 1 && m % c == 0 && n % c == 0
    ensures (m + n) % c == 0
  {
    DivShift(m, n / c, c);
    assert n == n / c * c;
  }

  lemma PositiveMultiple(m: nat, c: nat)
    requires c >= 1 && m % c == 0
    ensures m == 0 || m >= c
  {
    if 0 < m < c {
      DivUnique(m, c, 0, m);
    }
  }

  lemma RemainderIsSmall(p: int, c: int)
    requires c >= 1
    ensures p % c % c == p % c
  {
    DivUnique(p % c, c, 0, p % c);
  }
}
