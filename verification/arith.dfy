/** Small facts about Euclidean division and products that the grid proofs use. */
module Arith {

  /** Division and remainder are determined by any decomposition a == q * n + r with 0 <= r < n. */
  lemma DivModUnique(a: int, n: int, q: int, r: int)
    requires n > 0 && 0 <= r < n && a == q * n + r
    ensures a / n == q && a % n == r
  {
    var q', r' := a / n, a % n;
    assert (q' - q) * n == r - r';
    if q' > q {
      MulMonotone(q' - q, 1, n);
      assert false;
    } else if q' < q {
      MulMonotone(q - q', 1, n);
      assert false;
    }
  }

  /** A number is its quotient times n plus its remainder. */
  lemma DivModParts(a: int, n: int)
    requires n > 0
    ensures a == (a / n) * n + a % n
  {
  }

  /** Taking n away keeps the remainder modulo n; below n the remainder is the number itself. */
  lemma ModSkip(a: int, n: int)
    requires n > 0 && a >= 0
    ensures a >= n ==> (a - n) % n == a % n
    ensures a < n ==> a % n == a
  {
    if a >= n {
      DivModUnique(a - n, n, a / n - 1, a % n);
    } else {
      DivModUnique(a, n, 0, a);
    }
  }

  lemma MulMonotone(x: int, y: int, n: int)
    requires x >= y && n >= 0
    ensures x * n >= y * n
  {
  }

  /** The position r * n + c of a grid with n columns lies in row r and column c. */
  lemma RowCol(r: int, n: int, c: int)
    requires n > 0 && 0 <= c < n
    ensures (r * n + c) / n == r && (r * n + c) % n == c
  {
    DivModUnique(r * n + c, n, r, c);
  }

  /** A count of four-bit groups fills whole bytes exactly when it is even. */
  lemma NibbleBytes(count: nat)
    ensures (4 * count) % 8 == 0 <==> count % 2 == 0
  {
    DivModUnique(4 * count, 8, count / 2, 4 * (count % 2));
  }

  /** A multiple of n is its quotient times n. */
  lemma DivExact(a: int, n: int)
    requires n > 0 && a % n == 0
    ensures a == (a / n) * n
  {
  }

  /** A positive factor cancels. */
  lemma MulCancel(a: int, b: int, n: int)
    requires n > 0 && a * n == b * n
    ensures a == b
  {
    if a > b {
      MulMonotone(a - b, 1, n);
    } else if a < b {
      MulMonotone(b - a, 1, n);
    }
  }

  /** A cell (r, c) of an R-row, n-column grid lies before position R * n. */
  lemma CellInGrid(r: int, c: int, rows: int, n: int)
    requires 0 <= r < rows && 0 <= c < n
    ensures 0 <= r * n + c < rows * n
  {
    MulMonotone(rows - 1, r, n);
    assert (rows - 1) * n == rows * n - n;
    MulMonotone(r, 0, n);
  }

  /** Every position below rows * n is a cell (p / n, p % n) of the grid. */
  lemma PositionInGrid(p: int, rows: int, n: int)
    requires n > 0 && 0 <= p < rows * n
    ensures 0 <= p / n < rows && 0 <= p % n < n && p == (p / n) * n + p % n
  {
    if p / n >= rows {
      MulMonotone(p / n, rows, n);
      assert false;
    }
  }

  /** Stepping a position by one either stays in the row or starts the next one. */
  lemma DivModStep(a: int, n: int)
    requires a >= 0 && n > 0
    ensures a % n == n - 1 ==> (a + 1) / n == a / n + 1 && (a + 1) % n == 0
    ensures a % n != n - 1 ==> (a + 1) / n == a / n && (a + 1) % n == a % n + 1
  {
    if a % n == n - 1 {
      DivModUnique(a + 1, n, a / n + 1, 0);
    } else {
      DivModUnique(a + 1, n, a / n, a % n + 1);
    }
  }

  /** Python's ceil(len / n) for non-negative len. */
  function CeilDiv(a: nat, n: nat): (r: nat)
    requires n > 0
    ensures r * n >= a > (r - 1) * n
  {
    if a % n == 0 then a / n else a / n + 1
  }

  /** The number of rows of width n that hold a things is determined by the ceiling bounds. */
  lemma CeilDivUnique(a: nat, n: nat, rows: nat)
    requires n > 0 && rows * n >= a > (rows - 1) * n
    ensures CeilDiv(a, n) == rows
  {
    var c := CeilDiv(a, n);
    if c < rows {
      MulMonotone(rows - 1, c, n);
      assert false;
    } else if c > rows {
      MulMonotone(c - 1, rows, n);
      assert false;
    }
  }
}
