/** Multiplication, division and remainder of natural numbers. */
module Arithmetic {

  lemma {:induction false} MulOrder(a: nat, b: nat, n: nat)
    ensures a <= b ==> a * n <= b * n
    ensures a < b ==> a * n + n <= b * n
  {
    if a < b {
      MulOrder(a, b - 1, n);
      assert b * n == (b - 1) * n + n;
    }
  }

  lemma DivMod(k: nat, n: nat)
    requires n > 0
    ensures k == (k / n) * n + k % n && 0 <= k % n < n && k / n >= 0
  {
  }

  lemma DivModUnique(i: nat, j: nat, n: nat)
    requires i < n
    ensures (i + j * n) / n == j && (i + j * n) % n == i
  {
    var k := i + j * n;
    DivMod(k, n);
    MulOrder(k / n, j, n);
    MulOrder(j, k / n, n);
  }

  /** Rows of length `n`: the place of column `i` of row `j`. */
  lemma RowPlace(i: nat, j: nat, n: nat, rows: nat)
    requires i < n && j < rows
    ensures i + j * n < rows * n
    ensures (i + j * n) / n == j && (i + j * n) % n == i
  {
    DivModUnique(i, j, n);
    MulOrder(j, rows, n);
  }

  lemma PlaceRow(k: nat, n: nat, rows: nat)
    requires n > 0 && k < rows * n
    ensures k / n < rows && k % n < n && k == k % n + (k / n) * n
  {
    DivMod(k, n);
    MulOrder(rows, k / n, n);
  }

  lemma MulCommutative(m: nat, n: nat)
    ensures m * n == n * m
  {
  }

  lemma MulStep(m: nat, n: nat)
    ensures m * (n + 1) == m * n + m && (n + 1) * m == n * m + m
    ensures m * 0 == 0 && 0 * m == 0
  {
  }
}
