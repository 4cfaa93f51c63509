/** Remainders and products, each fact in a lemma of its own. */
module Arithmetic {
  lemma QuotientIs(x: int, r: nat, q: int, j: nat)
    requires j < r && x == q * r + j
    ensures x % r == j
  {
    var k := x / r - q;
    assert k * r == j - x % r;
    if k > 0 {
      Grows(k, r);
    } else if k < 0 {
      Grows(-k, r);
    }
  }

  lemma Grows(k: nat, r: nat)
    requires k > 0
    ensures k * r >= r
  {}

  lemma DivisionIs(x: nat, r: nat, q: nat, j: nat)
    requires j < r && x == q * r + j
    ensures x / r == q
  {
    QuotientIs(x, r, q, j);
    var k := x / r;
    assert x == k * r + j;
    if k < q {
      Grows(q - k, r);
    } else if k > q {
      Grows(k - q, r);
    }
  }

  lemma RemainderOfMultiple(k: nat, m: nat, x: nat)
    requires x < m
    ensures (m * k + x) % m == x
  {
    QuotientIs(m * k + x, m, k, x);
  }

  lemma BlockLess(n: nat, r: nat)
    requires r % 8 == 0 && r <= n
    ensures (n - r) % 8 == n % 8
  {}

  lemma BothAligned(m: nat, n: nat)
    requires m % 8 == 0 && n % 8 == 0
    ensures (m + n) % 8 == 0
  {}

  // A product, kept out of sight of the solver where only sums of it matter
  predicate IsProduct(n: nat, a: nat, b: nat)
  {
    n == a * b
  }

  // x units are the length of j blocks, of n in all.
  lemma NextBlock(x: nat, j: nat, n: nat, total: nat, blockLength: nat)
    requires IsProduct(x, j, blockLength) && IsProduct(total, n, blockLength) && j < n
    ensures IsProduct(x + blockLength, j + 1, blockLength) && x + blockLength <= total
  {
    assert (j + 1) * blockLength == j * blockLength + blockLength <= n * blockLength;
  }

  lemma FirstAndLastBlock(blockLength: nat)
    ensures IsProduct(0, 0, blockLength)
    ensures forall x: nat, y: nat, n: nat :: IsProduct(x, n, blockLength) && IsProduct(y, n, blockLength) ==> x == y
  {}
}
