/** Cutting `n` records into slices of equal size (mprofile.py:358-364). */
module Sampling {

  function CeilDiv(a: nat, b: nat): nat
    requires b > 0
  {
    (a + b - 1) / b
  }

  /** The end of slice `i`. */
  function EndOf(i: nat, size: nat, n: nat): nat {
    if (i + 1) * size <= n then (i + 1) * size else n
  }

  lemma DivBounds(a: nat, b: nat)
    requires b > 0
    ensures a / b * b <= a < (a / b + 1) * b
  {
  }

  lemma Quotient(n: nat, c: nat)
    requires c > 0
    ensures n / c == 0 <==> n < c
  {
  }

  lemma CeilBounds(n: nat, size: nat)
    requires size > 0
    ensures n <= CeilDiv(n, size) * size < n + size
  {
    DivBounds(n + size - 1, size);
  }

  lemma MulMonotone(a: nat, b: nat, size: nat)
    requires a <= b
    ensures a * size <= b * size
  {
  }

  lemma Cancel(a: nat, b: nat, size: nat)
    requires a * size < b * size
    ensures a < b
  {
    MulMonotone(b, if b <= a then a else b, size);
  }

  lemma Successor(a: nat, size: nat)
    ensures (a + 1) * size == a * size + size
  {
  }

  lemma NextSlice(i: nat, size: nat, n: nat)
    requires size > 0 && i * size < n
    ensures i < CeilDiv(n, size) && i * size + size == (i + 1) * size
  {
    CeilBounds(n, size);
    Cancel(i, CeilDiv(n, size), size);
  }

  lemma AllSlices(i: nat, size: nat, n: nat)
    requires size > 0 && i * size >= n && i <= CeilDiv(n, size)
    ensures i == CeilDiv(n, size)
  {
    CeilBounds(n, size);
    Successor(i, size);
    Cancel(CeilDiv(n, size), i + 1, size);
  }

  /** Every record is in a slice. */
  lemma SliceOf(p: nat, size: nat, n: nat) returns (i: nat)
    requires size > 0 && p < n
    ensures i < CeilDiv(n, size) && i * size <= p < EndOf(i, size, n)
  {
    i := p / size;
    DivBounds(p, size);
    CeilBounds(n, size);
    Cancel(i, CeilDiv(n, size), size);
  }

  /** Slices do not overlap. */
  lemma Apart(i: nat, j: nat, size: nat, n: nat)
    requires i < j
    ensures EndOf(i, size, n) <= j * size
  {
    MulMonotone(i + 1, j, size);
  }

  lemma CeilUnique(n: nat, size: nat, m: nat)
    requires size > 0 && n <= m * size < n + size
    ensures m == CeilDiv(n, size)
  {
    CeilBounds(n, size);
    var k := CeilDiv(n, size);
    Successor(k, size);
    Successor(m, size);
    Cancel(m, k + 1, size);
    Cancel(k, m + 1, size);
  }

  lemma FewRest(c: nat, size: nat, k: nat)
    requires 1 <= c && size > 0 && k * size < c - 1 + size
    ensures k <= c - 1
  {
    MulMonotone(1, size, c - 1);
    Successor(c - 1, size);
    Cancel(k, c, size);
  }

  /** How many samples a request for `c` of them yields. */
  lemma SampleCount(n: nat, c: nat)
    requires 1 <= c <= n
    ensures n / c > 0 && CeilDiv(n, n / c) == c + CeilDiv(n % c, n / c)
    ensures c <= CeilDiv(n, n / c) <= 2 * c - 1
  {
    Quotient(n, c);
    var size, rest := n / c, n % c;
    var k := CeilDiv(rest, size);
    CeilBounds(rest, size);
    assert n == c * size + rest;
    assert (c + k) * size == c * size + k * size;
    CeilUnique(n, size, c + k);
    FewRest(c, size, k);
  }
}
