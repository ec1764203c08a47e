/** The remainder of a division, without dividing. */
module Division {

  lemma Remainder(h: nat, n: nat, i: nat)
    requires i < n
    ensures h % n == i <==> exists q: nat :: h == q * n + i
  {
    assert h == h / n * n + h % n;
    if q: nat :| h == q * n + i {
      OneQuotient(h / n, q, n, h % n, i);
    }
  }

  lemma OneQuotient(a: int, b: int, n: nat, i: nat, j: nat)
    requires a * n + i == b * n + j && i < n && j < n
    ensures a == b && i == j
  {
    assert a * n - b * n == (a - b) * n;
    AtLeast(a - b, n);
    AtLeast(b - a, n);
  }

  lemma AtLeast(d: int, n: nat)
    ensures d >= 1 ==> d * n >= n
  {
    if d >= 1 {
      assert (d - 1) * n >= 0;
    }
  }
}
