/** Facts about multiplication and division by a variable that several modules share. */
module Arith {

  lemma MulMono(a: int, b: int, n: nat)
    requires a <= b
    ensures a * n <= b * n
  {
  }

  lemma SameQuotient(n: nat, q: nat, r: nat, q': nat, r': nat)
    requires r < n && r' < n && q * n + r == q' * n + r'
    ensures q == q' && r == r'
  {
    if q < q' {
      LaterRow(n, q, r, q', r');
    } else if q' < q {
      LaterRow(n, q', r', q, r);
    }
  }

  lemma LaterRow(n: nat, q: nat, r: nat, q': nat, r': nat)
    requires r < n && q < q'
    ensures q * n + r < q' * n + r'
  {
    MulMono(q + 1, q', n);
    assert (q + 1) * n == q * n + n;
  }

  /** Quotient and remainder are unique. */
  lemma DivModUnique(n: nat, q: nat, r: nat)
    requires r < n
    ensures (q * n + r) / n == q && (q * n + r) % n == r
  {
    var x := q * n + r;
    var q', r' := x / n, x % n;
    assert x == q' * n + r' && 0 <= r' < n;
    SameQuotient(n, q, r, q', r');
  }

  /** Two positions with the same quotient and remainder are the same position. */
  lemma DivModInjective(n: nat, x: nat, y: nat)
    requires 0 < n && x / n == y / n && x % n == y % n
    ensures x == y
  {
    assert x == x / n * n + x % n && y == y / n * n + y % n;
  }

  /** x / n < q exactly when x < q * n. */
  lemma DivBelow(n: nat, x: nat, q: nat)
    requires 0 < n
    ensures x / n < q <==> x < q * n
  {
    assert x == x / n * n + x % n;
    if x / n < q {
      MulMono(x / n + 1, q, n);
    } else {
      MulMono(q, x / n, n);
    }
  }
}
