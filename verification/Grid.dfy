/**
 Division with remainder, read as positions in rows of `n` cells. Sector and offset of a byte,
 cluster and sector of a block, copy and sector of a table: the kernel writes all of these with
 `/`, `%` and `*`. Row, Col and At are those operators (GridIsDivMod), written by repeated
 subtraction so that proofs about positions stay linear.
 */
module Grid {
  import opened Arith

  /** k / n */
  function Row(n: nat, k: nat): (q: nat)
    requires 0 < n
    decreases k
  {
    if k < n then 0 else 1 + Row(n, k - n)
  }

  /** k % n */
  function Col(n: nat, k: nat): (r: nat)
    requires 0 < n
    ensures r < n
    decreases k
  {
    if k < n then k else Col(n, k - n)
  }

  /** q * n + r */
  function At(n: nat, q: nat, r: nat): (k: nat)
    decreases q
  {
    if q == 0 then r else n + At(n, q - 1, r)
  }

  lemma {:induction false} AtIsMul(n: nat, q: nat, r: nat)
    ensures At(n, q, r) == q * n + r
    decreases q
  {
    if q == 0 {
    } else {
      AtIsMul(n, q - 1, r);
      assert q * n == (q - 1) * n + n;
    }
  }

  /** A position is the cell at its row and column. */
  lemma {:induction false} AtRowCol(n: nat, k: nat)
    requires 0 < n
    ensures At(n, Row(n, k), Col(n, k)) == k
    decreases k
  {
    if k < n {
    } else {
      AtRowCol(n, k - n);
    }
  }

  /** Row and column of a cell. */
  lemma {:induction false} RowColAt(n: nat, q: nat, r: nat)
    requires r < n
    ensures Row(n, At(n, q, r)) == q && Col(n, At(n, q, r)) == r
    decreases q
  {
    if q == 0 {
    } else {
      RowColAt(n, q - 1, r);
    }
  }

  lemma {:induction false} AtAdd(n: nat, q: nat, r: nat, i: nat)
    ensures At(n, q, r + i) == At(n, q, r) + i
    decreases q
  {
    if q == 0 {
    } else {
      AtAdd(n, q - 1, r, i);
    }
  }

  lemma {:induction false} AtNext(n: nat, q: nat, r: nat)
    ensures At(n, q + 1, r) == At(n, q, r) + n
    decreases q
  {
    if q == 0 {
    } else {
      AtNext(n, q - 1, r);
    }
  }

  lemma {:induction false} AtMono(n: nat, q: nat, q': nat, r: nat)
    requires q < q'
    ensures At(n, q, r) + n <= At(n, q', r)
    decreases q'
  {
    AtNext(n, q' - 1, r);
    if q < q' - 1 { AtMono(n, q, q' - 1, r); }
  }

  lemma {:induction false} RowMono(n: nat, k: nat, k': nat)
    requires 0 < n && k <= k'
    ensures Row(n, k) <= Row(n, k')
    decreases k
  {
    if k < n {
    } else {
      RowMono(n, k - n, k' - n);
    }
  }

  /** One step to the right, or to the start of the next row. */
  lemma {:induction false} NextCell(n: nat, k: nat, i: nat)
    requires 0 < n
    ensures Col(n, k) + i < n ==> Row(n, k + i) == Row(n, k) && Col(n, k + i) == Col(n, k) + i
    ensures Col(n, k) + i == n ==> Row(n, k + i) == Row(n, k) + 1 && Col(n, k + i) == 0
    decreases k
  {
    if k >= n {
      NextCell(n, k - n, i);
    } else if k + i == n {
      assert Row(n, k + i - n) == 0;
    }
  }

  /** Row and Col are / and %. */
  lemma GridIsDivMod(n: nat, k: nat)
    requires 0 < n
    ensures Row(n, k) == k / n && Col(n, k) == k % n
  {
    AtRowCol(n, k);
    AtIsMul(n, Row(n, k), Col(n, k));
    DivModUnique(n, Row(n, k), Col(n, k));
  }

  /** k lies before row q exactly when its row number is below q. */
  lemma RowBelow(n: nat, k: nat, q: nat)
    requires 0 < n
    ensures Row(n, k) < q <==> k < At(n, q, 0)
  {
    AtRowCol(n, k);
    AtAdd(n, Row(n, k), 0, Col(n, k));
    if Row(n, k) < q {
      AtMono(n, Row(n, k), q, 0);
    } else if Row(n, k) > q {
      AtMono(n, q, Row(n, k), 0);
    }
  }

  /** In one row, positions differ as their columns do. */
  lemma SameRow(n: nat, k: nat, k': nat)
    requires 0 < n && Row(n, k) == Row(n, k')
    ensures k - k' == Col(n, k) - Col(n, k')
  {
    AtRowCol(n, k);
    AtRowCol(n, k');
    AtAdd(n, Row(n, k), 0, Col(n, k));
    AtAdd(n, Row(n, k), 0, Col(n, k'));
  }
}
