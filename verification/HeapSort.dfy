/**
 Heap sort (lib/heapsort.c): `num` elements of `size` bytes sorted in place, all positions kept
 as byte offsets.
 */
module HeapSort {
  import opened Bytes
  import opened Grid

  type Element = seq<byte>
  type Compare = (Element, Element) -> int

  /** A comparison that orders elements: antisymmetric in sign, and transitive. */
  ghost predicate TotalPreorder(cmp: Compare) {
    && (forall x, y :: cmp(x, y) < 0 <==> cmp(y, x) > 0)
    && (forall x, y, z :: cmp(x, y) <= 0 && cmp(y, z) <= 0 ==> cmp(x, z) <= 0)
  }

  lemma Transitive(cmp: Compare, x: Element, y: Element, z: Element)
    requires TotalPreorder(cmp) && cmp(x, y) <= 0 && cmp(y, z) <= 0
    ensures cmp(x, z) <= 0
  {
  }

  /** Of two elements each is below the other or above it. */
  lemma Flip(cmp: Compare, x: Element, y: Element)
    requires TotalPreorder(cmp)
    ensures cmp(x, y) < 0 <==> cmp(y, x) > 0
    ensures cmp(x, y) > 0 <==> cmp(y, x) < 0
  {
  }

  // ---- Elements and swaps ----

  /** The bytes read as a sequence of elements. */
  ghost function Elements(b: seq<byte>, size: nat, num: nat): (e: seq<Element>)
    requires |b| == At(size, num, 0)
    ensures |e| == num
  {
    seq(num, k requires 0 <= k < num => ElementAt(b, size, num, k))
  }

  ghost function ElementAt(b: seq<byte>, size: nat, num: nat, k: nat): (e: Element)
    requires |b| == At(size, num, 0) && k < num
  {
    AtMono(size, k, num, 0);
    b[At(size, k, 0)..At(size, k, 0) + size]
  }

  /** Two ranges of `size` bytes exchanged, the rest left alone. */
  ghost predicate Swapped(b: seq<byte>, b': seq<byte>, i: nat, j: nat, size: nat)
    requires i + size <= |b| && j + size <= |b|
  {
    && |b'| == |b|
    && b'[i..i + size] == b[j..j + size]
    && b'[j..j + size] == b[i..i + size]
    && forall x :: 0 <= x < |b| && !(i <= x < i + size) && !(j <= x < j + size) ==> b'[x] == b[x]
  }

  function Exchange<T>(e: seq<T>, p: nat, q: nat): (r: seq<T>)
    requires p < |e| && q < |e|
    ensures |r| == |e|
  {
    e[p := e[q]][q := e[p]]
  }

  lemma RangesApart(size: nat, k: nat, l: nat)
    requires k != l
    ensures At(size, k, 0) + size <= At(size, l, 0) || At(size, l, 0) + size <= At(size, k, 0)
  {
    if k < l { AtMono(size, k, l, 0); } else { AtMono(size, l, k, 0); }
  }

  /** Exchanging the bytes of two elements exchanges the elements. */
  lemma SwappedElements(b: seq<byte>, b': seq<byte>, size: nat, num: nat, p: nat, q: nat)
    requires |b| == At(size, num, 0) && p < num && q < num && p != q
    requires At(size, p, 0) + size <= |b| && At(size, q, 0) + size <= |b|
    requires Swapped(b, b', At(size, p, 0), At(size, q, 0), size)
    ensures Elements(b', size, num) == Exchange(Elements(b, size, num), p, q)
  {
    assert |b'| == |b|;
    hide At, ElementAt, Swapped;
    forall k | 0 <= k < num ensures Elements(b', size, num)[k] == Exchange(Elements(b, size, num), p, q)[k] {
      SwappedElement(b, b', size, num, p, q, k);
    }
  }

  lemma SwappedElement(b: seq<byte>, b': seq<byte>, size: nat, num: nat, p: nat, q: nat, k: nat)
    requires |b| == |b'| == At(size, num, 0) && p < num && q < num && k < num && p != q
    requires At(size, p, 0) + size <= |b| && At(size, q, 0) + size <= |b|
    requires Swapped(b, b', At(size, p, 0), At(size, q, 0), size)
    ensures ElementAt(b', size, num, k) == ElementAt(b, size, num, if k == p then q else if k == q then p else k)
  {
    hide At;
    if k != p && k != q {
      AtMono(size, k, num, 0);
      RangesApart(size, k, p);
      RangesApart(size, k, q);
      SameSlice(b, b', At(size, k, 0), size);
    }
  }

  lemma SameSlice(b: seq<byte>, b': seq<byte>, o: nat, size: nat)
    requires |b| == |b'| && o + size <= |b|
    requires forall x :: o <= x < o + size ==> b'[x] == b[x]
    ensures b'[o..o + size] == b[o..o + size]
  {
  }

  lemma SwappedNone(b: seq<byte>, i: nat, j: nat)
    requires i <= |b| && j <= |b|
    ensures Swapped(b, b, i, j, 0)
  {
  }

  /** One more pair of bytes. */
  lemma SwappedNext(b: seq<byte>, c: seq<byte>, i: nat, j: nat, x: nat)
    requires i + x < |b| && j + x < |b| && (i + x < j || j + x < i) && Swapped(b, c, i, j, x)
    ensures Swapped(b, c[i + x := c[j + x]][j + x := c[i + x]], i, j, x + 1)
  {
    var d := c[i + x := c[j + x]][j + x := c[i + x]];
    SliceNext(b, c, d, j, i, x);
    SliceNext(b, c, d, i, j, x);
  }

  lemma SliceNext(b: seq<byte>, c: seq<byte>, d: seq<byte>, i: nat, j: nat, x: nat)
    requires |b| == |c| == |d| && i + x < |b| && j + x < |b| && c[j..j + x] == b[i..i + x]
    requires d[j + x] == b[i + x] && forall y :: j <= y < j + x ==> d[y] == c[y]
    ensures d[j..j + x + 1] == b[i..i + x + 1]
  {
    SameSlice(c, d, j, x);
    assert d[j..j + x + 1] == d[j..j + x] + [d[j + x]];
    assert b[i..i + x + 1] == b[i..i + x] + [b[i + x]];
  }

  /** genericSwap: byte by byte, at least once. */
  method GenericSwap(a: array<byte>, i: nat, j: nat, size: nat)
    requires 0 < size && i + size <= a.Length && j + size <= a.Length && (i + size <= j || j + size <= i)
    modifies a
    ensures Swapped(old(a[..]), a[..], i, j, size)
  {
    hide Swapped;
    ghost var b := a[..];
    SwappedNone(b, i, j);
    var x := 0;
    while x < size
      invariant 0 <= x <= size && Swapped(b, a[..], i, j, x)
    {
      ghost var c := a[..];
      var t := a[i + x];
      a[i + x] := a[j + x];
      a[j + x] := t;
      assert a[..] == c[i + x := c[j + x]][j + x := c[i + x]];
      SwappedNext(b, c, i, j, x);
      x := x + 1;
    }
  }

  /** u32Swap: two DWORDs loaded and stored. It does what genericSwap does at size 4. */
  method U32Swap(a: array<byte>, i: nat, j: nat)
    requires i + 4 <= a.Length && j + 4 <= a.Length && (i + 4 <= j || j + 4 <= i)
    modifies a
    ensures Swapped(old(a[..]), a[..], i, j, 4)
  {
    Le32RoundTrip(a[..], i);
    Le32RoundTrip(a[..], j);
    var t := Le32(a[..], i);
    Store32(a, i, Le32(a[..], j));
    Store32(a, j, t);
  }

  /** The swap Sort falls back on: by DWORD at size 4, by byte otherwise. */
  method SwapElements(a: array<byte>, size: nat, i: nat, j: nat, ghost num: nat, ghost p: nat, ghost q: nat)
    requires 0 < size && a.Length == At(size, num, 0) && p < num && q < num && p != q
    requires i == At(size, p, 0) && j == At(size, q, 0)
    modifies a
    ensures Elements(a[..], size, num) == Exchange(old(Elements(a[..], size, num)), p, q)
  {
    hide At;
    AtMono(size, p, num, 0);
    AtMono(size, q, num, 0);
    RangesApart(size, p, q);
    ghost var b := a[..];
    if size == 4 {
      U32Swap(a, i, j);
    } else {
      GenericSwap(a, i, j, size);
    }
    SwappedElements(b, a[..], size, num, p, q);
  }

  // ---- Permutations ----

  /** The first n elements are rearranged and the others stay where they are. */
  ghost predicate Shuffled<T>(e: seq<T>, e': seq<T>, n: nat)
    requires n <= |e|
  {
    |e'| == |e| && e'[n..] == e[n..] && multiset(e'[..n]) == multiset(e[..n])
  }

  lemma ExchangeShuffles<T>(e: seq<T>, p: nat, q: nat, n: nat)
    requires p < n && q < n && n <= |e|
    ensures Shuffled(e, Exchange(e, p, q), n)
  {
    assert Exchange(e, p, q)[..n] == Exchange(e[..n], p, q);
    ExchangeKeepsElements(e[..n], p, q);
  }

  lemma ExchangeKeepsElements<T>(e: seq<T>, p: nat, q: nat)
    requires p < |e| && q < |e|
    ensures multiset(Exchange(e, p, q)) == multiset(e)
  {
    var f := e[p := e[q]];
    assert multiset(f) == multiset(e) - multiset{e[p]} + multiset{e[q]};
    assert multiset(f[q := e[p]]) == multiset(f) - multiset{f[q]} + multiset{e[p]};
  }

  /** A shuffle of a prefix is a shuffle of everything. */
  lemma ShuffledAll<T>(e: seq<T>, e': seq<T>, n: nat)
    requires n <= |e| && Shuffled(e, e', n)
    ensures multiset(e') == multiset(e)
  {
    assert e == e[..n] + e[n..] && e' == e'[..n] + e'[n..];
  }

  // ---- Heaps ----

  /** Node k is no smaller than its children below n. */
  ghost predicate HeapAt(e: seq<Element>, cmp: Compare, n: nat, k: nat)
    requires n <= |e| && k < n
  {
    && (2 * k + 1 < n ==> cmp(e[2 * k + 1], e[k]) <= 0)
    && (2 * k + 2 < n ==> cmp(e[2 * k + 2], e[k]) <= 0)
  }

  ghost predicate Heap(e: seq<Element>, cmp: Compare, lo: nat, n: nat)
    requires n <= |e|
  {
    forall k :: lo <= k < n ==> HeapAt(e, cmp, n, k)
  }

  /** A heap but for node r, whose children its parent still dominates. */
  ghost predicate Sifting(e: seq<Element>, cmp: Compare, lo: nat, n: nat, r: nat)
    requires n <= |e|
  {
    && (forall k :: lo <= k < n && k != r ==> HeapAt(e, cmp, n, k))
    && (forall k :: lo <= k < n && (r == 2 * k + 1 || r == 2 * k + 2) ==> Dominates(e, cmp, n, k, r))
  }

  ghost predicate Dominates(e: seq<Element>, cmp: Compare, n: nat, k: nat, r: nat)
    requires n <= |e| && k < n
  {
    && (2 * r + 1 < n ==> cmp(e[2 * r + 1], e[k]) <= 0)
    && (2 * r + 2 < n ==> cmp(e[2 * r + 2], e[k]) <= 0)
  }

  /** c is the greater child of r. */
  ghost predicate GreaterChild(e: seq<Element>, cmp: Compare, n: nat, r: nat, c: nat)
    requires n <= |e|
  {
    && c < n
    && (c == 2 * r + 1 || c == 2 * r + 2)
    && cmp(e[2 * r + 1], e[c]) <= 0
    && (2 * r + 2 < n ==> cmp(e[2 * r + 2], e[c]) <= 0)
  }

  /** Exchanging a node with its greater child moves the fault down. */
  lemma SiftStep(e: seq<Element>, cmp: Compare, lo: nat, n: nat, r: nat, c: nat)
    requires TotalPreorder(cmp) && n <= |e| && lo <= r < n
    requires Sifting(e, cmp, lo, n, r) && GreaterChild(e, cmp, n, r, c) && cmp(e[r], e[c]) < 0
    ensures Sifting(Exchange(e, r, c), cmp, lo, n, c)
  {
    hide TotalPreorder;
    var e' := Exchange(e, r, c);
    forall k | lo <= k < n && k != c ensures HeapAt(e', cmp, n, k) {
      if k != r && (r == 2 * k + 1 || r == 2 * k + 2) {
        assert Dominates(e, cmp, n, k, r) && HeapAt(e, cmp, n, k);
      } else if k != r {
        assert HeapAt(e, cmp, n, k);
      }
    }
    forall k | lo <= k < n && (c == 2 * k + 1 || c == 2 * k + 2) ensures Dominates(e', cmp, n, k, c) {
      assert k == r && HeapAt(e, cmp, n, c);
    }
  }

  /** When the node is no smaller than its greater child, or has none, the heap is whole. */
  lemma SiftDone(e: seq<Element>, cmp: Compare, lo: nat, n: nat, r: nat, c: nat)
    requires TotalPreorder(cmp) && n <= |e| && lo <= r
    requires Sifting(e, cmp, lo, n, r)
    requires 2 * r + 1 < n ==> GreaterChild(e, cmp, n, r, c) && cmp(e[r], e[c]) >= 0
    ensures Heap(e, cmp, lo, n)
  {
    hide TotalPreorder;
    forall k | lo <= k < n ensures HeapAt(e, cmp, n, k) {
      if k == r && 2 * r + 1 < n {
        Flip(cmp, e[r], e[c]);
        Transitive(cmp, e[2 * r + 1], e[c], e[r]);
        if 2 * r + 2 < n { Transitive(cmp, e[2 * r + 2], e[c], e[r]); }
      }
    }
  }

  /** The root of a heap is its maximum. */
  lemma {:induction false} RootIsGreatest(e: seq<Element>, cmp: Compare, n: nat, k: nat)
    requires TotalPreorder(cmp) && n <= |e| && Heap(e, cmp, 0, n) && k < n
    ensures cmp(e[k], e[0]) <= 0
    decreases k
  {
    hide TotalPreorder;
    if k == 0 {
      Flip(cmp, e[0], e[0]);
    } else {
      var p := (k - 1) / 2;
      RootIsGreatest(e, cmp, n, p);
      assert HeapAt(e, cmp, n, p);
      Transitive(cmp, e[k], e[p], e[0]);
    }
  }

  // ---- Byte offsets ----

  lemma {:induction false} OffsetDouble(size: nat, k: nat)
    ensures At(size, 2 * k, 0) == 2 * At(size, k, 0)
  {
    if k == 0 {
    } else {
      OffsetDouble(size, k - 1);
      AtNext(size, 2 * k - 2, 0);
      AtNext(size, 2 * k - 1, 0);
    }
  }

  /** The children of the node at offset r are at 2r + size and 2r + 2 size. */
  lemma ChildOffset(size: nat, k: nat)
    ensures At(size, 2 * k + 1, 0) == 2 * At(size, k, 0) + size
    ensures At(size, 2 * k + 2, 0) == 2 * At(size, k, 0) + size + size
  {
    OffsetDouble(size, k);
    AtNext(size, 2 * k, 0);
    AtNext(size, 2 * k + 1, 0);
  }

  lemma OffsetOrder(size: nat, k: nat, l: nat)
    requires 0 < size
    ensures At(size, k, 0) < At(size, l, 0) <==> k < l
  {
    if k < l { AtMono(size, k, l, 0); } else if l < k { AtMono(size, l, k, 0); }
  }

  // ---- The sort ----

  /** Elements from m on are in order. */
  ghost predicate SortedFrom(e: seq<Element>, cmp: Compare, m: nat) {
    forall i, j :: m <= i <= j < |e| ==> cmp(e[i], e[j]) <= 0
  }

  /** x is no greater than any element from m on. */
  ghost predicate Below(e: seq<Element>, cmp: Compare, m: nat, x: Element) {
    forall j :: m <= j < |e| ==> cmp(x, e[j]) <= 0
  }

  /** Everything before m is no greater than anything from m on. */
  ghost predicate Parted(e: seq<Element>, cmp: Compare, m: nat)
    requires m <= |e|
  {
    forall x :: x in multiset(e[..m]) ==> Below(e, cmp, m, x)
  }

  lemma ShuffledParted(e: seq<Element>, e': seq<Element>, cmp: Compare, m: nat)
    requires m <= |e| && Shuffled(e, e', m) && Parted(e, cmp, m) && SortedFrom(e, cmp, m)
    ensures Parted(e', cmp, m) && SortedFrom(e', cmp, m)
  {
    assert forall j :: m <= j < |e| ==> e'[j] == e'[m..][j - m] == e[m..][j - m] == e[j];
    forall x | x in multiset(e'[..m]) ensures Below(e', cmp, m, x) {
      assert Below(e, cmp, m, x);
    }
  }

  /** The root is no smaller than the rest of the heap and no greater than what lies behind it. */
  lemma RootBetween(e: seq<Element>, cmp: Compare, m: nat, k: nat)
    requires TotalPreorder(cmp) && k < m <= |e| && Heap(e, cmp, 0, m) && Parted(e, cmp, m)
    ensures Below(e, cmp, m, e[k]) && cmp(e[k], e[0]) <= 0
  {
    hide TotalPreorder, Heap, Below;
    RootIsGreatest(e, cmp, m, k);
    assert e[..m][k] in multiset(e[..m]);
  }

  /** Moving the root behind the heap extends the sorted part. */
  lemma RootTaken(e: seq<Element>, cmp: Compare, l: nat)
    requires TotalPreorder(cmp) && l < |e|
    requires Heap(e, cmp, 0, l + 1) && Parted(e, cmp, l + 1) && SortedFrom(e, cmp, l + 1)
    ensures Parted(Exchange(e, 0, l), cmp, l) && SortedFrom(Exchange(e, 0, l), cmp, l)
  {
    hide TotalPreorder, Heap, Parted;
    var e' := Exchange(e, 0, l);
    RootBetween(e, cmp, l + 1, 0);
    forall i, j | l <= i <= j < |e'| ensures cmp(e'[i], e'[j]) <= 0 {
      if i == l { assert e'[i] == e[0]; }
    }
    forall i | 0 <= i < l ensures Below(e', cmp, l, e'[i]) {
      RootBetween(e, cmp, l + 1, if i == 0 then l else i);
    }
    PartedByIndex(e', cmp, l);
  }

  lemma PartedByIndex(e: seq<Element>, cmp: Compare, m: nat)
    requires m <= |e| && forall i :: 0 <= i < m ==> Below(e, cmp, m, e[i])
    ensures Parted(e, cmp, m)
  {
    hide Below;
    forall x | x in multiset(e[..m]) ensures Below(e, cmp, m, x) {
      assert x in e[..m];
    }
  }

  /** The heap without its last node, which has become the root. */
  lemma RootReplaced(e: seq<Element>, cmp: Compare, l: nat)
    requires l < |e| && Heap(e, cmp, 0, l + 1)
    ensures Sifting(Exchange(e, 0, l), cmp, 0, l, 0)
  {
    forall k | 0 < k < l ensures HeapAt(Exchange(e, 0, l), cmp, l, k) {
      assert HeapAt(e, cmp, l + 1, k);
    }
  }

  /** The greater child of the node at offset r. */
  method PickChild(a: array<byte>, size: nat, cmp: Compare, r: nat, n: nat, ghost num: nat, ghost k: nat, ghost m: nat)
      returns (c: nat)
    requires 0 < size && a.Length == At(size, num, 0) && m <= num && 2 * k + 1 < m && TotalPreorder(cmp)
    requires r == At(size, k, 0) && n == At(size, m, 0)
    ensures c == At(size, Row(size, c), 0) && GreaterChild(Elements(a[..], size, num), cmp, m, k, Row(size, c))
  {
    hide At, Row, Col, TotalPreorder, Elements, ElementAt;
    c := r * 2 + size;
    ChildOffset(size, k);
    RowColAt(size, 2 * k + 1, 0);
    RowColAt(size, 2 * k + 2, 0);
    AtNext(size, m - 1, 0);
    OffsetOrder(size, 2 * k + 1, m - 1);
    ghost var e := Elements(a[..], size, num);
    ElementSlice(a[..], size, num, 2 * k + 1);
    Flip(cmp, e[2 * k + 1], e[2 * k + 1]);
    if c < n - size {
      ElementSlice(a[..], size, num, 2 * k + 2);
      Flip(cmp, e[2 * k + 2], e[2 * k + 1]);
      Flip(cmp, e[2 * k + 2], e[2 * k + 2]);
      if cmp(a[c..c + size], a[c + size..c + size + size]) < 0 {
        c := c + size;
      }
    }
  }

  /** The inner loop: sink the element at offset i until the heap below n bytes is whole. */
  method SiftDown(a: array<byte>, size: nat, cmp: Compare, i: nat, n: nat, ghost num: nat, ghost lo: nat, ghost m: nat)
    requires 0 < size && a.Length == At(size, num, 0) && lo < m <= num && TotalPreorder(cmp)
    requires i == At(size, lo, 0) && n == At(size, m, 0)
    requires Sifting(Elements(a[..], size, num), cmp, lo, m, lo)
    modifies a
    ensures Heap(Elements(a[..], size, num), cmp, lo, m)
    ensures Shuffled(old(Elements(a[..], size, num)), Elements(a[..], size, num), m)
  {
    hide At, Row, TotalPreorder, Elements, Sifting, GreaterChild, Heap;
    ghost var e0 := Elements(a[..], size, num);
    var r := i;
    ghost var k := lo;
    ChildOffset(size, k);
    OffsetOrder(size, 2 * k + 1, m);
    while r * 2 + size < n
      invariant lo <= k < m && r == At(size, k, 0)
      invariant r * 2 + size < n <==> 2 * k + 1 < m
      invariant Sifting(Elements(a[..], size, num), cmp, lo, m, k)
      invariant Shuffled(e0, Elements(a[..], size, num), m)
      decreases m - k
    {
      ghost var e := Elements(a[..], size, num);
      var c := PickChild(a, size, cmp, r, n, num, k, m);
      ghost var l := Row(size, c);
      GreaterChildBelow(e, cmp, m, k, l);
      AtMono(size, k, num, 0);
      AtMono(size, l, num, 0);
      ElementSlice(a[..], size, num, k);
      ElementSlice(a[..], size, num, l);
      if cmp(a[r..r + size], a[c..c + size]) >= 0 {
        SiftDone(e, cmp, lo, m, k, l);
        return;
      }
      SiftStep(e, cmp, lo, m, k, l);
      SwapElements(a, size, r, c, num, k, l);
      ExchangeShuffles(e, k, l, m);
      r, k := c, l;
      ChildOffset(size, k);
      OffsetOrder(size, 2 * k + 1, m);
    }
    SiftDone(Elements(a[..], size, num), cmp, lo, m, k, k);
  }

  lemma GreaterChildBelow(e: seq<Element>, cmp: Compare, n: nat, r: nat, c: nat)
    requires n <= |e| && GreaterChild(e, cmp, n, r, c)
    ensures r < c < n
  {
  }

  lemma ElementSlice(b: seq<byte>, size: nat, num: nat, k: nat)
    requires |b| == At(size, num, 0) && k < num
    ensures At(size, k, 0) + size <= |b|
    ensures Elements(b, size, num)[k] == b[At(size, k, 0)..At(size, k, 0) + size]
  {
    hide At;
    AtMono(size, k, num, 0);
  }

  /** Nodes in the second half have no children. */
  lemma LeavesAreHeap(e: seq<Element>, cmp: Compare, lo: nat)
    requires |e| <= 2 * lo + 1
    ensures Heap(e, cmp, lo, |e|)
  {
  }

  lemma HeapPlusOne(e: seq<Element>, cmp: Compare, lo: nat)
    requires Heap(e, cmp, lo + 1, |e|)
    ensures Sifting(e, cmp, lo, |e|, lo)
  {
  }

  /** Parted at one, sorted everywhere. */
  lemma SortedAll(e: seq<Element>, cmp: Compare)
    requires TotalPreorder(cmp)
    requires |e| > 0 ==> Parted(e, cmp, 1) && SortedFrom(e, cmp, 1)
    ensures SortedFrom(e, cmp, 0)
  {
    hide TotalPreorder;
    if |e| > 0 {
      assert e[..1][0] in multiset(e[..1]);
      assert Below(e, cmp, 1, e[0]);
      Flip(cmp, e[0], e[0]);
    }
  }

  /** The offset of the first loop after t turns. */
  function Offset(num: nat, size: nat, t: nat): (i: int) {
    if t == 0 then (num / 2 - 1) * size else Offset(num, size, t - 1) - size
  }

  /** For elements of no bytes the first loop never ends, whatever their number; for others it does.
      So Sort comes back exactly when the size is not zero. */
  lemma EndsIffSized(num: nat, size: nat)
    ensures (forall t: nat :: Offset(num, size, t) >= 0) <==> size == 0
  {
    OffsetAfter(num, size, num);
    if size == 0 {
      forall t: nat ensures Offset(num, size, t) >= 0 { OffsetAfter(num, size, t); }
    } else if num > 0 {
      AtIsMul(size, num - num / 2 + 1, 0);
      assert (num / 2 - 1) * size - num * size == -((num - num / 2 + 1) * size);
      OffsetOrder(size, 0, num - num / 2 + 1);
      AtIsMul(size, 0, 0);
      assert Offset(num, size, num) < 0;
    } else {
      assert Offset(num, size, 0) < 0;
    }
  }

  lemma {:induction false} OffsetAfter(num: nat, size: nat, t: nat)
    ensures Offset(num, size, t) == (num / 2 - 1) * size - t * size
  {
    if t == 0 {
    } else {
      OffsetAfter(num, size, t - 1);
      assert t * size == (t - 1) * size + size;
    }
  }

  /** Sort: afterwards the elements are in order and are the ones that were there. */
  method Sort(a: array<byte>, num: nat, size: nat, cmp: Compare)
    requires 0 < size && a.Length == At(size, num, 0) && TotalPreorder(cmp)
    modifies a
    ensures SortedFrom(Elements(a[..], size, num), cmp, 0)
    ensures multiset(Elements(a[..], size, num)) == multiset(old(Elements(a[..], size, num)))
  {
    hide At, TotalPreorder, Elements, Sifting, Heap, Parted, SortedFrom, Shuffled;
    ghost var e0 := Elements(a[..], size, num);
    BuildHeap(a, num, size, cmp);
    AtIsMul(size, num, 0);
    AtIsMul(size, 0, 0);
    var i := num * size - size;
    ghost var m := num;
    assert m > 0 ==> i == At(size, m - 1, 0) by { if m > 0 { AtNext(size, m - 1, 0); } }
    EmptyTail(Elements(a[..], size, num), cmp);
    while i > 0
      invariant 0 < m <= num || (m == num == 0 && i + size == 0)
      invariant m > 0 ==> i == At(size, m - 1, 0)
      invariant Heap(Elements(a[..], size, num), cmp, 0, m)
      invariant Parted(Elements(a[..], size, num), cmp, m) && SortedFrom(Elements(a[..], size, num), cmp, m)
      invariant multiset(Elements(a[..], size, num)) == multiset(e0)
      decreases m
    {
      ghost var l := m - 1;
      OffsetOrder(size, 0, l);
      ghost var e := Elements(a[..], size, num);
      RootTaken(e, cmp, l);
      RootReplaced(e, cmp, l);
      ExchangeKeepsElements(e, 0, l);
      SwapElements(a, size, 0, i, num, 0, l);
      ghost var e1 := Elements(a[..], size, num);
      SiftDown(a, size, cmp, 0, i, num, 0, l);
      ghost var e2 := Elements(a[..], size, num);
      ShuffledAll(e1, e2, l);
      ShuffledParted(e1, e2, cmp, l);
      AtNext(size, l - 1, 0);
      i, m := i - size, l;
    }
    if m > 0 { OffsetOrder(size, 0, m - 1); }
    SortedAll(Elements(a[..], size, num), cmp);
  }

  lemma EmptyTail(e: seq<Element>, cmp: Compare)
    ensures Parted(e, cmp, |e|) && SortedFrom(e, cmp, |e|)
  {
  }

  /** The first loop of Sort. */
  method BuildHeap(a: array<byte>, num: nat, size: nat, cmp: Compare)
    requires 0 < size && a.Length == At(size, num, 0) && TotalPreorder(cmp)
    modifies a
    ensures Heap(Elements(a[..], size, num), cmp, 0, num)
    ensures multiset(Elements(a[..], size, num)) == multiset(old(Elements(a[..], size, num)))
  {
    hide At, TotalPreorder, Elements, Sifting, Heap, Shuffled;
    ghost var e0 := Elements(a[..], size, num);
    ghost var lo := num / 2;
    var i := (num / 2 - 1) * size;
    AtIsMul(size, num, 0);
    AtIsMul(size, 0, 0);
    if lo > 0 { AtIsMul(size, lo - 1, 0); }
    LeavesAreHeap(e0, cmp, lo);
    while i >= 0
      invariant 0 <= lo <= num / 2
      invariant if lo > 0 then i == At(size, lo - 1, 0) else i + size == 0
      invariant Heap(Elements(a[..], size, num), cmp, lo, num)
      invariant multiset(Elements(a[..], size, num)) == multiset(e0)
      decreases lo
    {
      lo := lo - 1;
      ghost var e := Elements(a[..], size, num);
      HeapPlusOne(e, cmp, lo);
      SiftDown(a, size, cmp, i, num * size, num, lo, num);
      ShuffledAll(e, Elements(a[..], size, num), num);
      if lo > 0 { AtNext(size, lo - 1, 0); }
      i := i - size;
    }
  }
}
