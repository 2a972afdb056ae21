/**
 How an ext3 file grows (fs/ext3/balloc.c, Ext3BlockMapHandle with create): a file written block after
 block takes its data blocks and exactly the tables that the layout needs.
 */
module Ext3Growth {
  import opened Arith
  import opened Ext3Alloc
  import opened Ext3BlockMap

  /** The number of groups of `e` that `m` things make: m / e, rounded up. */
  function Groups(e: nat, m: nat): (q: nat)
    requires 0 < e
  {
    (m + e - 1) / e
  }

  /** The tables of a file of `n` blocks: one behind the direct blocks, and behind that one a table of
      tables and a table for every `e` blocks. */
  function Tables(e: nat, n: nat): (t: nat)
    requires 0 < e
  {
    (if n > 12 then 1 else 0) + (if n > 12 + e then 1 + Groups(e, n - 12 - e) else 0)
  }

  /** Group `s` is begun when the file has a block of it. */
  lemma GroupsCount(e: nat, m: nat, s: nat)
    requires 0 < e
    ensures s < Groups(e, m) <==> s * e < m
  {
    DivBelow(e, m + e - 1, s + 1);
    assert (s + 1) * e == s * e + e;
    assert s < Groups(e, m) <==> !((m + e - 1) / e < s + 1);
  }

  lemma GroupsOf(e: nat, q: nat, r: nat)
    requires r < e
    ensures 0 <= q * e && Groups(e, q * e + r) == if r == 0 then q else q + 1
  {
    hide Groups;
    var m := q * e + r;
    GroupsCount(e, m, q);
    if r == 0 {
      if q > 0 {
        GroupsCount(e, m, q - 1);
        assert (q - 1) * e == q * e - e;
      }
    } else {
      GroupsCount(e, m, q + 1);
      assert (q + 1) * e == q * e + e;
    }
  }

  /** A new group is begun exactly at the multiples of `e`. */
  lemma GroupsStep(e: nat, m: nat)
    requires 0 < e
    ensures Groups(e, m + 1) == Groups(e, m) + if m % e == 0 then 1 else 0
  {
    hide Groups;
    var q, r := m / e, m % e;
    assert m == q * e + r;
    GroupsOf(e, q, r);
    if r + 1 < e {
      GroupsOf(e, q, r + 1);
    } else {
      GroupsOf(e, q + 1, 0);
      assert (q + 1) * e == q * e + e;
    }
  }

  lemma GroupsMono(e: nat, m: nat, m': nat)
    requires 0 < e && m <= m'
    ensures Groups(e, m) <= Groups(e, m')
  {
    if Groups(e, m') < Groups(e, m) {
      GroupsCount(e, m, Groups(e, m'));
      GroupsCount(e, m', Groups(e, m'));
    }
  }

  lemma TablesMono(e: nat, n: nat, n': nat)
    requires 0 < e && n <= n'
    ensures Tables(e, n) <= Tables(e, n')
  {
    hide Groups;
    if n > 12 + e { GroupsMono(e, n - 12 - e, n' - 12 - e); }
  }

  /** File `f` has the blocks below `n` and no other, and no table that holds no block. */
  ghost predicate Dense(e: nat, im: Image, f: nat, n: nat)
    requires 0 < e && InodeOk(im, f)
  {
    && (forall k: nat :: Lookup(e, im, f, k) != 0 <==> k < n)
    && (im.inodes[f][12] != 0 <==> n > 12)
    && (im.inodes[f][13] != 0 <==> n > 12 + e)
    && (forall s: nat :: Ptr(im, Loc(f, Double(s))) != 0 <==> n > 12 + e && s < Groups(e, n - 12 - e))
  }

  /** The next block of a dense file costs one block and one for each table that it is the first of. */
  lemma NextCost(e: nat, im: Image, f: nat, n: nat)
    requires 0 < e && InodeOk(im, f) && Dense(e, im, f, n)
    ensures Missing(e, im, f, n) == 1 + Tables(e, n + 1) - Tables(e, n)
  {
    hide Groups;
    assert Lookup(e, im, f, n) == 0;
    if n >= 12 + e {
      var m := n - 12 - e;
      GroupsStep(e, m);
      GroupsCount(e, m, m / e);
      assert m == m / e * e + m % e;
      if m == 0 { NoGroups(e); }
    }
  }

  lemma NoGroups(e: nat)
    requires 0 < e
    ensures Groups(e, 0) == 0
  {
  }

  /** A created block keeps the file dense. */
  lemma DenseNext(e: nat, im: Image, im': Image, f: nat, n: nat, meta: set<nat>)
    requires 0 < e && (forall g :: g in im.inodes ==> InodeOk(im, g)) && f in im.inodes && Dense(e, im, f, n)
    requires Updates(e, im, im', f, n, meta) && PathOnly(e, im, im', f, n) && InodeOk(im', f)
    requires Lookup(e, im', f, n) != 0
    ensures Dense(e, im', f, n + 1)
  {
    hide Groups, KeepsData;
    forall k: nat ensures Lookup(e, im', f, k) != 0 <==> k < n + 1 {
      if k != n { assert Lookup(e, im', f, k) == Lookup(e, im, f, k); }
    }
    DenseSlot(e, im, im', f, n, 12);
    DenseSlot(e, im, im', f, n, 13);
    forall s: nat
      ensures Ptr(im', Loc(f, Double(s))) != 0 <==> n + 1 > 12 + e && s < Groups(e, n + 1 - 12 - e)
    {
      DenseTable(e, im, im', f, n, s);
    }
  }

  lemma DenseSlot(e: nat, im: Image, im': Image, f: nat, n: nat, i: nat)
    requires 0 < e && InodeOk(im, f) && Dense(e, im, f, n) && i in {12, 13}
    requires PathOnly(e, im, im', f, n) && InodeOk(im', f) && Lookup(e, im', f, n) != 0
    ensures im'.inodes[f][i] != 0 <==> n + 1 > if i == 12 then 12 else 12 + e
  {
    hide Groups;
    assert Ptr(im, Loc(f, InodeSlot(i))) == im.inodes[f][i] && Ptr(im', Loc(f, InodeSlot(i))) == im'.inodes[f][i];
  }

  lemma DenseTable(e: nat, im: Image, im': Image, f: nat, n: nat, s: nat)
    requires 0 < e && InodeOk(im, f) && Dense(e, im, f, n)
    requires PathOnly(e, im, im', f, n) && InodeOk(im', f) && Lookup(e, im', f, n) != 0
    ensures Ptr(im', Loc(f, Double(s))) != 0 <==> n + 1 > 12 + e && s < Groups(e, n + 1 - 12 - e)
  {
    hide Groups;
    var l := Loc(f, Double(s));
    assert Ptr(im, l) != 0 <==> n > 12 + e && s < Groups(e, n - 12 - e);
    if n < 12 + e || s != (n - 12 - e) / e {
      assert Ptr(im', l) == Ptr(im, l);
    }
    if n >= 12 + e {
      var m := n - 12 - e;
      if m == 0 { NoGroups(e); }
      GroupsStep(e, m);
      GroupsCount(e, m + 1, m / e);
      GroupsCount(e, m, m / e);
      assert m == m / e * e + m % e;
    }
  }

  /** A file written block after block up to length `n`. It gets there if and only if the data blocks and
      their tables are free, it takes exactly those, and no other file changes. A creating lookup that
      failed still answers a number, so each block is looked up again. */
  method Grow(vol: Volume, f: nat, n0: nat, n: nat) returns (ok: bool)
    requires vol.Valid() && f in vol.inodes && n0 <= n <= Limit(vol.entriesPerBlock)
    requires 0 < vol.entriesPerBlock && InodeOk(vol.View(), f) && Dense(vol.entriesPerBlock, vol.View(), f, n0)
    modifies vol, vol.alloc
    ensures vol.Valid() && InodeOk(vol.View(), f)
    ensures ok <==> (n - n0) + Tables(vol.entriesPerBlock, n) - Tables(vol.entriesPerBlock, n0)
                    <= old(vol.alloc.State().superFree)
    ensures ok ==>
      && Dense(vol.entriesPerBlock, vol.View(), f, n)
      && vol.alloc.State().superFree == old(vol.alloc.State().superFree)
           - ((n - n0) + Tables(vol.entriesPerBlock, n) - Tables(vol.entriesPerBlock, n0))
    ensures OthersKept(vol.entriesPerBlock, old(vol.View()), vol.View(), f)
  {
    hide Tables, Dense, Created, Missing, Lookup, Separated, Exact, Marked;
    var e := vol.entriesPerBlock;
    ghost var im0, free := vol.View(), vol.alloc.State().superFree;
    var k := n0;
    VolumeFacts(vol);
    while k < n
      invariant n0 <= k <= n && vol.Valid() && f in vol.inodes && InodeOk(vol.View(), f)
      invariant Dense(e, vol.View(), f, k) && OthersKept(e, im0, vol.View(), f)
      invariant vol.alloc.State().superFree == free - ((k - n0) + Tables(e, k) - Tables(e, n0))
      invariant 0 <= vol.alloc.State().superFree
    {
      ghost var a, im := vol.alloc.State(), vol.View();
      VolumeFacts(vol);
      NextCost(e, im, f, k);
      var r := vol.MapHandle(f, k, true);
      VolumeFacts(vol);
      CreatedFacts(e, vol.alloc.geo, a, im, vol.alloc.State(), vol.View(), vol.meta, f, k, r);
      KeptOn(e, im0, im, vol.View(), f);
      var mapped := vol.MapHandle(f, k, false);
      if mapped == Hole {
        TablesMono(e, k + 1, n);
        return false;
      }
      DenseNext(e, im, vol.View(), f, k, vol.meta);
      k := k + 1;
    }
    ok := true;
  }

  /** Every other file maps its blocks as before. */
  ghost predicate OthersKept(e: nat, im: Image, im': Image, f: nat)
    requires 0 < e
  {
    && im'.inodes.Keys == im.inodes.Keys
    && (forall g :: g in im.inodes && g != f && InodeOk(im, g) ==> InodeOk(im', g))
    && (forall g, k: nat :: g in im.inodes && g != f && InodeOk(im, g) ==>
          Lookup(e, im', g, k) == Lookup(e, im, g, k))
  }

  lemma KeptOn(e: nat, im: Image, im': Image, im'': Image, f: nat)
    requires 0 < e && OthersKept(e, im, im', f) && OthersKept(e, im', im'', f)
    ensures OthersKept(e, im, im'', f)
  {
    hide Lookup, InodeOk;
  }

  lemma CreatedFacts(e: nat, geo: Geometry, a: Accounts, im: Image, a': Accounts, im': Image, meta: set<nat>,
                     f: nat, block: nat, r: MapResult)
    requires 0 < e && f in im.inodes && (forall f :: f in im.inodes ==> InodeOk(im, f))
    requires Created(e, geo, a, im, a', im', meta, f, block, r)
    ensures Updates(e, im, im', f, block, meta) && PathOnly(e, im, im', f, block) && InodeOk(im', f)
    ensures OthersKept(e, im, im', f)
    ensures Lookup(e, im', f, block) != 0 <==> Missing(e, im, f, block) <= a.superFree
    ensures Lookup(e, im', f, block) != 0 ==> a'.superFree == a.superFree - Missing(e, im, f, block)
  {
    hide Lookup, Missing, PathOnly;
  }

  lemma VolumeFacts(vol: Volume)
    requires vol.Valid()
    ensures 0 < vol.entriesPerBlock && (forall g :: g in vol.inodes ==> InodeOk(vol.View(), g))
    ensures vol.alloc.Valid() && 0 <= vol.alloc.State().superFree
  {
    NonNegative(vol.alloc.geo, vol.alloc.State());
  }
}
