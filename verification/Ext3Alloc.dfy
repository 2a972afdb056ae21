/**
 The ext3 block allocator (fs/ext3/balloc.c): group bitmaps, the free count of each
 group descriptor and the free count of the superblock, all changed in place.
 */
module Ext3Alloc {
  import opened Arith
  import opened Bitmap
  import opened Errors

  /** The part of Ext3SbInfo that never changes after mount. */
  datatype Geometry = Geometry(firstDataBlock: nat, blocksPerGrp: nat, groupCount: nat) {

    /** DWORD arithmetic on block numbers does not wrap on this volume. */
    ghost predicate Valid() {
      && 0 < blocksPerGrp
      && firstDataBlock + groupCount * blocksPerGrp < 0x1_0000_0000
    }

    function GroupOf(b: int): (g: nat)
      requires 0 < blocksPerGrp && firstDataBlock <= b
    {
      (b - firstDataBlock) / blocksPerGrp
    }

    function OffsetOf(b: int): (j: nat)
      requires 0 < blocksPerGrp && firstDataBlock <= b
    {
      (b - firstDataBlock) % blocksPerGrp
    }

    /** Does some group describe block `b`? */
    predicate Describes(b: int) {
      0 < blocksPerGrp && firstDataBlock <= b && GroupOf(b) < groupCount
    }

    function BlockAt(g: nat, j: nat): (b: nat)
    {
      j + g * blocksPerGrp + firstDataBlock
    }
  }

  /** The on-disk accounting: one bitmap and one free count for each group, and the total. */
  datatype Accounts = Accounts(bitmaps: seq<seq<bv8>>, groupFree: seq<int>, superFree: int)

  ghost predicate Shaped(geo: Geometry, a: Accounts) {
    && geo.Valid()
    && |a.bitmaps| == |a.groupFree| == geo.groupCount
    && forall g :: 0 <= g < geo.groupCount ==> 4 * ((geo.blocksPerGrp + 31) / 32) <= |a.bitmaps[g]|
  }

  /** A block is free when its group's bitmap holds a zero for it. */
  ghost predicate IsFree(geo: Geometry, a: Accounts, b: int)
    requires Shaped(geo, a)
  {
    geo.Describes(b) && !Bit(a.bitmaps[geo.GroupOf(b)], geo.OffsetOf(b))
  }

  ghost function ZeroBits(s: seq<bv8>, n: nat): (z: set<nat>)
    requires n <= 8 * |s|
  {
    set i: nat | i < n && !Bit(s, i)
  }

  ghost function Sum(xs: seq<int>): (t: int) {
    if xs == [] then 0 else xs[0] + Sum(xs[1..])
  }

  /** Every count is exact: a group's count is its number of zero bits, the superblock's is the sum. */
  ghost predicate Exact(geo: Geometry, a: Accounts) {
    && Shaped(geo, a)
    && (forall g :: 0 <= g < geo.groupCount ==> a.groupFree[g] == |ZeroBits(a.bitmaps[g], geo.blocksPerGrp)|)
    && a.superFree == Sum(a.groupFree)
  }

  /** Bit `j` of group `g` stands for the block `j` blocks behind the start of the group. */
  lemma FreeByBit(geo: Geometry, a: Accounts, g: nat, j: nat)
    requires Shaped(geo, a) && g < geo.groupCount && j < geo.blocksPerGrp
    ensures IsFree(geo, a, geo.firstDataBlock + g * geo.blocksPerGrp + j) <==> !Bit(a.bitmaps[g], j)
  {
    BlockAtInverse(geo, g, j);
  }

  /** Flip the bit of one described block and move both counts by one. */
  function Marked(geo: Geometry, a: Accounts, b: int, used: bool): (r: Accounts)
    requires Shaped(geo, a) && geo.Describes(b)
  {
    var g := geo.GroupOf(b);
    var delta: int := if used then -1 else 1;
    Accounts(a.bitmaps[g := WithBit(a.bitmaps[g], geo.OffsetOf(b), used)],
             a.groupFree[g := a.groupFree[g] + delta],
             a.superFree + delta)
  }

  /** BlockAt inverts the group and offset arithmetic of Ext3BlockFree. */
  lemma BlockAtInverse(geo: Geometry, g: nat, j: nat)
    requires geo.Valid() && g < geo.groupCount && j < geo.blocksPerGrp
    ensures geo.Describes(geo.BlockAt(g, j))
    ensures geo.GroupOf(geo.BlockAt(g, j)) == g && geo.OffsetOf(geo.BlockAt(g, j)) == j
    ensures geo.BlockAt(g, j) < 0x1_0000_0000
  {
    DivModUnique(geo.blocksPerGrp, g, j);
    MulMono(g + 1, geo.groupCount, geo.blocksPerGrp);
    assert (g + 1) * geo.blocksPerGrp == g * geo.blocksPerGrp + geo.blocksPerGrp;
  }

  lemma BlockAtOfDescribed(geo: Geometry, b: int)
    requires geo.Describes(b)
    ensures b == geo.BlockAt(geo.GroupOf(b), geo.OffsetOf(b))
    ensures geo.OffsetOf(b) < geo.blocksPerGrp
  {
  }

  lemma {:induction false} SumUpdate(xs: seq<int>, i: nat, v: int)
    requires i < |xs|
    ensures Sum(xs[i := v]) == Sum(xs) - xs[i] + v
  {
    if i == 0 {
      assert xs[i := v][1..] == xs[1..];
    } else {
      assert xs[i := v][1..] == xs[1..][i - 1 := v];
      SumUpdate(xs[1..], i - 1, v);
    }
  }

  lemma {:induction false} SumAtLeast(xs: seq<int>, i: nat)
    requires forall k :: 0 <= k < |xs| ==> 0 <= xs[k]
    requires i < |xs|
    ensures xs[i] <= Sum(xs)
  {
    if |xs| > 1 {
      SumAtLeast(xs[1..], if i == 0 then 0 else i - 1);
    }
  }

  lemma {:induction false} SumOfZeros(xs: seq<int>)
    requires forall i :: 0 <= i < |xs| ==> xs[i] == 0
    ensures Sum(xs) == 0
  {
    if xs == [] {
    } else {
      SumOfZeros(xs[1..]);
    }
  }

  lemma ZeroBitsAfter(s: seq<bv8>, n: nat, j: nat, used: bool)
    requires j < n <= 8 * |s|
    ensures ZeroBits(WithBit(s, j, used), n) == if used then ZeroBits(s, n) - {j} else ZeroBits(s, n) + {j}
  {
    forall i: nat | i < n
      ensures Bit(WithBit(s, j, used), i) == if i == j then used else Bit(s, i)
    {
      WithBitLaw(s, j, used, i);
    }
  }

  /** What marking one block does to the set of free blocks. */
  lemma MarkedIsFree(geo: Geometry, a: Accounts, b: int, used: bool, c: int)
    requires Shaped(geo, a) && geo.Describes(b)
    ensures Shaped(geo, Marked(geo, a, b, used))
    ensures IsFree(geo, Marked(geo, a, b, used), c) == if c == b then !used else IsFree(geo, a, c)
  {
    if geo.Describes(c) && geo.GroupOf(c) == geo.GroupOf(b) {
      WithBitLaw(a.bitmaps[geo.GroupOf(b)], geo.OffsetOf(b), used, geo.OffsetOf(c));
      if geo.OffsetOf(c) == geo.OffsetOf(b) {
        DivModInjective(geo.blocksPerGrp, c - geo.firstDataBlock, b - geo.firstDataBlock);
      }
    }
  }

  /** Both counts stay exact exactly when the block was in the other state before. */
  lemma MarkedExact(geo: Geometry, a: Accounts, b: int, used: bool)
    requires Exact(geo, a) && geo.Describes(b)
    ensures Exact(geo, Marked(geo, a, b, used)) <==> IsFree(geo, a, b) == used
  {
    hide Bit, WithBit, Sum, IsFree;
    var g, j, m := geo.GroupOf(b), geo.OffsetOf(b), Marked(geo, a, b, used);
    MarkedIsFree(geo, a, b, used, b);
    ZeroBitsAfter(a.bitmaps[g], geo.blocksPerGrp, j, used);
    SumUpdate(a.groupFree, g, m.groupFree[g]);
    var z := ZeroBits(a.bitmaps[g], geo.blocksPerGrp);
    FreeIsZeroBit(geo, a, b);
    assert m.bitmaps[g] == WithBit(a.bitmaps[g], j, used);
    if IsFree(geo, a, b) == used {
      assert |ZeroBits(m.bitmaps[g], geo.blocksPerGrp)| == m.groupFree[g];
    } else {
      assert ZeroBits(m.bitmaps[g], geo.blocksPerGrp) == z;
    }
  }

  lemma FreeIsZeroBit(geo: Geometry, a: Accounts, b: int)
    requires Shaped(geo, a) && geo.Describes(b)
    ensures geo.OffsetOf(b) in ZeroBits(a.bitmaps[geo.GroupOf(b)], geo.blocksPerGrp) <==> IsFree(geo, a, b)
  {
    hide Bit;
  }

  /** With exact counts, a free block is backed by non-zero counts. */
  lemma FreeIsCounted(geo: Geometry, a: Accounts, b: int)
    requires Exact(geo, a) && IsFree(geo, a, b)
    ensures 0 < a.groupFree[geo.GroupOf(b)] && 0 < a.superFree
  {
    var g := geo.GroupOf(b);
    var z := ZeroBits(a.bitmaps[g], geo.blocksPerGrp);
    assert geo.OffsetOf(b) in z;
    assert |z| > 0;
    SumAtLeast(a.groupFree, g);
  }

  /** Freeing a block that was just allocated restores every bitmap and every count. */
  lemma FreeUndoesNew(geo: Geometry, a: Accounts, b: int)
    requires Exact(geo, a) && IsFree(geo, a, b)
    ensures Shaped(geo, Marked(geo, a, b, true))
    ensures Marked(geo, Marked(geo, a, b, true), b, false) == a
  {
    FreeIsCounted(geo, a, b);
    MarkedIsFree(geo, a, b, true, b);
    var g := geo.GroupOf(b);
    ClearUndoesSet(a.bitmaps[g], geo.OffsetOf(b));
    var r := Marked(geo, Marked(geo, a, b, true), b, false);
    assert r.bitmaps == a.bitmaps;
    assert r.groupFree == a.groupFree;
  }

  /** When all groups before `i` are full and bits below `j` are set, no lower block is free. */
  lemma NoLowerFree(geo: Geometry, a: Accounts, i: nat, j: nat, c: int)
    requires Exact(geo, a) && i < geo.groupCount && j < geo.blocksPerGrp
    requires forall g :: 0 <= g < i ==> a.groupFree[g] == 0
    requires forall k: nat :: k < j ==> Bit(a.bitmaps[i], k)
    requires c < geo.BlockAt(i, j)
    ensures !IsFree(geo, a, c)
  {
    if IsFree(geo, a, c) {
      FreeIsCounted(geo, a, c);
      LowerBlock(geo, i, j, c);
    }
  }

  lemma LowerBlock(geo: Geometry, i: nat, j: nat, c: int)
    requires geo.Describes(c) && j < geo.blocksPerGrp
    requires c < geo.BlockAt(i, j)
    ensures geo.GroupOf(c) < i || (geo.GroupOf(c) == i && geo.OffsetOf(c) < j)
  {
    var g := geo.GroupOf(c);
    BlockAtOfDescribed(geo, c);
    if g > i {
      MulMono(i + 1, g, geo.blocksPerGrp);
    }
  }

  /** A non-zero group count is backed by a zero bit. */
  lemma CountedHasZero(geo: Geometry, a: Accounts, g: nat) returns (k: nat)
    requires Exact(geo, a) && g < geo.groupCount && a.groupFree[g] != 0
    ensures k < geo.blocksPerGrp && !Bit(a.bitmaps[g], k)
  {
    var z := ZeroBits(a.bitmaps[g], geo.blocksPerGrp);
    assert z != {};
    k :| k in z;
  }

  lemma NoneFree(geo: Geometry, a: Accounts)
    requires Exact(geo, a) && forall g :: 0 <= g < geo.groupCount ==> a.groupFree[g] == 0
    ensures a.superFree == 0 && forall c :: !IsFree(geo, a, c)
  {
    SumOfZeros(a.groupFree);
    forall c ensures !IsFree(geo, a, c) {
      if IsFree(geo, a, c) { FreeIsCounted(geo, a, c); }
    }
  }

  lemma BlockAtFree(geo: Geometry, a: Accounts, i: nat, j: nat)
    requires Exact(geo, a) && i < geo.groupCount && j < geo.blocksPerGrp && !Bit(a.bitmaps[i], j)
    ensures IsFree(geo, a, geo.BlockAt(i, j))
  {
    hide Bit;
    BlockAtInverse(geo, i, j);
  }

  /** The DWORD difference of Ext3BlockFree lands in a group exactly for the described blocks. */
  lemma RelativeBlock(geo: Geometry, b: nat)
    requires geo.Valid() && b < 0x1_0000_0000
    ensures var relative: nat := (b - geo.firstDataBlock) % 0x1_0000_0000;
      && (relative / geo.blocksPerGrp < geo.groupCount <==> geo.Describes(b))
      && (geo.Describes(b) ==> relative == b - geo.firstDataBlock)
  {
    var relative: nat := (b - geo.firstDataBlock) % 0x1_0000_0000;
    DivBelow(geo.blocksPerGrp, relative, geo.groupCount);
  }

  /** The allocator state that Ext3BlockNew and Ext3BlockFree update in place. */
  class BlockAllocator {
    const geo: Geometry
    var bitmaps: seq<seq<bv8>>
    var groupFree: seq<int>
    var superFree: int

    function State(): (a: Accounts)
      reads this
    {
      Accounts(bitmaps, groupFree, superFree)
    }

    /** Counts are exact, and block 0 is never up for allocation: 0 means "no block". */
    ghost predicate Valid()
      reads this
    {
      Exact(geo, State()) && !IsFree(geo, State(), 0)
    }

    constructor (geo: Geometry, a: Accounts)
      requires Exact(geo, a) && !IsFree(geo, a, 0)
      ensures Valid() && this.geo == geo && State() == a
    {
      this.geo := geo;
      bitmaps, groupFree, superFree := a.bitmaps, a.groupFree, a.superFree;
    }

    /** The group loop of Ext3BlockNew: the first group with a free block has its first one taken. */
    method FindGroup() returns (i: nat, j: nat)
      requires Valid()
      modifies this`bitmaps
      ensures i <= geo.groupCount && State().groupFree == old(State()).groupFree
      ensures forall g :: 0 <= g < i ==> groupFree[g] == 0
      ensures i == geo.groupCount ==> bitmaps == old(bitmaps)
      ensures i < geo.groupCount ==>
        && j < geo.blocksPerGrp && groupFree[i] != 0
        && !Bit(old(bitmaps)[i], j) && (forall k: nat :: k < j ==> Bit(old(bitmaps)[i], k))
        && bitmaps == old(bitmaps)[i := WithBit(old(bitmaps)[i], j, true)]
    {
      hide Bit, WithBit, Sum;
      i, j := 0, 0;
      while i < geo.groupCount
        invariant i <= geo.groupCount && bitmaps == old(bitmaps)
        invariant forall g :: 0 <= g < i ==> groupFree[g] == 0
      {
        if groupFree[i] != 0 {
          j := FindFirstZero(bitmaps[i], geo.blocksPerGrp);
          ghost var k := CountedHasZero(geo, State(), i);
          if j < geo.blocksPerGrp {
            bitmaps := bitmaps[i := WithBit(bitmaps[i], j, true)];
            break;
          }
        }
        i := i + 1;
      }
    }

    /** Ext3BlockNew: the lowest free block, or 0 exactly when no block is free. */
    method BlockNew() returns (b: nat)
      requires Valid()
      modifies this
      ensures Valid()
      ensures b == 0 <==> old(superFree) == 0
      ensures b == 0 ==> State() == old(State()) && forall c :: !IsFree(geo, State(), c)
      ensures b != 0 ==> old(IsFree(geo, State(), b)) && State() == Marked(geo, old(State()), b, true)
      ensures b != 0 ==> forall c :: c < b ==> !old(IsFree(geo, State(), c))
      ensures b != 0 ==> forall c :: IsFree(geo, State(), c) <==> c != b && old(IsFree(geo, State(), c))
    {
      hide Bit, WithBit, Sum, IsFree;
      ghost var before := State();
      var i, j := FindGroup();
      if i == geo.groupCount {
        NoneFree(geo, before);
        return 0;
      }
      b := j + i * geo.blocksPerGrp + geo.firstDataBlock;
      BlockAtInverse(geo, i, j);
      BlockAtFree(geo, before, i, j);
      FreeIsCounted(geo, before, b);
      groupFree := groupFree[i := groupFree[i] - 1];
      superFree := superFree - 1;
      assert State() == Marked(geo, before, b, true);
      MarkedExact(geo, before, b, true);
      forall c ensures IsFree(geo, State(), c) <==> c != b && IsFree(geo, before, c) {
        MarkedIsFree(geo, before, b, true, c);
      }
      forall c | c < b ensures !IsFree(geo, before, c) {
        NoLowerFree(geo, before, i, j, c);
      }
    }

    /** Ext3BlockFree. The int argument becomes a DWORD when it meets blocksPerGrp. The counts stay
        exact if and only if the block was allocated. */
    method BlockFree(blockNo: nat) returns (err: int)
      requires Valid()
      requires blockNo < 0x1_0000_0000
      modifies this
      ensures err == 0 <==> geo.Describes(blockNo)
      ensures err != 0 ==> err == -EIO && State() == old(State())
      ensures err == 0 ==> State() == Marked(geo, old(State()), blockNo, false)
      ensures err == 0 ==> (Exact(geo, State()) <==> !old(IsFree(geo, State(), blockNo)))
      ensures err == 0 ==> forall c :: IsFree(geo, State(), c) <==> c == blockNo || old(IsFree(geo, State(), c))
    {
      ghost var before := State();
      RelativeBlock(geo, blockNo);
      var relative := (blockNo - geo.firstDataBlock) % 0x1_0000_0000;
      var group, offset := relative / geo.blocksPerGrp, relative % geo.blocksPerGrp;
      if group >= geo.groupCount {
        return -EIO;
      }
      bitmaps := bitmaps[group := WithBit(bitmaps[group], offset, false)];
      groupFree := groupFree[group := groupFree[group] + 1];
      superFree := superFree + 1;
      MarkedExact(geo, before, blockNo, false);
      forall c ensures IsFree(geo, State(), c) <==> c == blockNo || IsFree(geo, before, c) {
        MarkedIsFree(geo, before, blockNo, false, c);
      }
      err := 0;
    }
  }
}
