/**
 The memory areas of a process (memory/mmap.c, memory/vmm.c): a list sorted by address. MMapDo
 finds the lowest gap, enters a new area there and merges it with neighbours that continue it.
 */
module VmAreas {
  import opened Errors
  import opened Options

  const PAGE_SIZE := 4096
  const MMAP_BASE := 0x80_0000
  const MMAP_END := 0xC000_0000
  const MMAP_FIXED: bv32 := 2
  const MMAP_GROWDOWN: bv32 := 4
  const MMAP_ANON: bv32 := 8

  /** PAGE_ALIGN_UP */
  function AlignUp(n: nat): (r: nat)
    ensures n <= r < n + PAGE_SIZE && r % PAGE_SIZE == 0
  {
    (n + PAGE_SIZE - 1) / PAGE_SIZE * PAGE_SIZE
  }

  predicate Aligned(n: nat) {
    n % PAGE_SIZE == 0
  }

  lemma AlignedUp(n: nat)
    ensures Aligned(AlignUp(n)) && (Aligned(n) ==> AlignUp(n) == n)
  {
  }

  lemma FixedAligned()
    ensures Aligned(0) && Aligned(MMAP_BASE) && Aligned(MMAP_END)
  {
  }

  lemma AlignedSum(a: nat, b: nat)
    requires Aligned(a) && Aligned(b)
    ensures Aligned(a + b)
  {
  }

  /** PAGE_ALIGN */
  function Align(n: nat): (r: nat)
    ensures r <= n < r + PAGE_SIZE && r % PAGE_SIZE == 0
  {
    n / PAGE_SIZE * PAGE_SIZE
  }

  /** vNode 0 is no vNode; areaOps is the identity of an operations table. */
  datatype Area = Area(start: nat, length: nat, vNode: nat, offset: nat, protection: int, flags: bv32, areaOps: nat) {
    function End(): nat {
      start + length
    }

    predicate Contains(a: nat) {
      start <= a < End()
    }

    predicate Anonymous() {
      flags & MMAP_ANON != 0
    }

    /** The file offset VmHandleNoPage brings in for address a. */
    function FileOffset(a: nat): nat
      requires start <= a
    {
      a - start + offset
    }
  }

  // ---- The address space ----

  /** What a process sees at an address. File offsets matter where a file is mapped. */
  datatype Mapping = Mapping(vNode: nat, protection: int, flags: bv32, areaOps: nat, offset: Option<nat>)

  function MappingAt(m: Area, a: nat): (r: Mapping)
    requires m.Contains(a)
  {
    Mapping(m.vNode, m.protection, m.flags, m.areaOps, if m.Anonymous() then None else Some(m.FileOffset(a)))
  }

  ghost function View(s: seq<Area>, a: nat): (r: Option<Mapping>)
    decreases |s|
  {
    if s == [] then None else if s[0].Contains(a) then Some(MappingAt(s[0], a)) else View(s[1..], a)
  }

  ghost predicate AreaOk(m: Area) {
    && MMAP_BASE <= m.start < MMAP_END && 0 < m.length
    && Aligned(m.start) && Aligned(m.length)
  }

  /** Sorted by address, and no two areas overlap. */
  ghost predicate Tidy(s: seq<Area>) {
    && (forall i :: 0 <= i < |s| ==> AreaOk(s[i]))
    && (forall i, j :: 0 <= i < j < |s| ==> s[i].End() <= s[j].start)
  }

  /** The range [a, a + length) meets no area. */
  ghost predicate Free(s: seq<Area>, a: nat, length: nat) {
    forall i :: 0 <= i < |s| ==> s[i].End() <= a || a + length <= s[i].start
  }

  lemma {:induction false} ViewAt(s: seq<Area>, i: nat, a: nat)
    requires Tidy(s) && i < |s| && s[i].Contains(a)
    ensures View(s, a) == Some(MappingAt(s[i], a))
    decreases |s|
  {
    if i == 0 {
    } else {
      assert s[0].End() <= s[i].start;
      assert s[1..][i - 1] == s[i];
      ViewAt(s[1..], i - 1, a);
    }
  }

  lemma {:induction false} ViewNone(s: seq<Area>, a: nat)
    ensures View(s, a) == None <==> forall i :: 0 <= i < |s| ==> !s[i].Contains(a)
    decreases |s|
  {
    if s == [] {
    } else {
      ViewNone(s[1..], a);
      assert forall i :: 0 < i < |s| ==> s[i] == s[1..][i - 1];
      assert forall i :: 0 <= i < |s[1..]| ==> s[1..][i] == s[i + 1];
    }
  }

  // ---- Entering an area ----

  ghost function Inserted(s: seq<Area>, k: nat, m: Area): (r: seq<Area>)
    requires k <= |s|
  {
    s[..k] + [m] + s[k..]
  }

  /** k is where m belongs. */
  ghost predicate Place(s: seq<Area>, k: nat, m: Area) {
    && k <= |s|
    && (forall i :: 0 <= i < k ==> s[i].start <= m.start)
    && (k < |s| ==> s[k].start > m.start)
  }

  lemma InsertedTidy(s: seq<Area>, k: nat, m: Area)
    requires Tidy(s) && AreaOk(m) && Free(s, m.start, m.length) && Place(s, k, m)
    ensures Tidy(Inserted(s, k, m))
  {
    var r := Inserted(s, k, m);
    forall i | 0 <= i < |r| ensures AreaOk(r[i]) {
      assert r[i] == if i < k then s[i] else if i == k then m else s[i - 1];
    }
    forall i, j | 0 <= i < j < |r| ensures r[i].End() <= r[j].start {
      assert i < k ==> r[i] == s[i];
      assert j > k ==> r[j] == s[j - 1];
      if i == k {
        assert s[k].start <= s[j - 1].start by { assert AreaOk(s[k]); }
      } else if i > k {
        assert r[i] == s[i - 1];
      }
    }
  }

  /** The new area is mapped where it was free, and nothing else changes. */
  lemma InsertedView(s: seq<Area>, k: nat, m: Area, a: nat)
    requires Tidy(s) && k <= |s| && Tidy(Inserted(s, k, m))
    ensures View(Inserted(s, k, m), a) == if m.Contains(a) then Some(MappingAt(m, a)) else View(s, a)
  {
    hide View, Tidy, MappingAt;
    var r := Inserted(s, k, m);
    assert r[k] == m;
    if m.Contains(a) {
      ViewAt(r, k, a);
    } else if i :| 0 <= i < |s| && s[i].Contains(a) {
      ViewAt(s, i, a);
      var j := if i < k then i else i + 1;
      assert r[j] == s[i];
      ViewAt(r, j, a);
    } else {
      ViewNone(s, a);
      ViewNone(r, a);
      assert forall j :: 0 <= j < |r| ==> r[j] == if j < k then s[j] else if j == k then m else s[j - 1];
    }
  }

  // ---- Merging ----

  /** The tests of MMapMerge. */
  predicate Mergeable(f: Area, g: Area) {
    && f.End() == g.start
    && f.vNode == g.vNode && f.areaOps == g.areaOps && f.flags == g.flags && f.protection == g.protection
    && (f.Anonymous() || g.offset == f.offset + f.length)
  }

  ghost function Merged(s: seq<Area>, k: nat): (r: seq<Area>)
    requires k + 1 < |s|
  {
    if Mergeable(s[k], s[k + 1]) then s[..k] + [s[k].(length := s[k].length + s[k + 1].length)] + s[k + 2..] else s
  }

  lemma MergedTidy(s: seq<Area>, k: nat)
    requires Tidy(s) && k + 1 < |s|
    ensures Tidy(Merged(s, k))
  {
    hide Aligned;
    var r := Merged(s, k);
    if Mergeable(s[k], s[k + 1]) {
      assert AreaOk(s[k]) && AreaOk(s[k + 1]);
      AlignedSum(s[k].length, s[k + 1].length);
      forall i | 0 <= i < |r| ensures AreaOk(r[i]) {
        assert i != k ==> r[i] == s[if i < k then i else i + 1];
      }
      forall i, j | 0 <= i < j < |r| ensures r[i].End() <= r[j].start {
        assert i != k ==> r[i] == s[if i < k then i else i + 1];
        assert j != k ==> r[j] == s[if j < k then j else j + 1];
      }
    }
  }

  ghost function Joined(f: Area, g: Area): (m: Area) {
    f.(length := f.length + g.length)
  }

  /** One area in place of two that it covers, mapping by mapping. */
  lemma JoinedMapping(f: Area, g: Area, a: nat)
    requires Mergeable(f, g)
    ensures Joined(f, g).Contains(a) <==> f.Contains(a) || g.Contains(a)
    ensures f.Contains(a) ==> MappingAt(Joined(f, g), a) == MappingAt(f, a)
    ensures g.Contains(a) ==> MappingAt(Joined(f, g), a) == MappingAt(g, a)
  {
  }

  ghost predicate SameEverywhere(s: seq<Area>, t: seq<Area>) {
    forall a: nat :: View(s, a) == View(t, a)
  }

  /** The tests of MMapMerge are exact: two neighbours pass them if and only if some single area maps every
      address as the two do. */
  lemma MergeableIff(f: Area, g: Area)
    requires 0 < f.length && 0 < g.length && f.End() <= g.start
    ensures Mergeable(f, g) <==> exists m :: SameEverywhere([m], [f, g])
  {
    if Mergeable(f, g) {
      forall a: nat ensures View([Joined(f, g)], a) == View([f, g], a) {
        TwoView(f, g, a);
        JoinedMapping(f, g, a);
      }
      assert SameEverywhere([Joined(f, g)], [f, g]);
    }
    if m :| SameEverywhere([m], [f, g]) {
      SameAt(m, f, g, f.start);
      SameAt(m, f, g, g.start);
      SameAt(m, f, g, f.End());
    }
  }

  lemma TwoView(f: Area, g: Area, a: nat)
    ensures View([f, g], a) == if f.Contains(a) then Some(MappingAt(f, a))
                               else if g.Contains(a) then Some(MappingAt(g, a)) else None
    ensures View([f], a) == if f.Contains(a) then Some(MappingAt(f, a)) else None
  {
    assert [f, g][1..] == [g] && [g][1..] == [] && [f][1..] == [];
    assert View([g], a) == if g.Contains(a) then Some(MappingAt(g, a)) else None;
  }

  lemma SameAt(m: Area, f: Area, g: Area, a: nat)
    requires SameEverywhere([m], [f, g])
    ensures f.Contains(a) ==> m.Contains(a) && MappingAt(m, a) == MappingAt(f, a)
    ensures !f.Contains(a) && g.Contains(a) ==> m.Contains(a) && MappingAt(m, a) == MappingAt(g, a)
    ensures !f.Contains(a) && !g.Contains(a) ==> !m.Contains(a)
  {
    assert View([m], a) == View([f, g], a);
    TwoView(f, g, a);
    TwoView(m, m, a);
  }

  /** Merging changes nothing at any address. */
  lemma MergedView(s: seq<Area>, k: nat, a: nat)
    requires Tidy(s) && k + 1 < |s|
    ensures View(Merged(s, k), a) == View(s, a)
  {
    hide Tidy, View, MappingAt, Mergeable;
    if Mergeable(s[k], s[k + 1]) {
      var r := Merged(s, k);
      MergedTidy(s, k);
      JoinedMapping(s[k], s[k + 1], a);
      assert r[k] == Joined(s[k], s[k + 1]);
      if i :| 0 <= i < |s| && s[i].Contains(a) {
        ViewAt(s, i, a);
        var j := if i <= k then i else i - 1;
        assert j != k ==> r[j] == s[i];
        ViewAt(r, j, a);
      } else {
        ViewNone(s, a);
        ViewNone(r, a);
        forall j | 0 <= j < |r| ensures !r[j].Contains(a) {
          assert j != k ==> r[j] == s[if j < k then j else j + 1];
        }
      }
    }
  }

  // ---- No two neighbours could be one area ----

  /** The list is as short as merging can make it. */
  ghost predicate Compact(s: seq<Area>) {
    forall i :: 0 <= i < |s| - 1 ==> !Mergeable(s[i], s[i + 1])
  }

  /** A joined area can be merged on exactly as its halves could. */
  lemma JoinedMergeable(f: Area, g: Area, h: Area)
    requires Mergeable(f, g)
    ensures Mergeable(h, Joined(f, g)) <==> Mergeable(h, f)
    ensures Mergeable(Joined(f, g), h) <==> Mergeable(g, h)
  {
  }

  /** Merging a new area with the next and then the previous one makes a compact list compact again. */
  ghost function MergedAround(s: seq<Area>, k: nat): (r: seq<Area>)
    requires k < |s|
  {
    var t := if k + 1 < |s| then Merged(s, k) else s;
    if k > 0 then Merged(t, k - 1) else t
  }

  ghost predicate CompactExcept(s: seq<Area>, lo: int, hi: int) {
    forall i :: 0 <= i < |s| - 1 && !(lo <= i < hi) ==> !Mergeable(s[i], s[i + 1])
  }

  lemma MergedCompact(s: seq<Area>, k: nat, lo: int)
    requires k + 1 < |s| && lo <= k && CompactExcept(s, lo, k + 1)
    ensures CompactExcept(Merged(s, k), lo, k)
  {
    hide Mergeable;
    var r := Merged(s, k);
    if Mergeable(s[k], s[k + 1]) {
      assert r[k] == Joined(s[k], s[k + 1]);
      forall i | 0 <= i < |r| - 1 && !(lo <= i < k) ensures !Mergeable(r[i], r[i + 1]) {
        if i == k {
          assert r[i + 1] == s[i + 2];
          JoinedMergeable(s[k], s[k + 1], s[i + 2]);
          assert !Mergeable(s[i + 1], s[i + 1 + 1]);
        } else if i > k {
          assert r[i] == s[i + 1] && r[i + 1] == s[i + 1 + 1];
        } else if i + 1 == k {
          assert r[i] == s[i];
          JoinedMergeable(s[k], s[k + 1], s[i]);
        } else {
          assert r[i] == s[i] && r[i + 1] == s[i + 1];
        }
      }
    }
  }

  lemma MergedAroundCompact(s: seq<Area>, k: nat)
    requires k < |s| && CompactExcept(s, k - 1, k + 1)
    ensures Compact(MergedAround(s, k))
  {
    hide Mergeable;
    var t := if k + 1 < |s| then Merged(s, k) else s;
    if k + 1 < |s| { MergedCompact(s, k, k - 1); }
    assert CompactExcept(t, k - 1, k);
    if k > 0 { MergedCompact(t, k - 1, k - 1); }
  }

  lemma InsertedCompact(s: seq<Area>, k: nat, m: Area)
    requires Compact(s) && k <= |s|
    ensures CompactExcept(Inserted(s, k, m), k - 1, k + 1)
  {
    hide Mergeable;
    var r := Inserted(s, k, m);
    forall i | 0 <= i < |r| - 1 && !(k - 1 <= i < k + 1) ensures !Mergeable(r[i], r[i + 1]) {
      if i < k {
        assert r[i] == s[i] && r[i + 1] == s[i + 1];
      } else {
        assert r[i] == s[i - 1] && r[i + 1] == s[i - 1 + 1];
      }
    }
  }

  lemma MergedAroundView(s: seq<Area>, k: nat, a: nat)
    requires Tidy(s) && k < |s|
    ensures Tidy(MergedAround(s, k)) && View(MergedAround(s, k), a) == View(s, a)
  {
    hide Tidy, View, Mergeable;
    var t := if k + 1 < |s| then Merged(s, k) else s;
    if k + 1 < |s| {
      MergedTidy(s, k);
      MergedView(s, k, a);
    }
    if k > 0 {
      MergedTidy(t, k - 1);
      MergedView(t, k - 1, a);
    }
  }

  // ---- The lowest gap ----

  /** a is the lowest address from MMAP_BASE on whose range meets no area. */
  ghost predicate LowestGap(s: seq<Area>, a: nat, length: nat) {
    && MMAP_BASE <= a && Free(s, a, length)
    && forall b :: MMAP_BASE <= b && Free(s, b, length) ==> a <= b
  }

  /** Some range of this length that starts in user space is free. */
  ghost predicate GapStartsInside(s: seq<Area>, length: nat) {
    exists a :: MMAP_BASE <= a < MMAP_END && Free(s, a, length)
  }

  /** Length bytes from a are free and end by MMAP_END. */
  ghost predicate FitsAt(s: seq<Area>, a: nat, length: nat) {
    MMAP_BASE <= a && a + length <= MMAP_END && Free(s, a, length)
  }

  /** MMapFindAddress does not look at MMAP_END beyond one test: its answer ends inside user space
      exactly when some free range of user space is long enough. */
  lemma InsideIffRoom(s: seq<Area>, lowest: nat, length: nat)
    requires LowestGap(s, lowest, length)
    ensures lowest + length <= MMAP_END <==> exists a :: FitsAt(s, a, length)
  {
    if lowest + length <= MMAP_END {
      assert FitsAt(s, lowest, length);
    }
  }

  /** In an empty address space a request for MMAP_END bytes is answered, and ends outside. */
  lemma BeyondTheEnd()
    ensures LowestGap([], MMAP_BASE, MMAP_END) && MMAP_BASE < MMAP_END < MMAP_BASE + MMAP_END
    ensures forall a :: !FitsAt([], a, MMAP_END)
  {
  }

  // ---- The process ----

  class Process {
    var areas: seq<Area>

    /** VmLookupAddress: the area that holds the address, found before the search passes it. */
    method LookupAddress(a: nat) returns (found: bool, k: nat)
      requires Tidy(areas)
      ensures found ==> k < |areas| && areas[k].Contains(a) && View(areas, a) == Some(MappingAt(areas[k], a))
      ensures !found ==> View(areas, a) == None
    {
      k := 0;
      while k < |areas| && areas[k].start <= a
        invariant 0 <= k <= |areas|
        invariant forall j :: 0 <= j < k ==> !areas[j].Contains(a)
      {
        if areas[k].Contains(a) {
          ViewAt(areas, k, a);
          return true, k;
        }
        k := k + 1;
      }
      ViewNone(areas, a);
      forall j | k <= j < |areas| ensures !areas[j].Contains(a) {
        assert areas[k].start <= areas[j].start by { assert AreaOk(areas[k]); }
      }
      found := false;
    }

    /** MMapFindAddress: the lowest gap that is long enough, or 0 when it starts at MMAP_END. */
    method FindAddress(length: nat) returns (r: nat)
      requires Tidy(areas)
      ensures Aligned(r)
      ensures r != 0 ==> LowestGap(areas, r, AlignUp(length))
      ensures r == 0 <==> LowestGap(areas, MMAP_END, AlignUp(length))
    {
      hide AlignUp, Aligned;
      assert Aligned(0) && Aligned(MMAP_BASE) by { FixedAligned(); }
      var need := AlignUp(length);
      var mapStart, k := MMAP_BASE, 0;
      while k < |areas|
        invariant 0 <= k <= |areas| && MMAP_BASE <= mapStart && Aligned(mapStart)
        invariant forall j :: 0 <= j < k ==> areas[j].End() <= mapStart
        invariant forall a :: MMAP_BASE <= a && Free(areas, a, need) ==> mapStart <= a
        invariant k < |areas| ==> mapStart <= areas[k].start
      {
        assert AreaOk(areas[k]);
        AlignedUp(areas[k].length);
        AlignedSum(areas[k].start, areas[k].length);
        var mapEnd := areas[k].start;
        if mapStart <= mapEnd && need <= mapEnd - mapStart {
          assert Free(areas, mapStart, need) by {
            forall j | k <= j < |areas| ensures mapStart + need <= areas[j].start {
              assert j > k ==> areas[k].End() <= areas[j].start;
            }
          }
          assert mapStart < MMAP_END;
          return mapStart;
        }
        mapStart := areas[k].start + AlignUp(areas[k].length);
        k := k + 1;
      }
      assert LowestGap(areas, mapStart, need);
      r := if mapStart == MMAP_END then 0 else mapStart;
    }

    /** MMapAddArea: before the first area that starts later. */
    method AddArea(m: Area) returns (k: nat)
      requires Tidy(areas) && AreaOk(m) && Free(areas, m.start, m.length)
      modifies this
      ensures Place(old(areas), k, m) && areas == Inserted(old(areas), k, m) && Tidy(areas)
    {
      k := 0;
      while k < |areas| && areas[k].start <= m.start
        invariant 0 <= k <= |areas|
        invariant forall j :: 0 <= j < k ==> areas[j].start <= m.start
      {
        k := k + 1;
      }
      InsertedTidy(areas, k, m);
      areas := areas[..k] + [m] + areas[k..];
    }

    /** MMapMerge of an area and the one after it. */
    method Merge(k: nat)
      requires k + 1 < |areas|
      modifies this
      ensures areas == Merged(old(areas), k)
    {
      var f, g := areas[k], areas[k + 1];
      if f.End() != g.start { return; }
      if f.vNode != g.vNode { return; }
      if f.areaOps != g.areaOps { return; }
      if f.flags != g.flags { return; }
      if f.protection != g.protection { return; }
      if !f.Anonymous() && g.offset != f.offset + f.length { return; }
      areas := areas[..k] + [f.(length := f.length + g.length)] + areas[k + 2..];
    }

    /** MMapMergeMappings: the next area first, then the previous one. */
    method MergeMappings(k: nat)
      requires k < |areas|
      modifies this
      ensures areas == MergedAround(old(areas), k)
    {
      if k + 1 < |areas| {
        Merge(k);
      }
      if k > 0 {
        Merge(k - 1);
      }
    }

    /** MMapUnmap where nothing is mapped: -EINVAL for a range outside user space, else -EFAULT. */
    method UnmapFree(start: nat, length: nat) returns (err: int)
      requires Tidy(areas) && View(areas, start) == None
      ensures err == if start % PAGE_SIZE != 0 || start + length > MMAP_END || length == 0 then -EINVAL else -EFAULT
    {
      if start % PAGE_SIZE != 0 || start > MMAP_END || length > MMAP_END - start || length == 0 {
        return -EINVAL;
      }
      var found, _ := LookupAddress(start);
      assert !found;
      return -EFAULT;
    }

    /** MMapDo without MMAP_FIXED. `zero` is the vNode of the Zero device (0 if it is not found),
        `isFile` whether vNode is a file, `haveArea` whether an area structure could be had. */
    method MMapDo(vNode: nat, isFile: bool, zero: nat, haveArea: bool, length: nat, protection: int, offset: nat,
                  flags: bv32, ops: nat) returns (r: nat)
      requires Tidy(areas) && flags & MMAP_FIXED == 0
      modifies this
      ensures Tidy(areas) && (Compact(old(areas)) ==> Compact(areas))
      ensures r != 0 <==>
        haveArea && length > 0 && GapStartsInside(old(areas), AlignUp(length))
        && (if vNode != 0 then flags & MMAP_GROWDOWN == 0 && isFile else zero != 0)
      ensures r == 0 ==> areas == old(areas)
      ensures r != 0 ==> LowestGap(old(areas), r, AlignUp(length))
      ensures r != 0 ==>
        var m := if vNode != 0 then Area(r, AlignUp(length), vNode, offset, protection, flags, ops)
                 else Area(r, AlignUp(length), zero, offset, protection, flags | MMAP_ANON, ops);
        forall a: nat :: View(areas, a) == if m.Contains(a) then Some(MappingAt(m, a)) else View(old(areas), a)
    {
      hide View, Tidy, Mergeable, MappingAt, Inserted, MergedAround, Compact;
      if !haveArea || length == 0 {
        return 0;
      }
      var address := FindAddress(length);
      address := Align(address);
      if address < MMAP_BASE || address >= MMAP_END {
        return 0;
      }
      var m := Area(address, AlignUp(length), vNode, offset, protection, flags, ops);
      if vNode != 0 {
        if flags & MMAP_GROWDOWN != 0 || !isFile {
          return 0;
        }
      } else {
        if zero == 0 {
          return 0;
        }
        m := m.(vNode := zero, flags := flags | MMAP_ANON);
      }
      Enter(m);
      return address;
    }

    /** The last three steps of MMapDo. */
    method Enter(m: Area)
      requires Tidy(areas) && AreaOk(m) && Free(areas, m.start, m.length)
      modifies this
      ensures Tidy(areas) && (Compact(old(areas)) ==> Compact(areas))
      ensures forall a: nat :: View(areas, a) == if m.Contains(a) then Some(MappingAt(m, a)) else View(old(areas), a)
    {
      hide View, Tidy, Mergeable, MappingAt, Inserted, MergedAround, Compact;
      ghost var s := areas;
      FreeStart(areas, m.start, m.length);
      var _ := UnmapFree(m.start, m.length);
      var k := AddArea(m);
      assert k < |areas| by { InsertedLength(s, k, m); }
      ghost var t := areas;
      MergeMappings(k);
      forall a: nat ensures View(areas, a) == if m.Contains(a) then Some(MappingAt(m, a)) else View(s, a) {
        InsertedView(s, k, m, a);
        MergedAroundView(t, k, a);
      }
      MergedAroundView(t, k, 0);
      if Compact(s) {
        InsertedCompact(s, k, m);
        MergedAroundCompact(t, k);
      }
    }

  }

  lemma InsertedLength(s: seq<Area>, k: nat, m: Area)
    requires k <= |s|
    ensures |Inserted(s, k, m)| == |s| + 1 && Inserted(s, k, m)[k] == m
  {
  }

  lemma FreeStart(s: seq<Area>, a: nat, length: nat)
    requires Free(s, a, length) && length > 0
    ensures View(s, a) == None
  {
    ViewNone(s, a);
  }
}
