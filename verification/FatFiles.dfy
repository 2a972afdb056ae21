/** Block mapping (fs/fat/file.c): FatBlockMap walks, and with create extends, a file's chain. */
module FatFiles {
  import opened Grid
  import opened FatTable
  import opened FatChains

  /** Sector `k` of a file with chain `s`: sector k % secsPerClus of cluster number k / secsPerClus. */
  function SectorAt(geo: Geometry, s: seq<nat>, k: nat): (j: nat)
    requires 0 < geo.secsPerClus && Row(geo.secsPerClus, k) < |s| && 2 <= s[Row(geo.secsPerClus, k)]
  {
    ToSector(geo, s[Row(geo.secsPerClus, k)]) + Col(geo.secsPerClus, k)
  }

  /** The same by the kernel's arithmetic. */
  lemma SectorByArithmetic(geo: Geometry, s: seq<nat>, k: nat)
    requires 0 < geo.secsPerClus && forall i :: 0 <= i < |s| ==> 2 <= s[i]
    ensures Row(geo.secsPerClus, k) < |s| <==> k / geo.secsPerClus < |s|
    ensures k / geo.secsPerClus < |s| ==>
              && 0 <= k / geo.secsPerClus
              && SectorAt(geo, s, k)
                   == (s[k / geo.secsPerClus] - 2) * geo.secsPerClus + geo.firstDataSector + k % geo.secsPerClus
  {
    GridIsDivMod(geo.secsPerClus, k);
    if k / geo.secsPerClus < |s| { ClustersByArithmetic(geo, s[k / geo.secsPerClus]); }
  }

  /** A chain grew from `s` to `s'`: the new clusters were zeroed, no other data sector changed. */
  ghost predicate Grown(geo: Geometry, disk: Disk, disk': Disk, s: seq<nat>, s': seq<nat>)
    requires geo.Valid() && 0 < geo.secsPerClus
  {
    && |disk'| == |disk| && s <= s'
    && (forall j :: 0 <= j < |disk| && !geo.InTables(j) && disk'[j] != disk[j] ==> InNew(geo, s, s', j))
    && (forall j :: 0 <= j < |disk| && !geo.InTables(j) && InNew(geo, s, s', j) ==>
          disk'[j] == ZeroSector(geo.bytesPerSec))
  }

  /** Is sector `j` part of a cluster that `s'` has and `s` does not reach? */
  ghost predicate InNew(geo: Geometry, s: seq<nat>, s': seq<nat>, j: nat)
    requires 0 < geo.secsPerClus
  {
    exists i :: |s| <= i < |s'| && InCluster(geo, s'[i], j)
  }

  lemma GrownStep(geo: Geometry, disk: Disk, disk': Disk, disk'': Disk, s: seq<nat>, s': seq<nat>, c: nat)
    requires geo.Valid() && 0 < geo.secsPerClus
    requires Grown(geo, disk, disk', s, s') && OnlyZeroed(geo, disk', disk'', c)
    ensures Grown(geo, disk, disk'', s, s' + [c])
  {
    forall j | 0 <= j < |disk| && !geo.InTables(j)
      ensures InNew(geo, s, s' + [c], j) <==> InNew(geo, s, s', j) || InCluster(geo, c, j)
    {
      var t := s' + [c];
      if InNew(geo, s, s', j) {
        var i :| |s| <= i < |s'| && InCluster(geo, s'[i], j);
        assert InCluster(geo, t[i], j);
      }
      if InCluster(geo, c, j) { assert InCluster(geo, t[|s'|], j); }
    }
  }

  /** What chain growth can change: the device, the chains and the free clusters. It keeps `stray`:
      whether an entry past the last cluster looks free. */
  datatype Snap = Snap(disk: Disk, chains: map<nat, seq<nat>>, free: set<nat>, stray: bool)

  ghost function Snapshot(vol: FatVolume): (a: Snap)
    reads vol, vol.dev
    requires vol.dev.Valid() && 0 < vol.dev.geo.secsPerClus
  {
    Snap(vol.dev.disk, vol.chains, Findable(vol.dev.geo, vol.Table()), Stray(vol.dev.geo, vol.Table()))
  }

  /** The chain of `f` got `n` more clusters. Nothing else happened to any file. */
  ghost predicate Extended(geo: Geometry, a: Snap, b: Snap, f: nat, n: nat)
    requires geo.Valid() && 0 < geo.secsPerClus
  {
    && f in a.chains && f in b.chains && b.chains == a.chains[f := b.chains[f]]
    && |b.chains[f]| == |a.chains[f]| + n
    && n <= |a.free| && |b.free| == |a.free| - n && b.free <= a.free && b.stray == a.stray
    && Grown(geo, a.disk, b.disk, a.chains[f], b.chains[f])
  }

  lemma ExtendOne(geo: Geometry, a: Snap, b: Snap, b': Snap, f: nat, n: nat, c: nat)
    requires geo.Valid() && 0 < geo.secsPerClus && Extended(geo, a, b, f, n)
    requires OnlyZeroed(geo, b.disk, b'.disk, c) && b'.chains == b.chains[f := b.chains[f] + [c]]
    requires c in b.free && b'.free == b.free - {c} && b'.stray == b.stray
    ensures Extended(geo, a, b', f, n + 1)
  {
    GrownStep(geo, a.disk, b.disk, b'.disk, a.chains[f], b.chains[f], c);
  }

  lemma ExtendNone(geo: Geometry, a: Snap, f: nat)
    requires geo.Valid() && 0 < geo.secsPerClus && f in a.chains
    ensures Extended(geo, a, a, f, 0)
  {
    assert a.chains == a.chains[f := a.chains[f]];
  }

  /** One turn of the inner loop of FatBlockMap, after `n` clusters were added to what `a` had. */
  method ExtendOnce(vol: FatVolume, f: nat, ghost a: Snap, ghost n: nat) returns (ok: bool, c: nat, outside: bool)
    requires vol.Valid() && f in vol.start && !IsFixedRoot(vol.dev.geo, f)
    requires Extended(vol.dev.geo, a, Snapshot(vol), f, n)
    modifies vol`start, vol`freeClusters, vol`chains, vol.dev
    ensures vol.Valid() && f in vol.start
    ensures ok <==> n < |a.free|
    ensures outside <==> !ok && a.stray
    ensures Extended(vol.dev.geo, a, Snapshot(vol), f, if ok then n + 1 else n)
    ensures ok ==> c == vol.chains[f][|vol.chains[f]| - 1]
  {
    hide Row, Col, At, Fat, Mirrored, Findable, FreeSet, Stray, Grown, IsCluster;
    ghost var b := Snapshot(vol);
    var err;
    err, c, outside := vol.AddCluster(f);
    ok := err == 0 && !outside;
    if ok {
      ExtendOne(vol.dev.geo, a, b, Snapshot(vol), f, n, c);
    }
  }

  lemma VolumeSound(vol: FatVolume)
    requires vol.Valid()
    ensures vol.dev.Valid() && vol.dev.geo.Valid() && 0 < vol.dev.geo.secsPerClus
    ensures vol.chains.Keys == vol.start.Keys
  {
  }

  /** The inner loop of FatBlockMap: add `n` clusters, or as many as are findable. When there are too
      few, the free search runs out, or it leaves the device (`outside`). */
  method Extend(vol: FatVolume, f: nat, n: nat) returns (ok: bool, last: nat, outside: bool)
    requires vol.Valid() && f in vol.start && !IsFixedRoot(vol.dev.geo, f)
    modifies vol`start, vol`freeClusters, vol`chains, vol.dev
    ensures vol.Valid() && f in vol.start
    ensures ok <==> n <= |old(Snapshot(vol)).free|
    ensures outside <==> n > |old(Snapshot(vol)).free| && old(Snapshot(vol)).stray
    ensures Extended(vol.dev.geo, old(Snapshot(vol)), Snapshot(vol), f, if ok then n else |old(Snapshot(vol)).free|)
    ensures ok && 0 < n ==> last == vol.chains[f][|vol.chains[f]| - 1]
  {
    hide Row, Col, At, Fat, Snapshot, Grown, FatVolume.Valid, FatDevice.Valid;
    VolumeSound(vol);
    ghost var a := Snapshot(vol);
    var done := 0;
    last := 0;
    assert f in a.chains by { SnapshotChains(vol); }
    ExtendNone(vol.dev.geo, a, f);
    while done < n
      invariant 0 <= done <= n && vol.Valid() && vol.dev.Valid() && f in vol.start && f in vol.chains
      invariant Extended(vol.dev.geo, a, Snapshot(vol), f, done)
      invariant 0 < done ==> 0 < |vol.chains[f]| && last == vol.chains[f][|vol.chains[f]| - 1]
    {
      var c;
      ok, c, outside := ExtendOnce(vol, f, a, done);
      VolumeSound(vol);
      if !ok {
        return false, last, outside;
      }
      SnapshotChains(vol);
      last := c;
      done := done + 1;
    }
    ok, outside := true, false;
  }

  lemma SnapshotChains(vol: FatVolume)
    requires vol.dev.Valid() && 0 < vol.dev.geo.secsPerClus
    ensures Snapshot(vol).chains == vol.chains
  {
  }

  /** How many clusters a creating FatBlockMap of sector `k` has to add to a non-empty chain. */
  function Needed(geo: Geometry, s: seq<nat>, k: nat): (n: nat)
    requires 0 < geo.secsPerClus
  {
    if Row(geo.secsPerClus, k) < |s| then 0 else Row(geo.secsPerClus, k) + 1 - |s|
  }

  lemma NeededByArithmetic(geo: Geometry, s: seq<nat>, k: nat)
    requires 0 < geo.secsPerClus
    ensures |s| + Needed(geo, s, k) == if k / geo.secsPerClus < |s| then |s| else k / geo.secsPerClus + 1
  {
    GridIsDivMod(geo.secsPerClus, k);
  }

  /** The outer loop of FatBlockMap: follow the chain for `q` steps, or up to its end mark. */
  method Walk(vol: FatVolume, f: nat, q: nat) returns (retVal: nat, left: nat)
    requires vol.Valid() && f in vol.start && vol.start[f] != 0
    modifies vol.dev
    ensures vol.dev.disk == old(vol.dev.disk)
    ensures q < |vol.chains[f]| ==> left == 0 && retVal == vol.chains[f][q] < vol.dev.geo.InvalidCluster()
    ensures q >= |vol.chains[f]| ==> left == q - |vol.chains[f]| && retVal >= vol.dev.geo.InvalidCluster()
  {
    var geo := vol.dev.geo;
    ghost var s, fat := vol.chains[f], vol.Table();
    retVal := vol.start[f];
    left := q;
    ClearedStep(geo, fat, s, 0);
    while left > 0
      invariant 0 <= left <= q && q - left < |s| && retVal == s[q - left] && IsCluster(geo, retVal)
      invariant vol.dev.disk == old(vol.dev.disk)
    {
      left := left - 1;
      ClearedStep(geo, fat, s, q - left - 1);
      retVal := vol.GetEntry(retVal);
      if retVal >= geo.InvalidCluster() {
        return;
      }
      ClearedStep(geo, fat, s, q - left);
    }
    ClusterFitsEntry(geo, retVal);
  }

  /** FatBlockMap on a file that has clusters. */
  method MapChain(vol: FatVolume, f: nat, offset: nat, create: bool) returns (r: int, outside: bool)
    requires vol.Valid() && f in vol.start && vol.start[f] != 0 && !IsFixedRoot(vol.dev.geo, f)
    modifies vol`start, vol`freeClusters, vol`chains, vol.dev
    ensures vol.Valid() && f in vol.start
    ensures !create ==> Snapshot(vol) == old(Snapshot(vol)) && vol.start == old(vol.start)
    ensures var need, a := Needed(vol.dev.geo, old(vol.chains)[f], offset), old(Snapshot(vol));
            if !create then !outside && (r != -1 <==> need == 0)
            else
              && (outside <==> need > |a.free| && a.stray)
              && (!outside ==> (r != -1 <==> need <= |a.free|))
              && Extended(vol.dev.geo, a, Snapshot(vol), f, if need <= |a.free| then need else |a.free|)
    ensures !outside && r != -1 ==> MapsTo(vol.dev.geo, vol.chains[f], offset, r)
  {
    hide Row, Col, At, Grown, Mirrored, Fat;
    var geo := vol.dev.geo;
    ghost var a := Snapshot(vol);
    ExtendNone(geo, a, f);
    var q := Row(geo.secsPerClus, offset);
    var retVal, left := Walk(vol, f, q);
    if retVal >= geo.InvalidCluster() {
      if !create {
        return -1, false;
      }
      var ok, last;
      ok, last, outside := Extend(vol, f, left + 1);
      if !ok {
        return -1, outside;
      }
      assert IsCluster(geo, vol.chains[f][q]);
      return ToSector(geo, last) + Col(geo.secsPerClus, offset), false;
    }
    assert IsCluster(geo, vol.chains[f][q]);
    r, outside := ToSector(geo, retVal) + Col(geo.secsPerClus, offset), false;
  }

  /** Sector `k` of the file with chain `s` is sector `r` of the device. */
  predicate MapsTo(geo: Geometry, s: seq<nat>, k: nat, r: int)
    requires 0 < geo.secsPerClus
  {
    Row(geo.secsPerClus, k) < |s| && 2 <= s[Row(geo.secsPerClus, k)] && r == SectorAt(geo, s, k)
  }

  /** FatBlockMap. The answer is a sector number or -1. It says nothing when the free search left the
      device (`outside`): the code then goes on with a number that is no cluster. */
  method BlockMap(vol: FatVolume, f: nat, offset: nat, create: bool) returns (r: int, outside: bool)
    requires vol.Valid() && f in vol.start
    modifies vol`start, vol`freeClusters, vol`chains, vol.dev
    ensures vol.Valid() && f in vol.start
    // The fixed root directory of FAT12 and FAT16.
    ensures IsFixedRoot(vol.dev.geo, f) ==>
              && Snapshot(vol) == old(Snapshot(vol)) && !outside
              && r == if offset >= vol.dev.geo.rootDirLength then -1 else vol.dev.geo.rootDirStart + offset
    // Without create nothing changes, and the answer is -1 exactly past the end of the chain.
    ensures !create && !IsFixedRoot(vol.dev.geo, f) ==>
              && Snapshot(vol) == old(Snapshot(vol)) && !outside
              && (r != -1 <==> Row(vol.dev.geo.secsPerClus, offset) < |vol.chains[f]|)
              && (r != -1 ==> MapsTo(vol.dev.geo, vol.chains[f], offset, r))
    // With create a non-empty chain is extended to exactly the cluster that is needed.
    ensures create && !IsFixedRoot(vol.dev.geo, f) && old(vol.chains)[f] != [] ==>
              var need, a := Needed(vol.dev.geo, old(vol.chains)[f], offset), old(Snapshot(vol));
              && (outside <==> need > |a.free| && a.stray)
              && (!outside ==> (r != -1 <==> need <= |a.free|))
              && Extended(vol.dev.geo, a, Snapshot(vol), f, if need <= |a.free| then need else |a.free|)
              && (!outside && r != -1 ==> MapsTo(vol.dev.geo, vol.chains[f], offset, r))
    // With create an empty chain gets one cluster, whatever the offset is.
    ensures create && !IsFixedRoot(vol.dev.geo, f) && old(vol.chains)[f] == [] ==>
              var a := old(Snapshot(vol));
              && (outside <==> a.free == {} && a.stray)
              && (!outside ==> (r != -1 <==> a.free != {}))
              && Extended(vol.dev.geo, a, Snapshot(vol), f, if a.free != {} then 1 else 0)
              && (a.free != {} ==>
                    && 2 <= vol.chains[f][0]
                    && r == ToSector(vol.dev.geo, vol.chains[f][0]) + Row(vol.dev.geo.secsPerClus, offset))
  {
    var geo := vol.dev.geo;
    if f == 0 && !geo.fatType.Fat32? {
      if offset >= geo.rootDirLength {
        return -1, false;
      }
      return geo.rootDirStart + offset, false;
    }
    if vol.start[f] != 0 {
      r, outside := MapChain(vol, f, offset, create);
      return;
    }
    if create {
      var ok, last;
      ok, last, outside := Extend(vol, f, 1);
      if !ok {
        return -1, outside;
      }
      assert IsCluster(geo, vol.chains[f][0]);
      return ToSector(geo, vol.start[f]) + Row(geo.secsPerClus, offset), false;
    }
    r, outside := -1, false;
  }

  /** The first-cluster path answers the sector that the new chain has for `k` only for k = 0:
      it adds the cluster number to the sector, not the sector inside the cluster. */
  lemma FirstClusterAnswer(geo: Geometry, s: seq<nat>, k: nat)
    requires 0 < geo.secsPerClus && |s| == 1 && 2 <= s[0]
    ensures (Row(geo.secsPerClus, k) < |s| && ToSector(geo, s[0]) + Row(geo.secsPerClus, k) == SectorAt(geo, s, k))
       <==> k == 0
  {
  }
}
