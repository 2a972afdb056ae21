/**
 Cluster chains (fs/fat/fat.c, fs/fat/file.c): each file is a linked list inside the allocation
 table. Adding, removing and mapping work on the packed bytes through FatAccess; the invariant is
 stated on the table as a plain array of entries.
 */
module FatChains {
  import opened Bytes
  import opened Grid
  import opened FatTable
  import opened Errors
  import opened Sequences

  /** The table as a plain array. */
  ghost function Fat(geo: Geometry, disk: Disk): (fat: seq<nat>)
    requires geo.Valid() && geo.Fits(disk)
    ensures |fat| == geo.totalDataSectors + 1
  {
    Entries(geo, disk, geo.totalDataSectors + 1)
  }

  ghost function Entries(geo: Geometry, disk: Disk, n: nat): (fat: seq<nat>)
    requires geo.Valid() && geo.Fits(disk) && n <= geo.totalDataSectors + 1
    ensures |fat| == n
  {
    if n == 0 then [] else Entries(geo, disk, n - 1) + [Entry(geo, disk, n - 1)]
  }

  lemma {:induction false} EntriesAt(geo: Geometry, disk: Disk, n: nat, c: nat)
    requires geo.Valid() && geo.Fits(disk) && c < n <= geo.totalDataSectors + 1
    ensures Entries(geo, disk, n)[c] == Entry(geo, disk, c)
  {
    if c < n - 1 { EntriesAt(geo, disk, n - 1, c); }
  }

  lemma FatAt(geo: Geometry, disk: Disk, c: nat)
    requires geo.Valid() && geo.Fits(disk) && c <= geo.totalDataSectors
    ensures Fat(geo, disk)[c] == Entry(geo, disk, c)
  {
    EntriesAt(geo, disk, geo.totalDataSectors + 1, c);
  }

  function Set(fat: seq<nat>, c: nat, v: nat): (r: seq<nat>)
    requires c < |fat|
  {
    fat[c := v]
  }

  /** FatAccess on the bytes is an array update on the entries. */
  lemma StoredFat(geo: Geometry, disk: Disk, c: nat, v: nat)
    requires geo.Valid() && geo.Fits(disk) && c <= geo.totalDataSectors && v < geo.Radix()
    ensures Fat(geo, Stored(geo, disk, c, v)) == Set(Fat(geo, disk), c, v)
  {
    hide Row, Col, At, Entry, Stored;
    forall d | 0 <= d <= geo.totalDataSectors
      ensures Fat(geo, Stored(geo, disk, c, v))[d] == Set(Fat(geo, disk), c, v)[d]
    {
      StoredEntry(geo, disk, c, v, d);
      EntriesAt(geo, disk, geo.totalDataSectors + 1, d);
      EntriesAt(geo, Stored(geo, disk, c, v), geo.totalDataSectors + 1, d);
    }
  }

  /** How the mount code chooses the type from the number of clusters. */
  ghost predicate Mounted(geo: Geometry) {
    && geo.Valid() && 0 < geo.secsPerClus
    && match geo.fatType
       case Fat12 => Clusters(geo) < 4085
       case Fat16 => 4085 <= Clusters(geo) < 65525
       case Fat32 => 65525 <= Clusters(geo) < 0x0FFF_FFF0
  }

  function Clusters(geo: Geometry): (n: nat)
    requires 0 < geo.secsPerClus
  {
    Row(geo.secsPerClus, geo.totalDataSectors)
  }

  /** Numbers of the clusters of the device. */
  predicate OnVolume(geo: Geometry, c: nat)
    requires 0 < geo.secsPerClus
  {
    2 <= c < Clusters(geo) + 2
  }

  /** Clusters that have an entry: FatAccess panics on numbers above the sector count. */
  predicate IsCluster(geo: Geometry, c: nat)
    requires 0 < geo.secsPerClus
  {
    OnVolume(geo, c) && c <= geo.totalDataSectors
  }

  lemma {:induction false} RowAtMost(n: nat, k: nat)
    requires 0 < n
    ensures Row(n, k) <= k && (1 < n && 0 < k ==> Row(n, k) < k) && (n == 1 ==> Row(n, k) == k)
    ensures 1 < n && 4 <= k ==> Row(n, k) + 2 <= k
    decreases k
  {
    if k < n {
    } else {
      RowAtMost(n, k - n);
    }
  }

  /** The sector count bounds the cluster numbers twice: the free search stops before it and FatAccess
      panics behind it. With one sector to a cluster that cuts off the last two clusters of the device,
      and with more it cuts off none. */
  lemma LastClusters(geo: Geometry)
    requires 0 < geo.secsPerClus && 4 <= geo.totalDataSectors
    ensures geo.totalDataSectors < Clusters(geo) + 2 <==> geo.secsPerClus == 1
    ensures (exists c: nat :: OnVolume(geo, c) && c >= geo.totalDataSectors) <==> geo.secsPerClus == 1
    ensures geo.secsPerClus == 1 ==> forall c: nat :: OnVolume(geo, c) && c >= geo.totalDataSectors <==>
              c == geo.totalDataSectors || c == geo.totalDataSectors + 1
  {
    RowAtMost(geo.secsPerClus, geo.totalDataSectors);
    if geo.secsPerClus == 1 { assert OnVolume(geo, geo.totalDataSectors); }
  }

  /** The one cluster of the device that can be without an entry. */
  lemma NoEntryIff(geo: Geometry, c: nat)
    requires 0 < geo.secsPerClus && OnVolume(geo, c)
    ensures IsCluster(geo, c) <==> c != geo.totalDataSectors + 1
  {
    RowAtMost(geo.secsPerClus, geo.totalDataSectors);
  }

  /** A finite chain of distinct clusters, each entry naming the next one, the last one an end mark. */
  ghost predicate IsChain(geo: Geometry, fat: seq<nat>, s: seq<nat>)
    requires 0 < geo.secsPerClus
  {
    && 0 < |s| && |fat| == geo.totalDataSectors + 1
    && (forall i :: 0 <= i < |s| ==> IsCluster(geo, s[i]))
    && (forall i, j :: 0 <= i < j < |s| ==> s[i] != s[j])
    && (forall i :: 0 <= i < |s| - 1 ==> fat[s[i]] == s[i + 1])
    && geo.InvalidCluster() <= fat[s[|s| - 1]]
  }

  /** A chain of clusters of the device, whether or not they all have an entry. */
  ghost predicate IsLinked(geo: Geometry, fat: seq<nat>, s: seq<nat>)
    requires 0 < geo.secsPerClus
  {
    && 0 < |s| && |fat| == geo.totalDataSectors + 1
    && (forall i :: 0 <= i < |s| ==> OnVolume(geo, s[i]))
    && (forall i, j :: 0 <= i < j < |s| ==> s[i] != s[j])
    && (forall i :: 0 <= i < |s| - 1 && s[i] < |fat| ==> fat[s[i]] == s[i + 1])
    && (s[|s| - 1] < |fat| ==> geo.InvalidCluster() <= fat[s[|s| - 1]])
  }

  lemma LinkedSome(geo: Geometry, fat: seq<nat>, s: seq<nat>)
    requires Mounted(geo) && IsLinked(geo, fat, s)
    ensures 0 < |s| && |fat| == geo.totalDataSectors + 1
  {
  }

  lemma ChainIffEntries(geo: Geometry, fat: seq<nat>, s: seq<nat>)
    requires 0 < geo.secsPerClus
    ensures IsChain(geo, fat, s) <==> IsLinked(geo, fat, s) && geo.totalDataSectors + 1 !in s
  {
    if IsLinked(geo, fat, s) && geo.totalDataSectors + 1 !in s {
      forall i | 0 <= i < |s| ensures IsCluster(geo, s[i]) { NoEntryIff(geo, s[i]); }
    }
    if IsChain(geo, fat, s) {
      assert forall i :: 0 <= i < |s| ==> IsCluster(geo, s[i]);
    }
  }

  /** The chains of all files: disjoint, and matching the start clusters. */
  ghost predicate Chained(geo: Geometry, fat: seq<nat>, start: map<nat, nat>, chains: map<nat, seq<nat>>)
  {
    && Mounted(geo) && |fat| == geo.totalDataSectors + 1
    && chains.Keys == start.Keys
    && (forall f :: f in start ==> if start[f] == 0 then chains[f] == []
                                   else IsChain(geo, fat, chains[f]) && start[f] == chains[f][0])
    && (forall f, g, c :: f in chains && g in chains && f != g && c in chains[f] ==> c !in chains[g])
  }

  lemma ClusterFitsEntry(geo: Geometry, c: nat)
    requires Mounted(geo) && IsCluster(geo, c)
    ensures c < geo.InvalidCluster() < geo.Radix() && c <= geo.totalDataSectors
  {
  }

  /** Linking a free cluster to the end of a chain. */
  lemma AppendChain(geo: Geometry, fat: seq<nat>, s: seq<nat>, c: nat)
    requires 0 < geo.secsPerClus && IsChain(geo, fat, s) && IsCluster(geo, c) && c !in s
    ensures IsChain(geo, Set(Set(fat, c, geo.InvalidCluster()), s[|s| - 1], c), s + [c])
  {
  }

  /** A chain does not notice changes to entries outside it. */
  lemma OtherChain(geo: Geometry, fat: seq<nat>, fat': seq<nat>, s: seq<nat>)
    requires 0 < geo.secsPerClus && IsChain(geo, fat, s) && |fat'| == |fat|
    requires forall c :: c in s && c < |fat| ==> fat'[c] == fat[c]
    ensures IsChain(geo, fat', s)
  {
  }

  /** The entries of a chain are not free. */
  lemma ChainNotFree(geo: Geometry, fat: seq<nat>, s: seq<nat>)
    requires Mounted(geo) && IsChain(geo, fat, s)
    ensures forall i :: 0 <= i < |s| ==> fat[s[i]] != 0
  {
    forall i | 0 <= i < |s| ensures fat[s[i]] != 0 {
      if i < |s| - 1 { assert IsCluster(geo, s[i + 1]); }
    }
  }

  lemma FreeIsUnchained(geo: Geometry, fat: seq<nat>, start: map<nat, nat>, chains: map<nat, seq<nat>>, c: nat)
    requires Chained(geo, fat, start, chains) && c < |fat| && fat[c] == 0
    ensures forall f :: f in chains ==> c !in chains[f]
  {
    forall f | f in chains ensures c !in chains[f] {
      if start[f] != 0 { ChainNotFree(geo, fat, chains[f]); }
    }
  }

  /** The free clusters. */
  ghost function FreeSet(geo: Geometry, fat: seq<nat>): (z: set<nat>)
    requires 0 < geo.secsPerClus
  {
    set c: nat | c < |fat| && IsCluster(geo, c) && fat[c] == 0
  }

  /** The free clusters that the free search looks at. */
  ghost function Findable(geo: Geometry, fat: seq<nat>): (z: set<nat>)
    requires 0 < geo.secsPerClus
  {
    set c: nat | c < |fat| && IsCluster(geo, c) && c < geo.totalDataSectors && fat[c] == 0
  }

  /** The free search runs to a sector count: is there an entry past the last cluster that looks free? */
  ghost predicate Stray(geo: Geometry, fat: seq<nat>)
    requires 0 < geo.secsPerClus
  {
    exists e :: Clusters(geo) + 2 <= e < geo.totalDataSectors && e < |fat| && fat[e] == 0
  }

  /** The number that the free search answers: the lowest zero entry below the sector count, or 0. */
  ghost predicate LowestZero(geo: Geometry, fat: seq<nat>, c: nat)
    requires |fat| == geo.totalDataSectors + 1
  {
    && (c != 0 ==> 2 <= c < geo.totalDataSectors && fat[c] == 0)
    && (forall i :: 2 <= i < (if c == 0 then geo.totalDataSectors else c) ==> fat[i] != 0)
  }

  /** The three outcomes of the free search. The lowest findable cluster is answered if and only if
      there is one, 0 if and only if no entry below the sector count is zero, and otherwise a number
      past the last cluster. */
  lemma SearchOutcome(geo: Geometry, fat: seq<nat>, c: nat)
    requires 0 < geo.secsPerClus && |fat| == geo.totalDataSectors + 1 && LowestZero(geo, fat, c)
    ensures IsCluster(geo, c) <==> Findable(geo, fat) != {}
    ensures c == 0 <==> Findable(geo, fat) == {} && !Stray(geo, fat)
    ensures IsCluster(geo, c) ==> c in Findable(geo, fat) && forall i :: i in Findable(geo, fat) ==> c <= i
    ensures c == 0 || IsCluster(geo, c) <==>
      || (exists d: nat :: d < geo.totalDataSectors && IsCluster(geo, d) && fat[d] == 0)
      || (forall e :: Clusters(geo) + 2 <= e < geo.totalDataSectors ==> fat[e] != 0)
  {
    if c != 0 && IsCluster(geo, c) { assert c in Findable(geo, fat); }
    if Findable(geo, fat) != {} {
      var d :| d in Findable(geo, fat);
      assert c != 0 && c <= d;
    }
    if Stray(geo, fat) {
      var e :| Clusters(geo) + 2 <= e < geo.totalDataSectors && e < |fat| && fat[e] == 0;
      assert c != 0;
    }
  }

  /** When the free search misses: it answers no cluster although one is free if and only if the last
      entry, number totalDataSectors, belongs to a cluster and is the only free one. It then answers
      nothing at all. */
  lemma MissedIff(geo: Geometry, fat: seq<nat>, c: nat)
    requires 0 < geo.secsPerClus && |fat| == geo.totalDataSectors + 1 && LowestZero(geo, fat, c)
    ensures !IsCluster(geo, c) && FreeSet(geo, fat) != {} <==> FreeSet(geo, fat) == {geo.totalDataSectors}
    ensures !IsCluster(geo, c) && FreeSet(geo, fat) != {} ==> c == 0
    ensures FreeSet(geo, fat) == Findable(geo, fat) <==>
      !IsCluster(geo, geo.totalDataSectors) || fat[geo.totalDataSectors] != 0
  {
    SearchOutcome(geo, fat, c);
    var t := geo.totalDataSectors;
    assert Findable(geo, fat) == FreeSet(geo, fat) - {t};
    if FreeSet(geo, fat) != {} && Findable(geo, fat) == {} {
      var d :| d in FreeSet(geo, fat);
      assert d !in Findable(geo, fat);
      assert FreeSet(geo, fat) == {t};
    }
    if IsCluster(geo, t) && fat[t] == 0 { assert t in FreeSet(geo, fat); }
  }

  /** A number names a cluster if and only if its sectors are inside the volume. */
  lemma OutsideVolume(geo: Geometry, c: nat)
    requires 0 < geo.secsPerClus && 2 <= c
    ensures OnVolume(geo, c)
       <==> ToSector(geo, c) + geo.secsPerClus <= geo.firstDataSector + geo.totalDataSectors
  {
    var n := geo.secsPerClus;
    if OnVolume(geo, c) {
      ClusterSectors(geo, c, 0);
    } else {
      AtRowCol(n, geo.totalDataSectors);
      AtAdd(n, Clusters(geo), 0, Col(n, geo.totalDataSectors));
      if Clusters(geo) < c - 2 { AtMono(n, Clusters(geo), c - 2, 0); }
    }
  }

  /** A small FAT12 volume: two tables of one sector, a root directory of one sector and `sectors` data
      sectors. */
  function SmallVolume(sectors: nat, secsPerClus: nat): (geo: Geometry) {
    Geometry(Fat12, 512, 1, 1, 2, 3, 1, 4, sectors, secsPerClus)
  }

  /** Eight data sectors, two to a cluster, and one file that has all the clusters, 2 to 5. Entries 6
      and 7 belong to no cluster. When they are zero the free search answers 6. */
  lemma FullVolumeExample()
    ensures var geo, fat := SmallVolume(8, 2), [0xFF8, 0xFFF, 3, 4, 5, 0xFFF, 0, 0, 0];
      && Chained(geo, fat, map[1 := 2], map[1 := [2, 3, 4, 5]])
      && LowestZero(geo, fat, 6) && !OnVolume(geo, 6) && FreeSet(geo, fat) == {} && Stray(geo, fat)
  {
    var geo, fat := SmallVolume(8, 2), [0xFF8, 0xFFF, 3, 4, 5, 0xFFF, 0, 0, 0];
    assert Clusters(geo) == 4;
    assert geo.CopyStart(2) == 3;
    assert fat[6] == 0;
  }

  /** Four data sectors, one to a cluster, and a file in clusters 2 and 3. Cluster 4 is free and its
      sector is inside the volume. The free search answers nothing. */
  lemma MissedExample()
    ensures var geo, fat := SmallVolume(4, 1), [0xFF8, 0xFFF, 3, 0xFFF, 0];
      && Chained(geo, fat, map[1 := 2], map[1 := [2, 3]])
      && LowestZero(geo, fat, 0) && IsCluster(geo, 4) && FreeSet(geo, fat) == {4}
  {
    var geo, fat := SmallVolume(4, 1), [0xFF8, 0xFFF, 3, 0xFFF, 0];
    RowAtMost(1, 4);
    assert geo.CopyStart(2) == 3;
    assert 4 in FreeSet(geo, fat);
  }

  /** The table after a free cluster was marked as the end and linked behind a chain. */
  function Linked(geo: Geometry, fat: seq<nat>, s: seq<nat>, c: nat): (r: seq<nat>)
    requires c < |fat| && (s != [] ==> s[|s| - 1] < |fat|)
  {
    var marked := Set(fat, c, geo.InvalidCluster());
    if s == [] then marked else Set(marked, s[|s| - 1], c)
  }

  /** Adding a free cluster to one file keeps every chain and takes one cluster from the free ones. */
  lemma AddKeepsChains(geo: Geometry, fat: seq<nat>, start: map<nat, nat>, chains: map<nat, seq<nat>>, f: nat, c: nat)
    requires Chained(geo, fat, start, chains) && f in start && IsCluster(geo, c) && fat[c] == 0
    ensures var s := chains[f];
      && (s != [] ==> s[|s| - 1] < |fat|)
      && Chained(geo, Linked(geo, fat, s, c), start[f := if s == [] then c else start[f]], chains[f := s + [c]])
      && FreeSet(geo, Linked(geo, fat, s, c)) == FreeSet(geo, fat) - {c}
      && Findable(geo, Linked(geo, fat, s, c)) == Findable(geo, fat) - {c}
      && (Stray(geo, Linked(geo, fat, s, c)) <==> Stray(geo, fat))
  {
    hide Row, FreeSet, Findable, Stray;
    var s := chains[f];
    FreeIsUnchained(geo, fat, start, chains, c);
    if s != [] {
      assert IsCluster(geo, s[|s| - 1]);
      AppendChain(geo, fat, s, c);
    }
    forall g | g in start && g != f && start[g] != 0 ensures IsChain(geo, Linked(geo, fat, s, c), chains[g]) {
      OtherChain(geo, fat, Linked(geo, fat, s, c), chains[g]);
    }
    AddTakesOne(geo, fat, s, c);
  }

  lemma AddTakesOne(geo: Geometry, fat: seq<nat>, s: seq<nat>, c: nat)
    requires Mounted(geo) && IsCluster(geo, c) && c < |fat| && fat[c] == 0 && (s == [] || IsChain(geo, fat, s))
    ensures s != [] ==> s[|s| - 1] < |fat|
    ensures FreeSet(geo, Linked(geo, fat, s, c)) == FreeSet(geo, fat) - {c}
    ensures Findable(geo, Linked(geo, fat, s, c)) == Findable(geo, fat) - {c}
    ensures Stray(geo, Linked(geo, fat, s, c)) <==> Stray(geo, fat)
  {
    hide Row, Stray;
    if s != [] {
      assert IsCluster(geo, s[|s| - 1]);
      ChainNotFree(geo, fat, s);
    }
    StrayKept(geo, fat, Linked(geo, fat, s, c));
  }

  lemma StrayKept(geo: Geometry, fat: seq<nat>, fat': seq<nat>)
    requires 0 < geo.secsPerClus && |fat'| == |fat|
    requires forall e :: Clusters(geo) + 2 <= e < |fat| ==> fat'[e] == fat[e]
    ensures Stray(geo, fat') <==> Stray(geo, fat)
  {
  }

  /** The table with every entry of `s` cleared. */
  ghost function Cleared(fat: seq<nat>, s: seq<nat>): (r: seq<nat>)
    requires forall i :: 0 <= i < |s| ==> s[i] < |fat|
    ensures |r| == |fat|
    ensures forall c: nat :: c < |fat| ==> r[c] == if c in s then 0 else fat[c]
  {
    if s == [] then fat else Set(Cleared(fat, s[..|s| - 1]), s[|s| - 1], 0)
  }

  /** Clearing the chain of one file keeps every other chain. */
  lemma RemoveKeepsChains(geo: Geometry, fat: seq<nat>, start: map<nat, nat>, chains: map<nat, seq<nat>>, f: nat)
    requires Chained(geo, fat, start, chains) && f in start && start[f] != 0
    ensures Chained(geo, Cleared(fat, chains[f]), start[f := 0], chains[f := []])
  {
    var fat' := Cleared(fat, chains[f]);
    forall g | g in start && g != f && start[g] != 0 ensures IsChain(geo, fat', chains[g]) {
      OtherChain(geo, fat, fat', chains[g]);
    }
    assert forall i :: 0 <= i < |chains[f]| ==> IsCluster(geo, chains[f][i]);
  }

  /** Clearing a chain frees as many clusters as it has. */
  lemma RemoveFrees(geo: Geometry, fat: seq<nat>, s: seq<nat>)
    requires Mounted(geo) && IsChain(geo, fat, s)
    ensures forall k :: 0 <= k < |s| ==> s[k] < |fat|
    ensures FreeSet(geo, Cleared(fat, s)) == FreeSet(geo, fat) + Members(s)
    ensures |FreeSet(geo, Cleared(fat, s))| == |FreeSet(geo, fat)| + |s|
  {
    assert forall i :: 0 <= i < |s| ==> IsCluster(geo, s[i]);
    ChainNotFree(geo, fat, s);
    MembersOfDistinct(s);
    assert FreeSet(geo, fat) !! Members(s);
  }

  lemma RemoveSound(geo: Geometry, fat: seq<nat>, start: map<nat, nat>, chains: map<nat, seq<nat>>, f: nat)
    requires Chained(geo, fat, start, chains) && f in start && start[f] != 0
    ensures Mounted(geo) && f in chains && IsChain(geo, fat, chains[f])
    ensures 0 < |chains[f]| && start[f] == chains[f][0] && forall k :: 0 <= k < |chains[f]| ==> chains[f][k] < |fat|
    ensures Chained(geo, Cleared(fat, chains[f]), start[f := 0], chains[f := []])
    ensures |FreeSet(geo, Cleared(fat, chains[f]))| > |FreeSet(geo, fat)|
  {
    RemoveKeepsChains(geo, fat, start, chains, f);
    RemoveFrees(geo, fat, chains[f]);
  }

  /** Walking a chain: the entry read is an end mark exactly at the last cluster. */
  lemma LinkedStep(geo: Geometry, fat: seq<nat>, s: seq<nat>, i: nat)
    requires Mounted(geo) && IsLinked(geo, fat, s) && i < |s|
    ensures s[i] > geo.totalDataSectors <==> s[i] == geo.totalDataSectors + 1
    ensures s[i] < |fat| ==> (fat[s[i]] >= geo.InvalidCluster() <==> i == |s| - 1)
    ensures s[i] < |fat| && i < |s| - 1 ==> fat[s[i]] == s[i + 1]
  {
    assert OnVolume(geo, s[i]);
    NoEntryIff(geo, s[i]);
    if i < |s| - 1 { assert OnVolume(geo, s[i + 1]); }
  }

  /** Walking and clearing a chain: the entry read next is still the original one, and it is an
      end mark exactly at the last cluster. */
  lemma ClearedStep(geo: Geometry, fat: seq<nat>, s: seq<nat>, i: nat)
    requires Mounted(geo) && IsChain(geo, fat, s) && i < |s|
    ensures IsCluster(geo, s[i]) && forall k :: 0 <= k < |s| ==> s[k] < |fat|
    ensures Cleared(fat, s[..i])[s[i]] == fat[s[i]]
    ensures Cleared(fat, s[..i + 1]) == Set(Cleared(fat, s[..i]), s[i], 0)
    ensures fat[s[i]] >= geo.InvalidCluster() <==> i == |s| - 1
    ensures i < |s| - 1 ==> fat[s[i]] == s[i + 1]
  {
    hide Row, Cleared;
    ChainIffEntries(geo, fat, s);
    LinkedStep(geo, fat, s, i);
    assert forall k :: 0 <= k < |s| ==> IsCluster(geo, s[k]);
    assert s[i] !in s[..i];
    ClearedNext(fat, s, i);
  }

  lemma ClearedNext(fat: seq<nat>, s: seq<nat>, i: nat)
    requires i < |s| && forall k :: 0 <= k < |s| ==> s[k] < |fat|
    ensures Cleared(fat, s[..i + 1]) == Set(Cleared(fat, s[..i]), s[i], 0)
  {
    assert s[..i + 1][..i] == s[..i];
  }

  /** The root directory of FAT12 and FAT16 has a place of its own and no clusters. */
  predicate IsFixedRoot(geo: Geometry, f: nat) {
    f == 0 && !geo.fatType.Fat32?
  }

  /** FatToSector for a cluster of the data area: (cluster - 2) * secsPerClus + firstDataSector. */
  function ToSector(geo: Geometry, c: nat): (j: nat)
    requires 2 <= c
  {
    geo.firstDataSector + At(geo.secsPerClus, c - 2, 0)
  }

  /** Clusters and their sectors by the kernel's arithmetic. */
  lemma ClustersByArithmetic(geo: Geometry, c: nat)
    requires 0 < geo.secsPerClus && 2 <= c
    ensures Clusters(geo) == geo.totalDataSectors / geo.secsPerClus
    ensures ToSector(geo, c) == (c - 2) * geo.secsPerClus + geo.firstDataSector
  {
    GridIsDivMod(geo.secsPerClus, geo.totalDataSectors);
    AtIsMul(geo.secsPerClus, c - 2, 0);
  }

  /** Is sector `j` one of the sectors of cluster `c`? */
  predicate InCluster(geo: Geometry, c: nat, j: nat)
    requires 0 < geo.secsPerClus
  {
    2 <= c && geo.firstDataSector <= j && Row(geo.secsPerClus, j - geo.firstDataSector) == c - 2
  }

  /** A cluster is the run of secsPerClus sectors from ToSector on, inside the device. */
  lemma ClusterSectors(geo: Geometry, c: nat, i: nat)
    requires 0 < geo.secsPerClus && OnVolume(geo, c) && i < geo.secsPerClus
    ensures InCluster(geo, c, ToSector(geo, c) + i)
    ensures Col(geo.secsPerClus, ToSector(geo, c) + i - geo.firstDataSector) == i
    ensures ToSector(geo, c) + geo.secsPerClus <= geo.firstDataSector + geo.totalDataSectors
  {
    var n := geo.secsPerClus;
    AtAdd(n, c - 2, 0, i);
    RowColAt(n, c - 2, i);
    AtRowCol(n, geo.totalDataSectors);
    AtAdd(n, Clusters(geo), 0, Col(n, geo.totalDataSectors));
    AtMono(n, c - 2, Clusters(geo), 0);
  }

  function ZeroSector(n: nat): (z: Sector) {
    seq<byte>(n, _ => 0)
  }

  /** The device with the sectors of one cluster zeroed. */
  function ClusterZeroed(geo: Geometry, disk: Disk, c: nat): (r: Disk)
    requires 0 < geo.secsPerClus && geo.Fits(disk)
    ensures geo.Fits(r) && |r| == |disk|
  {
    seq(|disk|, j requires 0 <= j < |disk| => if InCluster(geo, c, j) then ZeroSector(geo.bytesPerSec) else disk[j])
  }

  lemma EntryFrame(geo: Geometry, disk: Disk, disk': Disk, c: nat)
    requires geo.Valid() && geo.Fits(disk) && geo.Fits(disk') && c <= geo.totalDataSectors
    requires forall j :: 0 <= j < geo.firstDataSector ==> disk'[j] == disk[j]
    ensures Entry(geo, disk', c) == Entry(geo, disk, c)
  {
    forall i | 0 <= i < geo.Width() ensures EntryBytes(geo, disk', c)[i] == EntryBytes(geo, disk, c)[i] {
      EntryInTable(geo, c, i);
      FirstCopy(geo, Row(geo.bytesPerSec, geo.First(c) + i));
    }
    assert EntryBytes(geo, disk', c) == EntryBytes(geo, disk, c);
  }

  /** The table only depends on the sectors before the data area. */
  lemma FatFrame(geo: Geometry, disk: Disk, disk': Disk)
    requires geo.Valid() && geo.Fits(disk) && geo.Fits(disk')
    requires forall j :: 0 <= j < geo.firstDataSector ==> disk'[j] == disk[j]
    ensures Fat(geo, disk') == Fat(geo, disk)
  {
    forall c | 0 <= c <= geo.totalDataSectors ensures Fat(geo, disk')[c] == Fat(geo, disk)[c] {
      EntriesAt(geo, disk, geo.totalDataSectors + 1, c);
      EntriesAt(geo, disk', geo.totalDataSectors + 1, c);
      EntryFrame(geo, disk, disk', c);
    }
  }

  /** What happened outside the tables: one cluster was zeroed, nothing else changed. */
  ghost predicate OnlyZeroed(geo: Geometry, disk: Disk, disk': Disk, c: nat)
    requires geo.Valid() && 0 < geo.secsPerClus
  {
    && |disk'| == |disk|
    && forall j :: 0 <= j < |disk| && !geo.InTables(j) ==>
         disk'[j] == if InCluster(geo, c, j) then ZeroSector(geo.bytesPerSec) else disk[j]
  }

  /** Every byte of a cluster that was just added reads as zero. */
  lemma NewClusterIsZero(geo: Geometry, disk: Disk, disk': Disk, c: nat, j: nat, b: nat)
    requires geo.Valid() && 0 < geo.secsPerClus && OnlyZeroed(geo, disk, disk', c)
    requires j < |disk| && InCluster(geo, c, j) && b < geo.bytesPerSec
    ensures |disk'[j]| == geo.bytesPerSec && disk'[j][b] == 0
  {
    DataNotInTables(geo, j);
  }

  lemma DataNotInTables(geo: Geometry, j: nat)
    requires geo.Valid() && geo.firstDataSector <= j
    ensures !geo.InTables(j)
  {
    if geo.InTables(j) {
      CopySector(geo, geo.CopyOf(j), geo.TableSector(j), j);
    }
  }

  lemma StoredKeepsData(geo: Geometry, disk: Disk, c: nat, v: nat)
    requires geo.Valid() && geo.Fits(disk) && c <= geo.totalDataSectors && v < geo.Radix()
    ensures Mirrored(geo, disk) ==> Mirrored(geo, Stored(geo, disk, c, v))
    ensures forall j :: 0 <= j < |disk| && !geo.InTables(j) ==> Stored(geo, disk, c, v)[j] == disk[j]
  {
    WrittenFrame(geo, disk, geo.First(c), geo.fatType.Encode(c, EntryBytes(geo, disk, c), v));
  }

  /** Zeroing a data cluster leaves the tables alone. */
  lemma ZeroedKeepsTables(geo: Geometry, disk: Disk, c: nat)
    requires Mounted(geo) && geo.Fits(disk)
    ensures Fat(geo, ClusterZeroed(geo, disk, c)) == Fat(geo, disk)
    ensures Mirrored(geo, disk) ==> Mirrored(geo, ClusterZeroed(geo, disk, c))
  {
    var r := ClusterZeroed(geo, disk, c);
    FatFrame(geo, disk, r);
    if Mirrored(geo, disk) {
      forall j | 0 <= j < |r| && geo.InTables(j)
        ensures geo.fatStart + geo.TableSector(j) < |r| && r[j] == r[geo.fatStart + geo.TableSector(j)]
      {
        CopySector(geo, geo.CopyOf(j), geo.TableSector(j), j);
        FirstCopy(geo, geo.TableSector(j));
      }
    }
  }

  /** A mounted volume with its files: start clusters and sizes as the vNodes hold them. */
  class FatVolume {
    const dev: FatDevice
    var start: map<nat, nat>
    var size: map<nat, nat>
    var freeClusters: int
    ghost var chains: map<nat, seq<nat>>

    ghost function Table(): (fat: seq<nat>)
      reads this, dev
      requires dev.Valid()
    {
      Fat(dev.geo, dev.disk)
    }

    ghost predicate Valid()
      reads this, dev
    {
      dev.Valid() && Mirrored(dev.geo, dev.disk) && Chained(dev.geo, Table(), start, chains)
    }

    constructor (dev: FatDevice, start: map<nat, nat>, size: map<nat, nat>, freeClusters: int,
                 ghost chains: map<nat, seq<nat>>)
      requires dev.Valid() && Mirrored(dev.geo, dev.disk) && Chained(dev.geo, Fat(dev.geo, dev.disk), start, chains)
      ensures Valid() && this.dev == dev && this.start == start && this.size == size && this.chains == chains
      ensures this.freeClusters == freeClusters
    {
      this.dev, this.start, this.size, this.freeClusters, this.chains := dev, start, size, freeClusters, chains;
    }

    /** FAT32 keeps a count of free clusters in its FsInfo sector, unless it is the invalid mark. */
    predicate CountsFree()
      reads this
    {
      dev.geo.fatType.Fat32? && freeClusters != -1
    }

    /** FatAccess with -1, as a read of the plain table. */
    method GetEntry(c: nat) returns (v: nat)
      requires dev.Valid() && c <= dev.geo.totalDataSectors
      modifies dev
      ensures dev.disk == old(dev.disk) && v == Table()[c]
    {
      FatAt(dev.geo, dev.disk, c);
      var retVal, _ := dev.FatAccess(c, -1);
      v := retVal;
    }

    /** FatAccess with a value, as an update of the plain table. */
    method SetEntry(c: nat, v: nat) returns (was: nat)
      requires dev.Valid() && Mirrored(dev.geo, dev.disk)
      requires c <= dev.geo.totalDataSectors && v < dev.geo.Radix()
      modifies dev
      ensures dev.Valid() && Mirrored(dev.geo, dev.disk) && |dev.disk| == |old(dev.disk)|
      ensures was == old(Table())[c] && Table() == Set(old(Table()), c, v)
      ensures forall j :: 0 <= j < |dev.disk| && !dev.geo.InTables(j) ==> dev.disk[j] == old(dev.disk)[j]
    {
      StoredFat(dev.geo, dev.disk, c, v);
      StoredKeepsData(dev.geo, dev.disk, c, v);
      FatAt(dev.geo, dev.disk, c);
      var retVal, _ := dev.FatAccess(c, v);
      was := retVal;
    }

    /** The walk to the end of any chain of clusters of the device. It ends because the chain is finite,
        and it ends in the panic of FatAccess if and only if the chain holds the one cluster that has no
        entry. */
    method WalkToEnd(first: nat, ghost s: seq<nat>) returns (last: nat, panicked: bool)
      requires dev.Valid() && Mounted(dev.geo) && IsLinked(dev.geo, Table(), s) && first == s[0]
      modifies dev
      ensures dev.Valid() && dev.disk == old(dev.disk)
      ensures panicked <==> dev.geo.totalDataSectors + 1 in s
      ensures !panicked ==> last == s[|s| - 1]
    {
      hide Row, Col, At, Fat, Entry, IsLinked, Mounted;
      ghost var i := 0;
      LinkedSome(dev.geo, Table(), s);
      last := first;
      while true
        invariant dev.Valid() && dev.disk == old(dev.disk) && 0 <= i < |s| && last == s[i]
        invariant forall k :: 0 <= k < i ==> s[k] <= dev.geo.totalDataSectors
        decreases |s| - i
      {
        LinkedStep(dev.geo, Table(), s, i);
        if last <= dev.geo.totalDataSectors { FatAt(dev.geo, dev.disk, last); }
        var val;
        val, panicked := dev.FatAccess(last, -1);
        if panicked {
          return;
        }
        if val >= dev.geo.InvalidCluster() {
          break;
        }
        last := val;
        i := i + 1;
      }
    }

    /** The walk of FatAddCluster to the end of a file's chain. */
    method LastCluster(f: nat) returns (last: nat)
      requires Valid() && f in start && start[f] != 0
      modifies dev
      ensures dev.disk == old(dev.disk)
      ensures last == chains[f][|chains[f]| - 1]
    {
      ChainIffEntries(dev.geo, Table(), chains[f]);
      var end, _ := WalkToEnd(start[f], chains[f]);
      last := end;
    }

    /** The search for a free entry. */
    method FindFree() returns (c: nat)
      requires dev.Valid()
      modifies dev
      ensures dev.disk == old(dev.disk)
      ensures LowestZero(dev.geo, Table(), c)
    {
      ghost var fat := Table();
      var i := 2;
      while i < dev.geo.totalDataSectors
        invariant 2 <= i && dev.disk == old(dev.disk)
        invariant forall k :: 2 <= k < i && k < dev.geo.totalDataSectors ==> fat[k] != 0
      {
        var v := GetEntry(i);
        if v == 0 {
          return i;
        }
        i := i + 1;
      }
      c := 0;
    }

    method ZeroCluster(c: nat)
      requires dev.Valid() && Mounted(dev.geo) && IsCluster(dev.geo, c)
      modifies dev
      ensures dev.Valid() && dev.disk == ClusterZeroed(dev.geo, old(dev.disk), c)
    {
      hide Row, Col, At;
      var geo := dev.geo;
      ghost var before := dev.disk;
      var i := 0;
      while i < geo.secsPerClus
        invariant 0 <= i <= geo.secsPerClus
        invariant dev.Valid() && |dev.disk| == |before|
        invariant forall j :: 0 <= j < |before| ==>
          dev.disk[j] == if InCluster(geo, c, j) && Col(geo.secsPerClus, j - geo.firstDataSector) < i
                         then ZeroSector(geo.bytesPerSec) else before[j]
      {
        ClusterSectors(geo, c, i);
        ghost var was := dev.disk;
        dev.disk := dev.disk[ToSector(geo, c) + i := ZeroSector(geo.bytesPerSec)];
        forall j | 0 <= j < |before| && InCluster(geo, c, j) && Col(geo.secsPerClus, j - geo.firstDataSector) == i
          ensures j == ToSector(geo, c) + i
        {
          AtRowCol(geo.secsPerClus, j - geo.firstDataSector);
          AtAdd(geo.secsPerClus, c - 2, 0, i);
        }
        i := i + 1;
      }
      assert dev.disk == ClusterZeroed(geo, before, c);
    }

    /** The last part of FatAddCluster: zero the cluster, mark it as the end, link it. */
    method LinkCluster(f: nat, last: nat, c: nat)
      requires Valid() && f in start && IsCluster(dev.geo, c) && Table()[c] == 0
      requires start[f] != 0 ==> last == chains[f][|chains[f]| - 1]
      modifies this`start, this`chains, dev
      ensures Valid() && |dev.disk| == |old(dev.disk)|
      ensures chains == old(chains)[f := old(chains)[f] + [c]]
      ensures OnlyZeroed(dev.geo, old(dev.disk), dev.disk, c)
      ensures forall i :: 0 <= i < |Table()| && i !in chains[f] ==> Table()[i] == old(Table())[i]
      ensures FreeSet(dev.geo, Table()) == FreeSet(dev.geo, old(Table())) - {c}
      ensures Findable(dev.geo, Table()) == Findable(dev.geo, old(Table())) - {c}
      ensures Stray(dev.geo, Table()) <==> Stray(dev.geo, old(Table()))
    {
      hide Row, Col, At, Mirrored, Fat, FreeSet, Findable, Stray;
      var geo := dev.geo;
      AddKeepsChains(geo, Table(), start, chains, f, c);
      ClusterFitsEntry(geo, c);
      ZeroedKeepsTables(geo, dev.disk, c);
      ZeroCluster(c);
      var _ := SetEntry(c, geo.InvalidCluster());
      if start[f] == 0 {
        start := start[f := c];
      } else {
        assert IsCluster(geo, chains[f][|chains[f]| - 1]);
        assert start == start[f := start[f]];
        var _ := SetEntry(last, c);
      }
      chains := chains[f := chains[f] + [c]];
    }

    /** FatAddCluster: append the lowest findable cluster, zeroed, to the chain of `f`. The fixed root
        directory gets -ENOSPC. Otherwise there are three outcomes: a cluster was added if and only
        if one is findable; -ENOSPC if and only if no entry below the sector count is zero; and
        `outside`, when only entries past the last cluster look free. The code goes on with such a
        number and touches sectors behind the volume, so `outside` stops the model before anything is
        changed. A file gets -ENOSPC in spite of a free cluster if and only if the last entry is the
        only free one and belongs to a cluster. */
    method AddCluster(f: nat) returns (err: int, c: nat, outside: bool)
      requires Valid() && f in start
      modifies this`start, this`freeClusters, this`chains, dev
      ensures Valid() && |dev.disk| == |old(dev.disk)|
      ensures err == 0 && !outside <==> !IsFixedRoot(dev.geo, f) && Findable(dev.geo, old(Table())) != {}
      ensures outside <==>
                !IsFixedRoot(dev.geo, f) && Findable(dev.geo, old(Table())) == {} && Stray(dev.geo, old(Table()))
      ensures err == 0 || err == -ENOSPC
      ensures !IsFixedRoot(dev.geo, f) ==>
                ((err != 0 || outside) && FreeSet(dev.geo, old(Table())) != {} <==>
                   FreeSet(dev.geo, old(Table())) == {dev.geo.totalDataSectors})
      ensures err != 0 || outside ==>
                && dev.disk == old(dev.disk) && start == old(start) && chains == old(chains)
                && freeClusters == old(freeClusters)
      ensures outside ==>
                && err == 0 && 2 <= c < dev.geo.totalDataSectors && Table()[c] == 0
                && dev.geo.firstDataSector + dev.geo.totalDataSectors < ToSector(dev.geo, c) + dev.geo.secsPerClus
      ensures err == 0 && !outside ==>
                && IsCluster(dev.geo, c) && c in Findable(dev.geo, old(Table()))
                && (forall i :: i in Findable(dev.geo, old(Table())) ==> c <= i)
                && FreeSet(dev.geo, Table()) == FreeSet(dev.geo, old(Table())) - {c}
                && Findable(dev.geo, Table()) == Findable(dev.geo, old(Table())) - {c}
                && (Stray(dev.geo, Table()) <==> Stray(dev.geo, old(Table())))
                && chains == old(chains)[f := old(chains)[f] + [c]]
                && OnlyZeroed(dev.geo, old(dev.disk), dev.disk, c)
                && (forall i :: 0 <= i < |Table()| && i !in chains[f] ==> Table()[i] == old(Table())[i])
                && freeClusters == old(freeClusters) - (if old(CountsFree()) then 1 else 0)
    {
      hide Row, Col, At, Mirrored, Fat, FreeSet, Findable, Stray;
      if !dev.geo.fatType.Fat32? && f == 0 {
        return -ENOSPC, 0, false;
      }
      var last := 0;
      if start[f] != 0 {
        last := LastCluster(f);
      }
      c := FindFree();
      SearchOutcome(dev.geo, Table(), c);
      MissedIff(dev.geo, Table(), c);
      if c == 0 {
        return -ENOSPC, 0, false;
      }
      if !IsCluster(dev.geo, c) {
        OutsideVolume(dev.geo, c);
        return 0, c, true;
      }
      LinkCluster(f, last, c);
      if CountsFree() {
        freeClusters := freeClusters - 1;
      }
      err, outside := 0, false;
    }

    /** The walk of FatRemoveClusters: clear one entry after the other until the end mark. */
    method ClearChain(first: nat, ghost s: seq<nat>)
      requires dev.Valid() && Mirrored(dev.geo, dev.disk) && Mounted(dev.geo)
      requires IsChain(dev.geo, Table(), s) && first == s[0]
      modifies dev
      ensures dev.Valid() && Mirrored(dev.geo, dev.disk) && |dev.disk| == |old(dev.disk)|
      ensures forall k :: 0 <= k < |s| ==> s[k] < |old(Table())|
      ensures Table() == Cleared(old(Table()), s)
      ensures forall j :: 0 <= j < |dev.disk| && !dev.geo.InTables(j) ==> dev.disk[j] == old(dev.disk)[j]
    {
      hide Row, Col, At, Mirrored, Fat, Cleared;
      ghost var fat, i := Table(), 0;
      var cluster := first;
      ClearedStep(dev.geo, fat, s, 0);
      while true
        invariant 0 <= i < |s| && cluster == s[i]
        invariant dev.Valid() && Mirrored(dev.geo, dev.disk) && |dev.disk| == |old(dev.disk)|
        invariant Table() == Cleared(fat, s[..i])
        invariant forall j :: 0 <= j < |dev.disk| && !dev.geo.InTables(j) ==> dev.disk[j] == old(dev.disk)[j]
        decreases |s| - i
      {
        ClearedStep(dev.geo, fat, s, i);
        cluster := SetEntry(cluster, 0);
        i := i + 1;
        if cluster >= dev.geo.InvalidCluster() {
          break;
        }
      }
      assert s[..i] == s;
    }

    /** FatRemoveClusters with number 0: free exactly the clusters of the chain of `f`. The FAT32 count
        is not raised, so it stays right if and only if the file had no cluster. */
    method RemoveClusters(f: nat) returns (err: int)
      requires Valid() && f in start
      modifies this`start, this`chains, dev
      ensures Valid() && |dev.disk| == |old(dev.disk)|
      ensures err == if !dev.geo.fatType.Fat32? && f == 0 then -EPERM else 0
      ensures err != 0 ==> dev.disk == old(dev.disk) && start == old(start) && chains == old(chains)
      ensures err == 0 ==>
                && start == old(start)[f := 0] && chains == old(chains)[f := []]
                && (forall k :: 0 <= k < |old(chains)[f]| ==> old(chains)[f][k] < |old(Table())|)
                && Table() == Cleared(old(Table()), old(chains)[f])
      ensures forall j :: 0 <= j < |dev.disk| && !dev.geo.InTables(j) ==> dev.disk[j] == old(dev.disk)[j]
      ensures err == 0 && freeClusters == |FreeSet(dev.geo, old(Table()))| ==>
                (freeClusters == |FreeSet(dev.geo, Table())| <==> old(start)[f] == 0)
    {
      hide Row, Col, At, Mirrored, Fat, Cleared, FreeSet, IsChain;
      if !dev.geo.fatType.Fat32? && f == 0 {
        return -EPERM;
      }
      if start[f] == 0 {
        assert start == start[f := 0] && chains == chains[f := []];
        return 0;
      }
      RemoveChain(f);
      err := 0;
    }

    method RemoveChain(f: nat)
      requires Valid() && f in start && start[f] != 0
      modifies this`start, this`chains, dev
      ensures Valid() && |dev.disk| == |old(dev.disk)|
      ensures start == old(start)[f := 0] && chains == old(chains)[f := []]
      ensures forall k :: 0 <= k < |old(chains)[f]| ==> old(chains)[f][k] < |old(Table())|
      ensures Table() == Cleared(old(Table()), old(chains)[f])
      ensures forall j :: 0 <= j < |dev.disk| && !dev.geo.InTables(j) ==> dev.disk[j] == old(dev.disk)[j]
      ensures |FreeSet(dev.geo, Table())| > |FreeSet(dev.geo, old(Table()))|
    {
      hide Row, Col, At, Mirrored, Fat, Cleared, FreeSet, Chained, IsChain;
      RemoveSound(dev.geo, Table(), start, chains, f);
      ClearChain(start[f], chains[f]);
      start, chains := start[f := 0], chains[f := []];
    }
  }
}
