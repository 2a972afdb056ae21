/**
 File contents (fs/vfs/file.c over fs/fat): the bytes of a file as a plain sequence, and the
 generic read and write as operations on that sequence.
 */
module FatContents {
  import opened Bytes
  import opened Grid
  import opened FatTable
  import opened FatChains
  import opened FatFiles
  import opened Errors
  import opened Sequences

  /** The chain has a cluster for every byte below `size`. */
  ghost predicate Covers(geo: Geometry, s: seq<nat>, size: nat)
    requires 0 < geo.secsPerClus && 0 < geo.bytesPerSec
  {
    && (forall x :: 0 <= x < |s| ==> IsCluster(geo, s[x]))
    && (forall x, y :: 0 <= x < y < |s| ==> s[x] != s[y])
    && (0 < size ==> Row(geo.secsPerClus, Row(geo.bytesPerSec, size - 1)) < |s|)
  }

  lemma CoversBelow(geo: Geometry, s: seq<nat>, size: nat, i: nat)
    requires 0 < geo.secsPerClus && 0 < geo.bytesPerSec && Covers(geo, s, size) && i < size
    ensures Row(geo.secsPerClus, Row(geo.bytesPerSec, i)) < |s|
  {
    RowMono(geo.bytesPerSec, i, size - 1);
    RowMono(geo.secsPerClus, Row(geo.bytesPerSec, i), Row(geo.bytesPerSec, size - 1));
  }

  /** The device sector that holds byte `i` of a file. */
  function Home(geo: Geometry, s: seq<nat>, i: nat): (j: nat)
    requires 0 < geo.secsPerClus && 0 < geo.bytesPerSec
    requires Row(geo.secsPerClus, Row(geo.bytesPerSec, i)) < |s|
    requires IsCluster(geo, s[Row(geo.secsPerClus, Row(geo.bytesPerSec, i))])
  {
    SectorAt(geo, s, Row(geo.bytesPerSec, i))
  }

  /** That sector is a sector of the byte's cluster and lies in the data area of the device. */
  lemma HomePlace(geo: Geometry, s: seq<nat>, i: nat)
    requires geo.Valid() && 0 < geo.secsPerClus
    requires Row(geo.secsPerClus, Row(geo.bytesPerSec, i)) < |s|
    requires IsCluster(geo, s[Row(geo.secsPerClus, Row(geo.bytesPerSec, i))])
    ensures var c := s[Row(geo.secsPerClus, Row(geo.bytesPerSec, i))];
      && InCluster(geo, c, Home(geo, s, i))
      && Col(geo.secsPerClus, Home(geo, s, i) - geo.firstDataSector) == Col(geo.secsPerClus, Row(geo.bytesPerSec, i))
      && Home(geo, s, i) < geo.firstDataSector + geo.totalDataSectors
    ensures !geo.InTables(Home(geo, s, i))
  {
    var k := Row(geo.bytesPerSec, i);
    ClusterSectors(geo, s[Row(geo.secsPerClus, k)], Col(geo.secsPerClus, k));
    DataNotInTables(geo, Home(geo, s, i));
  }

  /** Two bytes of one file share a sector only when they are in the same file sector. */
  lemma HomeInjective(geo: Geometry, s: seq<nat>, i: nat, i': nat)
    requires geo.Valid() && 0 < geo.secsPerClus
    requires forall x :: 0 <= x < |s| ==> IsCluster(geo, s[x])
    requires forall x, y :: 0 <= x < y < |s| ==> s[x] != s[y]
    requires Row(geo.secsPerClus, Row(geo.bytesPerSec, i)) < |s| && Row(geo.secsPerClus, Row(geo.bytesPerSec, i')) < |s|
    requires Home(geo, s, i) == Home(geo, s, i')
    ensures Row(geo.bytesPerSec, i) == Row(geo.bytesPerSec, i')
  {
    hide Row, Col, At;
    HomePlace(geo, s, i);
    HomePlace(geo, s, i');
    AtRowCol(geo.secsPerClus, Row(geo.bytesPerSec, i));
    AtRowCol(geo.secsPerClus, Row(geo.bytesPerSec, i'));
  }

  /** Two files without a common cluster share no sector. */
  lemma HomesDisjoint(geo: Geometry, s: seq<nat>, i: nat, t: seq<nat>, i': nat)
    requires geo.Valid() && 0 < geo.secsPerClus
    requires forall x :: 0 <= x < |s| ==> IsCluster(geo, s[x])
    requires forall x :: 0 <= x < |t| ==> IsCluster(geo, t[x])
    requires forall c :: c in s ==> c !in t
    requires Row(geo.secsPerClus, Row(geo.bytesPerSec, i)) < |s| && Row(geo.secsPerClus, Row(geo.bytesPerSec, i')) < |t|
    ensures Home(geo, s, i) != Home(geo, t, i')
  {
    hide Row, Col, At;
    HomePlace(geo, s, i);
    HomePlace(geo, t, i');
    assert s[Row(geo.secsPerClus, Row(geo.bytesPerSec, i))] in s;
    assert t[Row(geo.secsPerClus, Row(geo.bytesPerSec, i'))] in t;
  }

  function FileByte(geo: Geometry, disk: Disk, s: seq<nat>, i: nat): (b: byte)
    requires geo.Valid() && geo.Fits(disk) && 0 < geo.secsPerClus
    requires Row(geo.secsPerClus, Row(geo.bytesPerSec, i)) < |s|
    requires IsCluster(geo, s[Row(geo.secsPerClus, Row(geo.bytesPerSec, i))])
  {
    HomePlace(geo, s, i);
    disk[Home(geo, s, i)][Col(geo.bytesPerSec, i)]
  }

  /** The contents of a file: its first `size` bytes in order. */
  ghost function Contents(geo: Geometry, disk: Disk, s: seq<nat>, size: nat): (c: seq<byte>)
    requires geo.Valid() && geo.Fits(disk) && 0 < geo.secsPerClus && Covers(geo, s, size)
    ensures |c| == size
    decreases size
  {
    if size == 0 then []
    else
      CoversBelow(geo, s, size, size - 1);
      assert Covers(geo, s, size - 1) by { if size > 1 { CoversBelow(geo, s, size, size - 2); } }
      Contents(geo, disk, s, size - 1) + [FileByte(geo, disk, s, size - 1)]
  }

  lemma {:induction false} ContentsAt(geo: Geometry, disk: Disk, s: seq<nat>, size: nat, i: nat)
    requires geo.Valid() && geo.Fits(disk) && 0 < geo.secsPerClus && Covers(geo, s, size) && i < size
    ensures Row(geo.secsPerClus, Row(geo.bytesPerSec, i)) < |s|
    ensures Contents(geo, disk, s, size)[i] == FileByte(geo, disk, s, i)
    decreases size
  {
    CoversBelow(geo, s, size, i);
    if i < size - 1 {
      CoversBelow(geo, s, size, size - 2);
      ContentsAt(geo, disk, s, size - 1, i);
    }
  }

  /** Contents written at a position. */
  function Spliced(c: seq<byte>, p: nat, d: seq<byte>): (r: seq<byte>)
    requires p <= |c|
    ensures |r| == Max(|c|, p + |d|)
  {
    c[..p] + d + (if p + |d| < |c| then c[p + |d|..] else [])
  }

  /** The bytes of a file by the kernel's arithmetic: byte `i` is byte i % bytesPerSec of file sector
      k = i / bytesPerSec, which is sector k % secsPerClus of cluster number k / secsPerClus. */
  lemma ContentsByArithmetic(geo: Geometry, disk: Disk, s: seq<nat>, size: nat, i: nat)
    requires geo.Valid() && geo.Fits(disk) && 0 < geo.secsPerClus && Covers(geo, s, size) && i < size
    ensures var k: nat := i / geo.bytesPerSec;
      && 0 <= k / geo.secsPerClus < |s| && 2 <= s[k / geo.secsPerClus]
      && var j := (s[k / geo.secsPerClus] - 2) * geo.secsPerClus + geo.firstDataSector + k % geo.secsPerClus;
         0 <= j < |disk| && Contents(geo, disk, s, size)[i] == disk[j][i % geo.bytesPerSec]
  {
    hide Row, Col, At, Contents;
    GridIsDivMod(geo.bytesPerSec, i);
    ContentsAt(geo, disk, s, size, i);
    CoversBelow(geo, s, size, i);
    HomePlace(geo, s, i);
    assert forall x :: 0 <= x < |s| ==> IsCluster(geo, s[x]);
    SectorByArithmetic(geo, s, Row(geo.bytesPerSec, i));
    GridIsDivMod(geo.secsPerClus, Row(geo.bytesPerSec, i));
  }

  /** What was written reads back, and nothing before or after it changed. */
  lemma SplicedReadsBack(c: seq<byte>, p: nat, d: seq<byte>)
    requires p <= |c|
    ensures Spliced(c, p, d)[p..p + |d|] == d && Spliced(c, p, d)[..p] == c[..p]
    ensures p + |d| <= |c| ==> Spliced(c, p, d)[p + |d|..] == c[p + |d|..]
  {
  }

  /** Writing on where the last write stopped is one write. */
  lemma SplicedTwice(c: seq<byte>, p: nat, d: seq<byte>, e: seq<byte>)
    requires p <= |c|
    ensures Spliced(Spliced(c, p, d), p + |d|, e) == Spliced(c, p, d + e)
  {
  }

  /** Contents depend only on the sectors that hold them. */
  lemma ContentsFrame(geo: Geometry, disk: Disk, disk': Disk, s: seq<nat>, s': seq<nat>, size: nat)
    requires geo.Valid() && geo.Fits(disk) && geo.Fits(disk') && |disk| == |disk'| && 0 < geo.secsPerClus
    requires Covers(geo, s, size) && Covers(geo, s', size) && s <= s'
    requires forall i: nat ::
               i < size && Row(geo.secsPerClus, Row(geo.bytesPerSec, i)) < |s| && Home(geo, s, i) < |disk| ==>
               disk'[Home(geo, s, i)] == disk[Home(geo, s, i)]
    ensures Contents(geo, disk', s', size) == Contents(geo, disk, s, size)
  {
    hide Row, Col, At, Contents, FileByte, Home;
    forall i | 0 <= i < size ensures Contents(geo, disk', s', size)[i] == Contents(geo, disk, s, size)[i] {
      ContentsAt(geo, disk, s, size, i);
      ContentsAt(geo, disk', s', size, i);
      HomePlace(geo, s, i);
      assert disk'[Home(geo, s, i)] == disk[Home(geo, s, i)];
      FileByteFrame(geo, disk, disk', s, s', i);
    }
  }

  lemma FileByteFrame(geo: Geometry, disk: Disk, disk': Disk, s: seq<nat>, s': seq<nat>, i: nat)
    requires geo.Valid() && geo.Fits(disk) && geo.Fits(disk') && |disk| == |disk'| && 0 < geo.secsPerClus && s <= s'
    requires Row(geo.secsPerClus, Row(geo.bytesPerSec, i)) < |s|
    requires IsCluster(geo, s[Row(geo.secsPerClus, Row(geo.bytesPerSec, i))])
    requires Home(geo, s, i) < |disk| && disk'[Home(geo, s, i)] == disk[Home(geo, s, i)]
    ensures FileByte(geo, disk', s', i) == FileByte(geo, disk, s, i)
  {
    hide Row, Col, At;
  }

  /** The device after one chunk was copied into the sector that holds byte `p`. */
  function ChunkWritten(geo: Geometry, disk: Disk, s: seq<nat>, p: nat, e: seq<byte>): (r: Disk)
    requires geo.Valid() && geo.Fits(disk) && 0 < geo.secsPerClus
    requires Row(geo.secsPerClus, Row(geo.bytesPerSec, p)) < |s|
    requires IsCluster(geo, s[Row(geo.secsPerClus, Row(geo.bytesPerSec, p))])
    requires Col(geo.bytesPerSec, p) + |e| <= geo.bytesPerSec
    ensures geo.Fits(r) && |r| == |disk|
  {
    HomePlace(geo, s, p);
    disk[Home(geo, s, p) := Patch(disk[Home(geo, s, p)], Col(geo.bytesPerSec, p), e)]
  }

  lemma ChunkByte(geo: Geometry, disk: Disk, s: seq<nat>, p: nat, e: seq<byte>, i: nat)
    requires geo.Valid() && geo.Fits(disk) && 0 < geo.secsPerClus
    requires forall x :: 0 <= x < |s| ==> IsCluster(geo, s[x])
    requires forall x, y :: 0 <= x < y < |s| ==> s[x] != s[y]
    requires Row(geo.secsPerClus, Row(geo.bytesPerSec, p)) < |s| && Row(geo.secsPerClus, Row(geo.bytesPerSec, i)) < |s|
    requires Col(geo.bytesPerSec, p) + |e| <= geo.bytesPerSec
    ensures FileByte(geo, ChunkWritten(geo, disk, s, p, e), s, i)
         == if p <= i < p + |e| then e[i - p] else FileByte(geo, disk, s, i)
  {
    hide Row, Col, At;
    HomePlace(geo, s, p);
    HomePlace(geo, s, i);
    if p <= i < p + |e| {
      NextCell(geo.bytesPerSec, p, i - p);
    }
    if Home(geo, s, i) == Home(geo, s, p) {
      HomeInjective(geo, s, i, p);
      SameRow(geo.bytesPerSec, i, p);
      PatchAt(disk[Home(geo, s, p)], Col(geo.bytesPerSec, p), e, Col(geo.bytesPerSec, i));
    }
  }

  lemma PatchAt(data: Sector, o: nat, e: seq<byte>, x: nat)
    requires o + |e| <= |data| && x < |data|
    ensures Patch(data, o, e)[x] == if o <= x < o + |e| then e[x - o] else data[x]
  {
  }

  function Max(a: nat, b: nat): (m: nat) { if a < b then b else a }

  lemma CoversChunk(geo: Geometry, s: seq<nat>, size: nat, p: nat, n: nat)
    requires 0 < geo.secsPerClus && 0 < geo.bytesPerSec && Covers(geo, s, size) && p <= size
    requires Row(geo.secsPerClus, Row(geo.bytesPerSec, p)) < |s| && Col(geo.bytesPerSec, p) + n <= geo.bytesPerSec
    ensures Covers(geo, s, Max(size, p + n))
  {
    if 0 < n { NextCell(geo.bytesPerSec, p, n - 1); }
  }

  /** One copied chunk is a splice of the contents. */
  lemma ChunkContents(geo: Geometry, disk: Disk, s: seq<nat>, size: nat, p: nat, e: seq<byte>)
    requires geo.Valid() && geo.Fits(disk) && 0 < geo.secsPerClus && Covers(geo, s, size) && p <= size
    requires Row(geo.secsPerClus, Row(geo.bytesPerSec, p)) < |s| && Col(geo.bytesPerSec, p) + |e| <= geo.bytesPerSec
    ensures Covers(geo, s, Max(size, p + |e|))
    ensures Contents(geo, ChunkWritten(geo, disk, s, p, e), s, Max(size, p + |e|))
         == Spliced(Contents(geo, disk, s, size), p, e)
  {
    hide Row, Col, At, Contents, FileByte, ChunkWritten, Home;
    CoversChunk(geo, s, size, p, |e|);
    var size', r := Max(size, p + |e|), ChunkWritten(geo, disk, s, p, e);
    var before, after := Spliced(Contents(geo, disk, s, size), p, e), Contents(geo, r, s, size');
    assert |before| == |after|;
    forall i | 0 <= i < size' ensures after[i] == before[i] {
      ContentsAt(geo, r, s, size', i);
      ChunkByte(geo, disk, s, p, e, i);
      if i < size { ContentsAt(geo, disk, s, size, i); }
    }
  }

  /** Every file's chain covers its size, and no cluster has two owners. */
  ghost predicate FilesOk(geo: Geometry, chains: map<nat, seq<nat>>, size: map<nat, nat>) {
    && geo.Valid() && 0 < geo.secsPerClus && size.Keys == chains.Keys
    && (forall f :: f in size && !IsFixedRoot(geo, f) ==> Covers(geo, chains[f], size[f]))
    && (forall f, g, c :: f in chains && g in chains && f != g && c in chains[f] ==> c !in chains[g])
  }

  /** All files at once: which bytes each one holds. */
  ghost function View(geo: Geometry, disk: Disk, chains: map<nat, seq<nat>>, size: map<nat, nat>)
      : (v: map<nat, seq<byte>>)
    requires geo.Fits(disk) && FilesOk(geo, chains, size)
    ensures forall f :: f in v <==> f in size && !IsFixedRoot(geo, f)
    ensures forall f :: f in v ==> |v[f]| == size[f]
  {
    map f | f in size && !IsFixedRoot(geo, f) :: Contents(geo, disk, chains[f], size[f])
  }

  /** Zeroing the clusters a chain grew by misses every byte of every file. */
  lemma GrownMisses(geo: Geometry, s: seq<nat>, s': seq<nat>, t: seq<nat>, i: nat)
    requires geo.Valid() && 0 < geo.secsPerClus && s <= s'
    requires forall x :: 0 <= x < |t| ==> IsCluster(geo, t[x])
    requires Row(geo.secsPerClus, Row(geo.bytesPerSec, i)) < |t|
    requires t == s || forall c :: c in s' ==> c !in t
    requires forall x, y :: 0 <= x < y < |s'| ==> s'[x] != s'[y]
    ensures !InNew(geo, s, s', Home(geo, t, i))
  {
    HomePlace(geo, t, i);
    var x := Row(geo.secsPerClus, Row(geo.bytesPerSec, i));
    assert t[x] in t;
    forall y | |s| <= y < |s'| ensures s'[y] != t[x] {
      assert s'[y] in s';
    }
  }

  /** Growing a chain changes no file. */
  lemma GrownView(geo: Geometry, a: Snap, b: Snap, f: nat, n: nat, size: map<nat, nat>)
    requires geo.Fits(a.disk) && geo.Fits(b.disk)
    requires FilesOk(geo, a.chains, size) && FilesOk(geo, b.chains, size) && !IsFixedRoot(geo, f)
    requires Extended(geo, a, b, f, n)
    ensures View(geo, b.disk, b.chains, size) == View(geo, a.disk, a.chains, size)
  {
    hide Row, Col, At, Contents, Home;
    forall g | g in size && !IsFixedRoot(geo, g)
      ensures Contents(geo, b.disk, b.chains[g], size[g]) == Contents(geo, a.disk, a.chains[g], size[g])
    {
      GrownContents(geo, a, b, f, n, g, size[g]);
    }
  }

  /** Growing the chain of `f` leaves the bytes of every file `g`, `f` itself among them. */
  lemma GrownContents(geo: Geometry, a: Snap, b: Snap, f: nat, n: nat, g: nat, size: nat)
    requires geo.Valid() && 0 < geo.secsPerClus && geo.Fits(a.disk) && geo.Fits(b.disk) && Extended(geo, a, b, f, n)
    requires g in a.chains && g in b.chains && Covers(geo, a.chains[g], size) && Covers(geo, b.chains[g], size)
    requires g == f || forall c :: c in b.chains[f] ==> c !in a.chains[g]
    requires forall x, y :: 0 <= x < y < |b.chains[f]| ==> b.chains[f][x] != b.chains[f][y]
    ensures Contents(geo, b.disk, b.chains[g], size) == Contents(geo, a.disk, a.chains[g], size)
  {
    hide Row, Col, At, Contents, Home, InNew;
    var t := a.chains[g];
    forall i: nat | i < size && Row(geo.secsPerClus, Row(geo.bytesPerSec, i)) < |t| && Home(geo, t, i) < |a.disk|
      ensures b.disk[Home(geo, t, i)] == a.disk[Home(geo, t, i)]
    {
      HomePlace(geo, t, i);
      GrownMisses(geo, a.chains[f], b.chains[f], t, i);
    }
    ContentsFrame(geo, a.disk, b.disk, t, b.chains[g], size);
  }

  lemma ChunkMisses(geo: Geometry, disk: Disk, s: seq<nat>, p: nat, e: seq<byte>, t: seq<nat>, size: nat)
    requires geo.Valid() && geo.Fits(disk) && 0 < geo.secsPerClus && Covers(geo, t, size)
    requires forall x :: 0 <= x < |s| ==> IsCluster(geo, s[x])
    requires forall c :: c in s ==> c !in t
    requires Row(geo.secsPerClus, Row(geo.bytesPerSec, p)) < |s| && Col(geo.bytesPerSec, p) + |e| <= geo.bytesPerSec
    ensures Contents(geo, ChunkWritten(geo, disk, s, p, e), t, size) == Contents(geo, disk, t, size)
  {
    var r := ChunkWritten(geo, disk, s, p, e);
    HomePlace(geo, s, p);
    forall i: nat | i < size && Row(geo.secsPerClus, Row(geo.bytesPerSec, i)) < |t| && Home(geo, t, i) < |disk|
      ensures r[Home(geo, t, i)] == disk[Home(geo, t, i)]
    {
      HomesDisjoint(geo, s, p, t, i);
    }
    ContentsFrame(geo, disk, r, t, t, size);
  }

  lemma ChunkFilesOk(geo: Geometry, chains: map<nat, seq<nat>>, size: map<nat, nat>, f: nat, p: nat, n: nat)
    requires FilesOk(geo, chains, size) && f in size && !IsFixedRoot(geo, f) && p <= size[f]
    requires Row(geo.secsPerClus, Row(geo.bytesPerSec, p)) < |chains[f]|
    requires Col(geo.bytesPerSec, p) + n <= geo.bytesPerSec
    ensures FilesOk(geo, chains, size[f := Max(size[f], p + n)])
  {
    CoversChunk(geo, chains[f], size[f], p, n);
  }

  /** Copying one chunk is an update of one file in the map of all files. */
  lemma ChunkView(geo: Geometry, disk: Disk, chains: map<nat, seq<nat>>, size: map<nat, nat>, f: nat, p: nat,
                  e: seq<byte>, size': map<nat, nat>)
    requires geo.Fits(disk) && FilesOk(geo, chains, size) && f in size && !IsFixedRoot(geo, f) && p <= size[f]
    requires Row(geo.secsPerClus, Row(geo.bytesPerSec, p)) < |chains[f]|
    requires Col(geo.bytesPerSec, p) + |e| <= geo.bytesPerSec
    requires size' == size[f := Max(size[f], p + |e|)] && FilesOk(geo, chains, size')
    requires Covers(geo, chains[f], size[f])
    ensures View(geo, ChunkWritten(geo, disk, chains[f], p, e), chains, size')
         == View(geo, disk, chains, size)[f := Spliced(View(geo, disk, chains, size)[f], p, e)]
  {
    ChunkContents(geo, disk, chains[f], size[f], p, e);
    var r := ChunkWritten(geo, disk, chains[f], p, e);
    forall g | g in size && !IsFixedRoot(geo, g) && g != f
      ensures Contents(geo, r, chains[g], size[g]) == Contents(geo, disk, chains[g], size[g])
    {
      ChunkMisses(geo, disk, chains[f], p, e, chains[g], size[g]);
    }
    var v, v' := View(geo, disk, chains, size), View(geo, r, chains, size');
    assert v'.Keys == v.Keys;
    assert v'[f] == Spliced(v[f], p, e);
    OneKeyChanged(v, v', f);
  }

  lemma OneKeyChanged(v: map<nat, seq<byte>>, v': map<nat, seq<byte>>, f: nat)
    requires f in v && v'.Keys == v.Keys && forall g :: g in v && g != f ==> v'[g] == v[g]
    ensures v' == v[f := v'[f]]
  {
  }

  lemma GrownFilesOk(geo: Geometry, fat: seq<nat>, start: map<nat, nat>, chains: map<nat, seq<nat>>,
                     before: map<nat, seq<nat>>, f: nat, size: map<nat, nat>)
    requires Chained(geo, fat, start, chains) && FilesOk(geo, before, size)
    requires f in before && f in chains && before[f] <= chains[f] && chains == before[f := chains[f]]
    ensures FilesOk(geo, chains, size)
  {
    forall g | g in size && !IsFixedRoot(geo, g) ensures Covers(geo, chains[g], size[g]) {
      assert start[g] != 0 ==> IsChain(geo, fat, chains[g]);
    }
  }

  lemma ExtendedFiles(geo: Geometry, fat: seq<nat>, start: map<nat, nat>, a: Snap, b: Snap, f: nat, n: nat,
                      size: map<nat, nat>)
    requires Chained(geo, fat, start, b.chains) && FilesOk(geo, a.chains, size) && !IsFixedRoot(geo, f)
    requires geo.Fits(a.disk) && geo.Fits(b.disk) && Extended(geo, a, b, f, n)
    ensures FilesOk(geo, b.chains, size)
    ensures View(geo, b.disk, b.chains, size) == View(geo, a.disk, a.chains, size)
  {
    GrownFilesOk(geo, fat, start, b.chains, a.chains, f, size);
    GrownView(geo, a, b, f, n, size);
  }

  /** The number of clusters that the chain of `f` can have: those it has and all free ones. */
  ghost function Reach(vol: FatVolume, f: nat): (n: nat)
    reads vol, vol.dev
    requires vol.dev.Valid() && f in vol.chains && 0 < vol.dev.geo.secsPerClus
  {
    |vol.chains[f]| + |Findable(vol.dev.geo, vol.Table())|
  }

  /** On a full volume the free search leaves the device. */
  ghost predicate Strays(vol: FatVolume)
    reads vol, vol.dev
    requires vol.dev.Valid() && 0 < vol.dev.geo.secsPerClus
  {
    Stray(vol.dev.geo, vol.Table())
  }

  /** Position `p` lies in a cluster that the chain of `f` has or can get. */
  ghost predicate InReach(vol: FatVolume, f: nat, p: nat)
    reads vol, vol.dev
    requires vol.dev.Valid() && f in vol.chains && 0 < vol.dev.geo.secsPerClus
  {
    Row(vol.dev.geo.secsPerClus, Row(vol.dev.geo.bytesPerSec, p)) < Reach(vol, f)
  }

  /** A creating BlockMap for a file position that is not past the end. It answers exactly when the
      position is in reach, with the sector of that position. */
  method MapPosition(vol: FatVolume, f: nat, k: nat) returns (r: int, outside: bool, ghost n: nat)
    requires vol.Valid() && f in vol.start && !IsFixedRoot(vol.dev.geo, f)
    requires vol.chains[f] == [] ==> k == 0
    modifies vol`start, vol`freeClusters, vol`chains, vol.dev
    ensures vol.Valid() && f in vol.start && Extended(vol.dev.geo, old(Snapshot(vol)), Snapshot(vol), f, n)
    ensures Reach(vol, f) == old(Reach(vol, f)) && Strays(vol) == old(Strays(vol))
    ensures outside <==> Reach(vol, f) <= Row(vol.dev.geo.secsPerClus, k) && Strays(vol)
    ensures !outside ==> (r != -1 <==> Row(vol.dev.geo.secsPerClus, k) < Reach(vol, f))
    ensures !outside && r != -1 ==> MapsTo(vol.dev.geo, vol.chains[f], k, r)
  {
    hide Row, Col, At, Findable, Stray, Fat, Mirrored, Grown;
    assert Row(vol.dev.geo.secsPerClus, 0) == 0 by { RowOfZero(vol.dev.geo.secsPerClus); }
    ghost var a := Snapshot(vol);
    r, outside := BlockMap(vol, f, k, true);
    n := |vol.chains[f]| - |a.chains[f]|;
    if !outside && r != -1 && a.chains[f] == [] {
      FirstClusterAnswer(vol.dev.geo, vol.chains[f], 0);
    }
  }

  lemma RowOfZero(n: nat)
    requires 0 < n
    ensures Row(n, 0) == 0
  {
  }

  /** Copy a chunk into the buffer of the sector that holds position `p`. */
  method PatchSector(vol: FatVolume, f: nat, p: nat, r: nat, e: seq<byte>)
    requires vol.Valid() && f in vol.chains && Col(vol.dev.geo.bytesPerSec, p) + |e| <= vol.dev.geo.bytesPerSec
    requires MapsTo(vol.dev.geo, vol.chains[f], Row(vol.dev.geo.bytesPerSec, p), r)
    modifies vol.dev
    ensures vol.Valid()
    ensures IsCluster(vol.dev.geo, vol.chains[f][Row(vol.dev.geo.secsPerClus, Row(vol.dev.geo.bytesPerSec, p))])
    ensures vol.dev.disk == ChunkWritten(vol.dev.geo, old(vol.dev.disk), vol.chains[f], p, e)
    ensures vol.Table() == old(vol.Table())
  {
    var geo := vol.dev.geo;
    ghost var s := vol.chains[f];
    assert vol.start[f] != 0;
    assert IsCluster(geo, s[Row(geo.secsPerClus, Row(geo.bytesPerSec, p))]);
    HomePlace(geo, s, p);
    ChunkKeepsTables(geo, vol.dev.disk, s, p, e);
    vol.dev.disk := vol.dev.disk[r := Patch(vol.dev.disk[r], Col(geo.bytesPerSec, p), e)];
  }

  lemma ChunkKeepsTables(geo: Geometry, disk: Disk, s: seq<nat>, p: nat, e: seq<byte>)
    requires geo.Valid() && geo.Fits(disk) && 0 < geo.secsPerClus
    requires Row(geo.secsPerClus, Row(geo.bytesPerSec, p)) < |s|
    requires IsCluster(geo, s[Row(geo.secsPerClus, Row(geo.bytesPerSec, p))])
    requires Col(geo.bytesPerSec, p) + |e| <= geo.bytesPerSec
    ensures Fat(geo, ChunkWritten(geo, disk, s, p, e)) == Fat(geo, disk)
    ensures Mirrored(geo, disk) ==> Mirrored(geo, ChunkWritten(geo, disk, s, p, e))
  {
    var r := ChunkWritten(geo, disk, s, p, e);
    HomePlace(geo, s, p);
    FatFrame(geo, disk, r);
    if Mirrored(geo, disk) {
      forall j | 0 <= j < |r| && geo.InTables(j)
        ensures geo.fatStart + geo.TableSector(j) < |r| && r[j] == r[geo.fatStart + geo.TableSector(j)]
      {
        FirstCopy(geo, geo.TableSector(j));
      }
    }
  }

  function Min(a: nat, b: nat): (m: nat) { if a < b then a else b }

  lemma NeededIsReach(vol: FatVolume, f: nat, k: nat)
    requires vol.dev.Valid() && f in vol.chains && 0 < vol.dev.geo.secsPerClus
    ensures Needed(vol.dev.geo, vol.chains[f], k) <= |Snapshot(vol).free|
       <==> Row(vol.dev.geo.secsPerClus, k) < Reach(vol, f)
  {
    hide Row, Findable, Fat;
  }

  lemma StraysIsStray(vol: FatVolume)
    requires vol.dev.Valid() && 0 < vol.dev.geo.secsPerClus
    ensures Strays(vol) == Snapshot(vol).stray
  {
  }

  lemma RowRowMono(geo: Geometry, p: nat, q: nat)
    requires 0 < geo.secsPerClus && 0 < geo.bytesPerSec && p <= q
    ensures Row(geo.secsPerClus, Row(geo.bytesPerSec, p)) <= Row(geo.secsPerClus, Row(geo.bytesPerSec, q))
  {
    RowMono(geo.bytesPerSec, p, q);
    RowMono(geo.secsPerClus, Row(geo.bytesPerSec, p), Row(geo.bytesPerSec, q));
  }

  /** What FileGenericWrite has done after it copied `n` bytes of `d` to position `p` of file `f`. */
  ghost predicate Wrote(before: map<nat, seq<byte>>, after: map<nat, seq<byte>>, f: nat, p: nat, d: seq<byte>, n: nat) {
    && f in before && p <= |before[f]| && n <= |d|
    && after == before[f := Spliced(before[f], p, d[0..n])]
  }

  lemma WroteNothing(v: map<nat, seq<byte>>, f: nat, p: nat, d: seq<byte>)
    requires f in v && p <= |v[f]|
    ensures Wrote(v, v, f, p, d, 0)
  {
    assert Spliced(v[f], p, d[0..0]) == v[f];
  }

  lemma WroteMore(v: map<nat, seq<byte>>, v': map<nat, seq<byte>>, v'': map<nat, seq<byte>>, f: nat, p: nat,
                  d: seq<byte>, n: nat, m: nat)
    requires Wrote(v, v', f, p, d, n) && n + m <= |d|
    requires p + n <= |v'[f]| && v'' == v'[f := Spliced(v'[f], p + n, d[n..n + m])]
    ensures Wrote(v, v'', f, p, d, n + m)
  {
    SplicedTwice(v[f], p, d[0..n], d[n..n + m]);
    JoinSlices(d, 0, n, n + m);
  }

  /** Bytes of one buffer are consecutive bytes of the file. */
  lemma ChunkOfContents(geo: Geometry, disk: Disk, s: seq<nat>, size: nat, p: nat, m: nat)
    requires geo.Valid() && geo.Fits(disk) && 0 < geo.secsPerClus && Covers(geo, s, size)
    requires 0 < m && p + m <= size && Col(geo.bytesPerSec, p) + m <= geo.bytesPerSec
    ensures Row(geo.secsPerClus, Row(geo.bytesPerSec, p)) < |s| && Home(geo, s, p) < |disk|
    ensures disk[Home(geo, s, p)][Col(geo.bytesPerSec, p)..Col(geo.bytesPerSec, p) + m]
         == Contents(geo, disk, s, size)[p..p + m]
  {
    hide Row, Col, At, Contents, Home;
    CoversBelow(geo, s, size, p);
    HomePlace(geo, s, p);
    var o := Col(geo.bytesPerSec, p);
    var chunk, part := disk[Home(geo, s, p)][o..o + m], Contents(geo, disk, s, size)[p..p + m];
    forall x | 0 <= x < m ensures chunk[x] == part[x] {
      ChunkCell(geo, disk, s, size, p, x);
    }
  }

  lemma ChunkCell(geo: Geometry, disk: Disk, s: seq<nat>, size: nat, p: nat, x: nat)
    requires geo.Valid() && geo.Fits(disk) && 0 < geo.secsPerClus && Covers(geo, s, size)
    requires p + x < size && Col(geo.bytesPerSec, p) + x < geo.bytesPerSec
    requires Row(geo.secsPerClus, Row(geo.bytesPerSec, p)) < |s| && Home(geo, s, p) < |disk|
    ensures disk[Home(geo, s, p)][Col(geo.bytesPerSec, p) + x] == Contents(geo, disk, s, size)[p + x]
  {
    hide Row, Col, At, Contents;
    ContentsAt(geo, disk, s, size, p + x);
    NextCell(geo.bytesPerSec, p, x);
  }

  /** An open file: its vNode and its position. */
  class File {
    const node: nat
    var position: nat

    constructor (node: nat)
      ensures this.node == node && position == 0
    {
      this.node, position := node, 0;
    }
  }

  /** A volume together with what its files hold: one byte sequence for each file. */
  class FileStore {
    const vol: FatVolume
    ghost var files: map<nat, seq<byte>>

    ghost predicate Valid()
      reads this, vol, vol.dev
    {
      && vol.Valid() && FilesOk(vol.dev.geo, vol.chains, vol.size)
      && files == View(vol.dev.geo, vol.dev.disk, vol.chains, vol.size)
    }

    constructor (vol: FatVolume)
      requires vol.Valid() && FilesOk(vol.dev.geo, vol.chains, vol.size)
      ensures Valid() && this.vol == vol
    {
      this.vol := vol;
      files := View(vol.dev.geo, vol.dev.disk, vol.chains, vol.size);
    }

    /** A file's size is the length of what it holds. */
    lemma SizeOf(f: nat)
      requires Valid() && f in files
      ensures f in vol.size && f in vol.chains && f in vol.start && !IsFixedRoot(vol.dev.geo, f)
      ensures vol.size[f] == |files[f]| && 0 < vol.dev.geo.bytesPerSec && 0 < vol.dev.geo.secsPerClus
      ensures vol.Valid() && vol.dev.Valid()
    {
    }

    /** The block map call of FileGenericWrite, at a position inside the file or at its end: the
        answer is the sector of that position when it is in reach. Out of reach it is -1, unless the
        free search leaves the device. No file has changed. */
    method MapForWrite(f: nat, p: nat) returns (r: int, outside: bool)
      requires Valid() && f in files && p <= |files[f]|
      modifies vol`start, vol`freeClusters, vol`chains, vol.dev
      ensures Valid() && f in vol.chains && Reach(vol, f) == old(Reach(vol, f)) && Strays(vol) == old(Strays(vol))
      ensures outside <==> !InReach(vol, f, p) && Strays(vol)
      ensures !outside ==> (r != -1 <==> InReach(vol, f, p))
      ensures !outside && r != -1 ==> MapsTo(vol.dev.geo, vol.chains[f], Row(vol.dev.geo.bytesPerSec, p), r)
    {
      SizeOf(f);
      ghost var a := Snapshot(vol);
      ghost var n;
      r, outside, n := MapPosition(vol, f, Row(vol.dev.geo.bytesPerSec, p));
      ExtendedFiles(vol.dev.geo, vol.Table(), vol.start, a, Snapshot(vol), f, n, vol.size);
    }

    /** Copying a chunk into the sector of a position splices it into the file. */
    method CopyChunk(f: nat, p: nat, r: nat, e: seq<byte>)
      requires Valid() && f in files && p <= |files[f]| && f in vol.chains
      requires Col(vol.dev.geo.bytesPerSec, p) + |e| <= vol.dev.geo.bytesPerSec
      requires MapsTo(vol.dev.geo, vol.chains[f], Row(vol.dev.geo.bytesPerSec, p), r)
      modifies this`files, vol`size, vol.dev
      ensures Valid() && files == old(files)[f := Spliced(old(files)[f], p, e)]
      ensures Reach(vol, f) == old(Reach(vol, f)) && Strays(vol) == old(Strays(vol))
    {
      hide Findable, Stray, Chained, Mirrored, Fat, Contents, SectorAt, Row, Col, At, ChunkWritten, Spliced, View,
           Covers;
      SizeOf(f);
      ghost var disk, size := vol.dev.disk, vol.size;
      PatchSector(vol, f, p, r, e);
      if p + |e| > vol.size[f] {
        vol.size := vol.size[f := p + |e|];
      }
      assert vol.size == size[f := Max(size[f], p + |e|)];
      ChunkFilesOk(vol.dev.geo, vol.chains, size, f, p, |e|);
      ChunkView(vol.dev.geo, disk, vol.chains, size, f, p, e, vol.size);
      files := files[f := Spliced(files[f], p, e)];
    }

    /** One turn of the write loop. */
    method WriteTurn(f: nat, p: nat, e: seq<byte>) returns (ok: bool, outside: bool)
      requires Valid() && f in files && p <= |files[f]|
      requires Col(vol.dev.geo.bytesPerSec, p) + |e| <= vol.dev.geo.bytesPerSec
      modifies this`files, vol`start, vol`freeClusters, vol`chains, vol`size, vol.dev
      ensures Valid() && vol.dev.Valid() && f in vol.chains
      ensures Reach(vol, f) == old(Reach(vol, f)) && Strays(vol) == old(Strays(vol))
      ensures ok <==> InReach(vol, f, p)
      ensures outside <==> !ok && Strays(vol)
      ensures files == if ok then old(files)[f := Spliced(old(files)[f], p, e)] else old(files)
    {
      hide Valid, Spliced, Row, Col, At, Findable, Stray;
      var res;
      res, outside := MapForWrite(f, p);
      ok := !outside && res != -1;
      if ok {
        CopyChunk(f, p, res, e);
      }
      SizeOf(f);
    }

    /** One turn of the read loop. The block map cannot answer -1 here: the chain covers the size. */
    method ReadChunk(f: nat, p: nat, m: nat) returns (chunk: seq<byte>)
      requires Valid() && f in files && 0 < m && p + m <= |files[f]|
      requires Col(vol.dev.geo.bytesPerSec, p) + m <= vol.dev.geo.bytesPerSec
      modifies vol`start, vol`freeClusters, vol`chains, vol.dev
      ensures Valid() && chunk == files[f][p..p + m]
    {
      hide Chained, Mirrored, Fat, Contents, Extended, Row, Col;
      SizeOf(f);
      var geo := vol.dev.geo;
      CoversBelow(geo, vol.chains[f], vol.size[f], p);
      var res, _ := BlockMap(vol, f, Row(geo.bytesPerSec, p), false);
      assert res != -1;
      ChunkOfContents(geo, vol.dev.disk, vol.chains[f], vol.size[f], p, m);
      chunk := vol.dev.disk[res][Col(geo.bytesPerSec, p)..Col(geo.bytesPerSec, p) + m];
    }

    /** FileGenericWrite. It succeeds exactly when the clusters that the last byte needs are free.
        What was written is a prefix of the buffer, all of it when the call succeeds and otherwise
        all that is in reach; the file becomes its old contents with that prefix spliced in at the
        old position, and no other file changes. A write that runs out of clusters ends in -EIO if no
        entry past the last cluster looks free, and otherwise the free search leaves the device. */
    method GenericWrite(file: File, buffer: seq<byte>) returns (r: int, outside: bool)
      requires Valid() && file.node in files && file.position <= |files[file.node]|
      modifies file, this`files, vol`start, vol`freeClusters, vol`chains, vol`size, vol.dev
      ensures Valid() && old(file.position) <= file.position <= old(file.position) + |buffer|
      ensures Wrote(old(files), files, file.node, old(file.position), buffer, file.position - old(file.position))
      ensures file.node in old(vol.chains) && 0 < vol.dev.geo.secsPerClus && 0 < vol.dev.geo.bytesPerSec
      ensures file.position == old(file.position) + |buffer| <==>
                || |buffer| == 0
                || Needed(vol.dev.geo, old(vol.chains)[file.node],
                          Row(vol.dev.geo.bytesPerSec, old(file.position) + |buffer| - 1)) <= |old(Snapshot(vol)).free|
      ensures file.position != old(file.position) + |buffer| ==>
                file.node in vol.chains && !InReach(vol, file.node, file.position)
      ensures outside <==> file.position != old(file.position) + |buffer| && old(Snapshot(vol)).stray
      ensures !outside ==> r == if file.position == old(file.position) + |buffer| then |buffer| else -EIO
    {
      hide Valid, Spliced, Row, Col, At, Findable, Stray, Strays, Needed, Wrote, Reach, Snapshot, FatVolume.Valid,
           FatDevice.Valid;
      var f, n := file.node, vol.dev.geo.bytesPerSec;
      SizeOf(f);
      ghost var geo, p0, reach, strays := vol.dev.geo, file.position, Reach(vol, f), Strays(vol);
      StraysIsStray(vol);
      if |buffer| > 0 { NeededIsReach(vol, f, Row(n, p0 + |buffer| - 1)); }
      WroteNothing(files, f, file.position, buffer);
      var copied := 0;
      while copied < |buffer|
        invariant 0 <= copied <= |buffer| && file.position == old(file.position) + copied
        invariant Valid() && f in files && file.position <= |files[f]|
        invariant f in vol.chains && vol.dev.Valid() && Reach(vol, f) == reach && Strays(vol) == strays
        invariant 0 < copied ==> Row(geo.secsPerClus, Row(n, file.position - 1)) < reach
        invariant Wrote(old(files), files, f, old(file.position), buffer, copied)
      {
        RowRowMono(geo, file.position, p0 + |buffer| - 1);
        var m := Min(n - Col(n, file.position), |buffer| - copied);
        ghost var v := files;
        var ok;
        ok, outside := WriteTurn(f, file.position, buffer[copied..copied + m]);
        if !ok {
          return -EIO, outside;
        }
        WroteMore(old(files), v, files, f, p0, buffer, copied, m);
        SplicedLength(v[f], file.position, buffer[copied..copied + m]);
        NextCell(n, file.position, m - 1);
        copied := copied + m;
        file.position := file.position + m;
      }
      r, outside := copied, false;
    }

    /** FileGenericRead: the bytes of the file from the position on, as many as were asked for or as
        there are. A position at or past the end reads nothing. */
    method GenericRead(file: File, wanted: nat) returns (r: int, buffer: seq<byte>)
      requires Valid() && file.node in files
      requires wanted < 0x1_0000_0000 && file.position < 0x1_0000_0000 && |files[file.node]| < 0x1_0000_0000
      modifies file, vol`start, vol`freeClusters, vol`chains, vol.dev
      ensures Valid() && r == |buffer| && file.position == old(file.position) + r
      ensures var c := files[file.node];
        if old(file.position) < |c|
        then r == Min(wanted, |c| - old(file.position)) && buffer == c[old(file.position)..file.position]
        else r == 0
    {
      hide Valid, Row, Col, At, FatVolume.Valid, FatDevice.Valid;
      var f, n := file.node, vol.dev.geo.bytesPerSec;
      ghost var p0, c := file.position, files[f];
      SizeOf(f);
      buffer := [];
      // DWORD arithmetic: the difference wraps when the position is past the end.
      var rest := (vol.size[f] - file.position) % 0x1_0000_0000;
      var left := if wanted > rest then rest else wanted;
      if file.position >= vol.size[f] {
        return 0, buffer;
      }
      ghost var total := left;
      while left > 0
        invariant 0 <= left <= total && |buffer| == total - left && file.position == p0 + |buffer|
        invariant Valid() && p0 + total <= |c|
        invariant buffer == c[p0..file.position]
      {
        var readSize := Min(n - Col(n, file.position), left);
        var chunk := ReadChunk(f, file.position, readSize);
        JoinSlices(c, p0, file.position, file.position + readSize);
        buffer := buffer + chunk;
        left := left - readSize;
        file.position := file.position + readSize;
      }
      r := |buffer|;
    }

    /** A successful write, a seek back and a read of as many bytes: the buffer comes back. */
    method WriteThenRead(file: File, data: seq<byte>) returns (w: int, outside: bool, r: int, back: seq<byte>)
      requires Valid() && file.node in files && file.position <= |files[file.node]|
      requires |files[file.node]| + |data| < 0x1_0000_0000
      modifies file, this`files, vol`start, vol`freeClusters, vol`chains, vol`size, vol.dev
      ensures Valid() && (!outside && w == |data| ==> r == |data| && back == data)
    {
      hide Valid, Spliced, View, FilesOk, Row, Col, At, Findable;
      var p := file.position;
      ghost var c := files[file.node];
      w, outside := GenericWrite(file, data);
      if outside || w != |data| {
        return w, outside, 0, [];
      }
      assert data[0..|data|] == data;
      SplicedReadsBack(c, p, data);
      SplicedLength(c, p, data);
      file.position := p;
      r, back := GenericRead(file, |data|);
    }
  }

  lemma SplicedLength(c: seq<byte>, p: nat, d: seq<byte>)
    requires p <= |c|
    ensures |Spliced(c, p, d)| == Max(|c|, p + |d|)
  {
  }
}
