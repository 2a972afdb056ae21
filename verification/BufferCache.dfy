/**
 The buffer cache of a storage device (fs/vfs/bcache.c): blocks held in hash lists, written back
 by BlockSyncDevice. Seen through BlockRead and BlockWrite a device is a sequence of bytes, View,
 whatever is cached, dirty or on the disk, and whatever the block size.
 */
module BufferCache {
  import opened Bytes
  import opened Grid
  import opened Arith
  import opened Errors
  import opened Options

  /** HASH_NUM_ENTRIES: 64K of list heads of eight bytes. */
  const BUCKETS := 8192

  datatype Buffer = Buffer(blockNum: nat, dirty: bool, data: seq<byte>)

  /** What is on the disk, the block size in use and the hash lists. */
  datatype State = State(disk: seq<byte>, soft: nat, hash: seq<seq<Buffer>>)

  // ---- Blocks of the disk ----

  ghost predicate Inside(s: State, b: nat) {
    At(s.soft, b, 0) + s.soft <= |s.disk|
  }

  ghost function DiskBlock(s: State, b: nat): (r: seq<byte>)
    requires Inside(s, b)
    ensures |r| == s.soft
  {
    s.disk[At(s.soft, b, 0)..At(s.soft, b, 0) + s.soft]
  }

  /** Bytes replaced from position o on. */
  function Spliced(d: seq<byte>, o: nat, data: seq<byte>): (r: seq<byte>)
    requires o + |data| <= |d|
    ensures |r| == |d|
    ensures forall x :: 0 <= x < |d| ==> r[x] == if o <= x < o + |data| then data[x - o] else d[x]
  {
    d[..o] + data + d[o + |data|..]
  }

  // ---- Buffers ----

  ghost predicate IsBuffer(s: State, i: nat, j: nat) {
    i < |s.hash| && j < |s.hash[i]|
  }

  ghost predicate BufferOk(s: State, i: nat, u: Buffer) {
    && u.blockNum % BUCKETS == i && |u.data| == s.soft && Inside(s, u.blockNum)
    && (!u.dirty ==> u.data == DiskBlock(s, u.blockNum))
  }

  /** Every buffer is in the list of its number, alone with it, and is the disk's block unless dirty. */
  ghost predicate Sound(s: State) {
    && 0 < s.soft && |s.hash| == BUCKETS
    && (forall i: nat, j: nat :: IsBuffer(s, i, j) ==> BufferOk(s, i, s.hash[i][j]))
    && (forall i: nat, j: nat, k: nat :: IsBuffer(s, i, j) && IsBuffer(s, i, k) && j != k ==>
          s.hash[i][j].blockNum != s.hash[i][k].blockNum)
  }

  /** The buffer of block b in a list; the length of the list when there is none. */
  ghost function Find(l: seq<Buffer>, b: nat): (j: nat)
    ensures j <= |l|
    ensures j < |l| ==> l[j].blockNum == b
    ensures forall k :: 0 <= k < j ==> l[k].blockNum != b
    decreases |l|
  {
    if l == [] || l[0].blockNum == b then 0 else 1 + Find(l[1..], b)
  }

  ghost predicate Cached(s: State, b: nat)
    requires |s.hash| == BUCKETS
  {
    Find(s.hash[b % BUCKETS], b) < |s.hash[b % BUCKETS]|
  }

  ghost function CachedData(s: State, b: nat): (r: seq<byte>)
    requires |s.hash| == BUCKETS && Cached(s, b)
  {
    s.hash[b % BUCKETS][Find(s.hash[b % BUCKETS], b)].data
  }

  lemma BufferIsCached(s: State, i: nat, j: nat)
    requires Sound(s) && IsBuffer(s, i, j)
    ensures var u := s.hash[i][j];
      u.blockNum % BUCKETS == i && Cached(s, u.blockNum) && CachedData(s, u.blockNum) == u.data
    ensures Find(s.hash[i], s.hash[i][j].blockNum) == j
  {
    var u := s.hash[i][j];
    assert BufferOk(s, i, u);
    var k := Find(s.hash[i], u.blockNum);
    assert IsBuffer(s, i, k);
  }

  // ---- The device as its users see it ----

  ghost function ByteAt(s: State, x: nat): (v: byte)
    requires Sound(s) && x < |s.disk|
  {
    var b := Row(s.soft, x);
    if Cached(s, b) && Col(s.soft, x) < |CachedData(s, b)| then CachedData(s, b)[Col(s.soft, x)] else s.disk[x]
  }

  ghost function View(s: State): (v: seq<byte>)
    requires Sound(s)
    ensures |v| == |s.disk|
  {
    seq<byte>(|s.disk|, x requires 0 <= x < |s.disk| => ByteAt(s, x))
  }

  ghost function Block(s: State, b: nat): (r: seq<byte>)
    requires Sound(s) && Inside(s, b)
  {
    if Cached(s, b) then CachedData(s, b) else DiskBlock(s, b)
  }

  lemma BlockPosition(soft: nat, b: nat, y: nat)
    requires y < soft
    ensures Row(soft, At(soft, b, 0) + y) == b && Col(soft, At(soft, b, 0) + y) == y
  {
    AtAdd(soft, b, 0, y);
    RowColAt(soft, b, y);
  }

  /** A block of the view is the cached buffer, or else the block on the disk. */
  lemma ViewBlock(s: State, b: nat)
    requires Sound(s) && Inside(s, b)
    ensures View(s)[At(s.soft, b, 0)..At(s.soft, b, 0) + s.soft] == Block(s, b)
  {
    hide At, Row, Col, Find;
    var o := At(s.soft, b, 0);
    if Cached(s, b) { CachedInside(s, b); }
    assert |Block(s, b)| == s.soft;
    forall y | 0 <= y < s.soft ensures View(s)[o..o + s.soft][y] == Block(s, b)[y] {
      BlockPosition(s.soft, b, y);
    }
  }

  // ---- Steps ----

  function SetBuffer(s: State, i: nat, j: nat, u: Buffer): (r: State)
    requires i < |s.hash| && j < |s.hash[i]|
  {
    s.(hash := s.hash[i := s.hash[i][j := u]])
  }

  /** New contents and BlockWrite. */
  function Wrote(s: State, i: nat, j: nat, data: seq<byte>): (r: State)
    requires i < |s.hash| && j < |s.hash[i]|
  {
    SetBuffer(s, i, j, s.hash[i][j].(dirty := true, data := data))
  }

  /** A dirty buffer marked clean and written to the disk. */
  ghost function Cleaned(s: State, i: nat, j: nat): (r: State)
    requires IsBuffer(s, i, j) && BufferOk(s, i, s.hash[i][j])
  {
    var u := s.hash[i][j];
    SetBuffer(s, i, j, u.(dirty := false)).(disk := Spliced(s.disk, At(s.soft, u.blockNum, 0), u.data))
  }

  /** Block b read from the disk into a new buffer at the end of its list. */
  ghost function Loaded(s: State, b: nat): (r: State)
    requires |s.hash| == BUCKETS && Inside(s, b)
  {
    var i := b % BUCKETS;
    s.(hash := s.hash[i := s.hash[i] + [Buffer(b, false, DiskBlock(s, b))]])
  }

  lemma {:induction false} FindSet(l: seq<Buffer>, j: nat, u: Buffer, c: nat)
    requires j < |l| && u.blockNum == l[j].blockNum
    ensures Find(l[j := u], c) == Find(l, c)
    decreases |l|
  {
    if j > 0 {
      assert l[j := u][1..] == l[1..][j - 1 := u];
      FindSet(l[1..], j - 1, u, c);
    } else {
      assert l[j := u][1..] == l[1..];
    }
  }

  lemma {:induction false} FindAppend(l: seq<Buffer>, u: Buffer, c: nat)
    ensures Find(l + [u], c) == if Find(l, c) < |l| then Find(l, c) else if u.blockNum == c then |l| else |l| + 1
    decreases |l|
  {
    if l != [] {
      assert (l + [u])[1..] == l[1..] + [u];
      FindAppend(l[1..], u, c);
    } else {
      assert l + [u] == [u];
    }
  }

  /** Only the block's own bytes lie at its place. */
  lemma BlocksApart(soft: nat, b: nat, c: nat)
    requires b != c
    ensures At(soft, b, 0) + soft <= At(soft, c, 0) || At(soft, c, 0) + soft <= At(soft, b, 0)
  {
    if b < c { AtMono(soft, b, c, 0); } else { AtMono(soft, c, b, 0); }
  }

  lemma RowOutside(soft: nat, b: nat, x: nat)
    requires 0 < soft
    ensures At(soft, b, 0) <= x < At(soft, b, 0) + soft <==> Row(soft, x) == b
    ensures Row(soft, x) == b ==> Col(soft, x) == x - At(soft, b, 0)
  {
    if At(soft, b, 0) <= x < At(soft, b, 0) + soft {
      BlockPosition(soft, b, x - At(soft, b, 0));
    } else {
      AtRowCol(soft, x);
      AtAdd(soft, Row(soft, x), 0, Col(soft, x));
    }
  }

  /** The cache after one buffer has changed, block by block. */
  lemma SetCached(s: State, i: nat, j: nat, u: Buffer, c: nat)
    requires Sound(s) && IsBuffer(s, i, j) && u.blockNum == s.hash[i][j].blockNum
    ensures var s' := SetBuffer(s, i, j, u);
      && (Cached(s', c) <==> Cached(s, c))
      && (Cached(s, c) ==> CachedData(s', c) == if c == u.blockNum then u.data else CachedData(s, c))
  {
    BufferIsCached(s, i, j);
    FindSet(s.hash[i], j, u, c);
  }

  lemma SetSound(s: State, i: nat, j: nat, u: Buffer)
    requires Sound(s) && IsBuffer(s, i, j) && u.blockNum == s.hash[i][j].blockNum && BufferOk(s, i, u)
    ensures Sound(SetBuffer(s, i, j, u))
  {
    hide BufferOk;
    var s' := SetBuffer(s, i, j, u);
    forall m: nat, n: nat | IsBuffer(s', m, n) ensures BufferOk(s', m, s'.hash[m][n]) {
      assert IsBuffer(s, m, n);
      SameDisk(s, s', m, s'.hash[m][n]);
    }
    forall m: nat, n: nat, o: nat | IsBuffer(s', m, n) && IsBuffer(s', m, o) && n != o
      ensures s'.hash[m][n].blockNum != s'.hash[m][o].blockNum
    {
      assert IsBuffer(s, m, n) && IsBuffer(s, m, o);
    }
  }

  lemma SameDisk(s: State, s': State, i: nat, u: Buffer)
    requires s.disk == s'.disk && s.soft == s'.soft
    ensures BufferOk(s, i, u) <==> BufferOk(s', i, u)
  {
  }

  /** BlockWrite writes its block of the view and no other byte. */
  lemma WroteView(s: State, i: nat, j: nat, data: seq<byte>)
    requires Sound(s) && IsBuffer(s, i, j) && |data| == s.soft && Inside(s, s.hash[i][j].blockNum)
    ensures Sound(Wrote(s, i, j, data))
    ensures View(Wrote(s, i, j, data)) == Spliced(View(s), At(s.soft, s.hash[i][j].blockNum, 0), data)
  {
    hide At, Row, Col;
    var s', b := Wrote(s, i, j, data), s.hash[i][j].blockNum;
    var u := s'.hash[i][j];
    BufferIsCached(s, i, j);
    assert BufferOk(s, i, u);
    SetSound(s, i, j, u);
    forall x | 0 <= x < |s.disk| ensures View(s')[x] == Spliced(View(s), At(s.soft, b, 0), data)[x] {
      SetCached(s, i, j, u, Row(s.soft, x));
      RowOutside(s.soft, b, x);
    }
  }

  lemma CleanedSound(s: State, i: nat, j: nat)
    requires Sound(s) && IsBuffer(s, i, j) && BufferOk(s, i, s.hash[i][j])
    ensures Sound(Cleaned(s, i, j))
  {
    hide At;
    var s', u := Cleaned(s, i, j), s.hash[i][j];
    forall m: nat, n: nat | IsBuffer(s', m, n) ensures BufferOk(s', m, s'.hash[m][n]) {
      assert IsBuffer(s, m, n) && BufferOk(s, m, s.hash[m][n]);
      CleanedBuffer(s, i, j, m, n);
    }
    forall m: nat, n: nat, o: nat | IsBuffer(s', m, n) && IsBuffer(s', m, o) && n != o
      ensures s'.hash[m][n].blockNum != s'.hash[m][o].blockNum
    {
      assert IsBuffer(s, m, n) && IsBuffer(s, m, o);
    }
  }

  lemma CleanedBuffer(s: State, i: nat, j: nat, m: nat, n: nat)
    requires Sound(s) && IsBuffer(s, i, j) && IsBuffer(s, m, n)
    requires BufferOk(s, i, s.hash[i][j]) && BufferOk(s, m, s.hash[m][n])
    ensures BufferOk(Cleaned(s, i, j), m, Cleaned(s, i, j).hash[m][n])
  {
    hide At;
    var s', u, v := Cleaned(s, i, j), s.hash[i][j], s.hash[m][n];
    var o, p := At(s.soft, u.blockNum, 0), At(s.soft, v.blockNum, 0);
    if m == i && n == j {
      assert s'.disk[o..o + s.soft] == u.data;
    } else {
      if m == i { assert u.blockNum != v.blockNum; }
      BlocksApart(s.soft, u.blockNum, v.blockNum);
      assert s'.disk[p..p + s.soft] == s.disk[p..p + s.soft];
    }
  }

  /** Writing a buffer back does not change the view. */
  lemma CleanedView(s: State, i: nat, j: nat)
    requires Sound(s) && IsBuffer(s, i, j) && BufferOk(s, i, s.hash[i][j])
    ensures Sound(Cleaned(s, i, j)) && View(Cleaned(s, i, j)) == View(s)
  {
    hide At, Row, Col, Sound;
    CleanedSound(s, i, j);
    var s', u := Cleaned(s, i, j), s.hash[i][j];
    BufferIsCached(s, i, j);
    forall x | 0 <= x < |s.disk| ensures ByteAt(s', x) == ByteAt(s, x) {
      SoundSizes(s);
      SetCached(s, i, j, u.(dirty := false), Row(s.soft, x));
      RowOutside(s.soft, u.blockNum, x);
    }
  }

  lemma SoundSizes(s: State)
    requires Sound(s)
    ensures 0 < s.soft && |s.hash| == BUCKETS
  {
  }

  /** Loading a block does not change the view. */
  lemma LoadedView(s: State, b: nat)
    requires Sound(s) && Inside(s, b) && !Cached(s, b)
    ensures Sound(Loaded(s, b)) && View(Loaded(s, b)) == View(s)
  {
    hide At, Row, Col;
    LoadedSound(s, b);
    var s', i := Loaded(s, b), b % BUCKETS;
    forall x | 0 <= x < |s.disk| ensures ByteAt(s', x) == ByteAt(s, x) {
      var c := Row(s.soft, x);
      FindAppend(s.hash[i], Buffer(b, false, DiskBlock(s, b)), c);
      RowOutside(s.soft, b, x);
    }
  }

  lemma LoadedSound(s: State, b: nat)
    requires Sound(s) && Inside(s, b) && !Cached(s, b)
    ensures Sound(Loaded(s, b))
  {
    hide At;
    var s', i := Loaded(s, b), b % BUCKETS;
    forall m: nat, n: nat | IsBuffer(s', m, n) ensures BufferOk(s', m, s'.hash[m][n]) {
      if IsBuffer(s, m, n) {
        assert s'.hash[m][n] == s.hash[m][n] && BufferOk(s, m, s.hash[m][n]);
      }
    }
    forall m: nat, n: nat, o: nat | IsBuffer(s', m, n) && IsBuffer(s', m, o) && n != o
      ensures s'.hash[m][n].blockNum != s'.hash[m][o].blockNum
    {
      if IsBuffer(s, m, n) && IsBuffer(s, m, o) {
        assert s.hash[m][n].blockNum != s.hash[m][o].blockNum;
      }
    }
  }

  // ---- Counting dirty buffers ----

  ghost function Dirty(l: seq<Buffer>): (n: nat)
    decreases |l|
  {
    if l == [] then 0 else (if l[0].dirty then 1 else 0) + Dirty(l[1..])
  }

  ghost function TotalDirty(h: seq<seq<Buffer>>): (n: nat)
    decreases |h|
  {
    if h == [] then 0 else Dirty(h[0]) + TotalDirty(h[1..])
  }

  lemma {:induction false} DirtySet(l: seq<Buffer>, j: nat, u: Buffer)
    requires j < |l|
    ensures Dirty(l[j := u]) + (if l[j].dirty then 1 else 0) == Dirty(l) + if u.dirty then 1 else 0
    decreases |l|
  {
    if j == 0 {
      assert l[j := u][1..] == l[1..];
    } else {
      assert l[j := u][1..] == l[1..][j - 1 := u];
      DirtySet(l[1..], j - 1, u);
    }
  }

  lemma {:induction false} DirtyAppend(l: seq<Buffer>, u: Buffer)
    ensures Dirty(l + [u]) == Dirty(l) + if u.dirty then 1 else 0
    decreases |l|
  {
    if l == [] {
      assert l + [u] == [u];
    } else {
      assert (l + [u])[1..] == l[1..] + [u];
      DirtyAppend(l[1..], u);
    }
  }

  lemma {:induction false} TotalSet(h: seq<seq<Buffer>>, i: nat, l: seq<Buffer>)
    requires i < |h|
    ensures TotalDirty(h[i := l]) + Dirty(h[i]) == TotalDirty(h) + Dirty(l)
    decreases |h|
  {
    if i == 0 {
      assert h[i := l][1..] == h[1..];
    } else {
      assert h[i := l][1..] == h[1..][i - 1 := l];
      TotalSet(h[1..], i - 1, l);
    }
  }

  ghost predicate CleanList(l: seq<Buffer>) {
    forall j :: 0 <= j < |l| ==> !l[j].dirty
  }

  lemma {:induction false} CleanIffZero(l: seq<Buffer>)
    ensures CleanList(l) <==> Dirty(l) == 0
    decreases |l|
  {
    if l == [] {
    } else {
      CleanIffZero(l[1..]);
      assert forall j :: 0 < j < |l| ==> l[j] == l[1..][j - 1];
      assert forall j :: 0 <= j < |l[1..]| ==> l[1..][j] == l[j + 1];
    }
  }

  lemma {:induction false} AllCleanIffZero(h: seq<seq<Buffer>>)
    ensures (forall i :: 0 <= i < |h| ==> CleanList(h[i])) <==> TotalDirty(h) == 0
    decreases |h|
  {
    if h == [] {
    } else {
      CleanIffZero(h[0]);
      AllCleanIffZero(h[1..]);
      assert forall i :: 0 < i < |h| ==> h[i] == h[1..][i - 1];
      assert forall i :: 0 <= i < |h[1..]| ==> h[1..][i] == h[i + 1];
    }
  }

  /** With nothing dirty, the disk is what users see. */
  lemma CleanViewIsDisk(s: State)
    requires Sound(s) && TotalDirty(s.hash) == 0
    ensures View(s) == s.disk
  {
    hide At, Row, Col, TotalDirty;
    AllCleanIffZero(s.hash);
    forall x | 0 <= x < |s.disk| ensures ByteAt(s, x) == s.disk[x] {
      var b := Row(s.soft, x);
      RowOutside(s.soft, b, x);
      if Cached(s, b) {
        var j := Find(s.hash[b % BUCKETS], b);
        assert IsBuffer(s, b % BUCKETS, j);
        assert BufferOk(s, b % BUCKETS, s.hash[b % BUCKETS][j]);
        assert CleanList(s.hash[b % BUCKETS]);
      }
    }
  }

  // ---- Block sizes and sectors ----

  /** The & of two numbers. */
  function And(a: nat, b: nat): (r: nat) {
    if a == 0 || b == 0 then 0 else a % 2 * (b % 2) + 2 * And(a / 2, b / 2)
  }

  predicate PowerOfTwo(n: nat) {
    n == 1 || (n > 0 && n % 2 == 0 && PowerOfTwo(n / 2))
  }

  /** The test n & (n - 1) finds the powers of two. */
  lemma {:induction false} AndTest(n: nat)
    requires n > 0
    ensures And(n, n - 1) == 0 <==> PowerOfTwo(n)
  {
    if n % 2 == 0 {
      AndTest(n / 2);
      assert (n - 1) / 2 == n / 2 - 1;
    } else if n > 1 {
      assert (n - 1) / 2 == n / 2;
      AndSelf(n / 2);
    }
  }

  lemma {:induction false} AndSelf(n: nat)
    ensures And(n, n) == n
  {
    if n == 0 {
    } else {
      AndSelf(n / 2);
    }
  }

  /** A smaller power of two divides a bigger one. */
  lemma {:induction false} PowerDivides(a: nat, b: nat) returns (q: nat)
    requires PowerOfTwo(a) && PowerOfTwo(b) && a <= b
    ensures b == q * a
  {
    if a == 1 {
      q := b;
    } else {
      q := PowerDivides(a / 2, b / 2);
      assert q * a == 2 * (q * (a / 2));
    }
  }

  /** The sectors StorageBuildRequest asks for are exactly the bytes of the block. */
  lemma SectorsAreBlock(b: nat, soft: nat, hw: nat)
    requires PowerOfTwo(hw) && PowerOfTwo(soft) && hw <= soft
    ensures b * soft / hw * hw == At(soft, b, 0)
    ensures soft / hw * hw == soft
  {
    hide PowerOfTwo;
    var q := PowerDivides(hw, soft);
    assert 0 < hw by { PowerPositive(hw); }
    DivModUnique(hw, q, 0);
    assert b * soft == b * q * hw;
    DivModUnique(hw, b * q, 0);
    AtIsMul(soft, b, 0);
  }

  lemma PowerPositive(n: nat)
    requires PowerOfTwo(n)
    ensures n > 0
  {
  }

  /** What counting says of each step. */
  lemma CountSet(s: State, i: nat, j: nat, u: Buffer)
    requires IsBuffer(s, i, j)
    ensures TotalDirty(SetBuffer(s, i, j, u).hash) + (if s.hash[i][j].dirty then 1 else 0)
         == TotalDirty(s.hash) + if u.dirty then 1 else 0
  {
    hide TotalDirty, Dirty;
    TotalSet(s.hash, i, s.hash[i][j := u]);
    DirtySet(s.hash[i], j, u);
  }

  lemma CountLoaded(s: State, b: nat)
    requires |s.hash| == BUCKETS && Inside(s, b)
    ensures TotalDirty(Loaded(s, b).hash) == TotalDirty(s.hash)
  {
    hide TotalDirty, Dirty;
    var i, u := b % BUCKETS, Buffer(b, false, DiskBlock(s, b));
    TotalSet(s.hash, i, s.hash[i] + [u]);
    DirtyAppend(s.hash[i], u);
  }

  lemma LoadedIsCached(s: State, b: nat)
    requires |s.hash| == BUCKETS && Inside(s, b)
    ensures Cached(Loaded(s, b), b)
  {
    FindAppend(s.hash[b % BUCKETS], Buffer(b, false, DiskBlock(s, b)), b);
  }

  /** Lists of the same blocks. */
  ghost predicate SameBlocks(h: seq<seq<Buffer>>, h': seq<seq<Buffer>>) {
    |h'| == |h| && forall i :: 0 <= i < |h| ==> SameNumbers(h[i], h'[i])
  }

  ghost predicate SameNumbers(l: seq<Buffer>, l': seq<Buffer>) {
    |l'| == |l| && forall j :: 0 <= j < |l| ==> l'[j].blockNum == l[j].blockNum && l'[j].data == l[j].data
  }

  class StorageDevice {
    const blockSize: nat
    var softBlockSize: nat
    var hashLists: seq<seq<Buffer>>
    var numDirty: int
    var syncing: bool
    var disk: seq<byte>

    ghost function Current(): (s: State)
      reads this
    {
      State(disk, softBlockSize, hashLists)
    }

    /** The state of the cache is sound and numDirty counts the dirty buffers. */
    ghost predicate Counted()
      reads this
    {
      && Sound(Current()) && numDirty == TotalDirty(hashLists)
      && PowerOfTwo(blockSize) && PowerOfTwo(softBlockSize) && blockSize <= softBlockSize
    }

    ghost predicate Valid()
      reads this
    {
      Counted() && !syncing
    }

    /** A read request: block b's sectors from the disk. */
    method ReadRequest(b: nat) returns (data: seq<byte>)
      requires Valid() && Inside(Current(), b)
      ensures data == DiskBlock(Current(), b)
    {
      hide At, TotalDirty, PowerOfTwo;
      PowerPositive(blockSize);
      SectorsAreBlock(b, softBlockSize, blockSize);
      var sector, numSectors := b * softBlockSize / blockSize, softBlockSize / blockSize;
      data := disk[sector * blockSize..sector * blockSize + numSectors * blockSize];
    }

    /** A write request. */
    method WriteRequest(b: nat, data: seq<byte>)
      requires PowerOfTwo(blockSize) && PowerOfTwo(softBlockSize) && blockSize <= softBlockSize
      requires Inside(Current(), b) && |data| == softBlockSize
      modifies this`disk
      ensures disk == Spliced(old(disk), At(softBlockSize, b, 0), data)
    {
      hide At, PowerOfTwo;
      PowerPositive(blockSize);
      SectorsAreBlock(b, softBlockSize, blockSize);
      var sector := b * softBlockSize / blockSize;
      disk := Spliced(disk, sector * blockSize, data);
    }

    /** BlockFindBuffer. */
    method FindBuffer(b: nat) returns (found: bool, i: nat, j: nat)
      requires Sound(Current())
      ensures i == b % BUCKETS && (found <==> Cached(Current(), b))
      ensures j == Find(hashLists[i], b)
    {
      i, j := b % BUCKETS, 0;
      while j < |hashLists[i]| && hashLists[i][j].blockNum != b
        invariant 0 <= j <= |hashLists[i]|
        invariant forall k :: 0 <= k < j ==> hashLists[i][k].blockNum != b
      {
        j := j + 1;
      }
      found := j < |hashLists[i]|;
    }

    /** BlockRead: the block as the view has it. Without memory, or on an I/O error, None. */
    method BlockRead(b: nat, haveMemory: bool, ioOk: bool) returns (data: Option<seq<byte>>)
      requires Valid() && (ioOk ==> Inside(Current(), b))
      modifies this`hashLists
      ensures Valid() && View(Current()) == old(View(Current()))
      ensures data.None? <==> !old(Cached(Current(), b)) && !(haveMemory && ioOk)
      ensures data.None? ==> hashLists == old(hashLists)
      ensures data.Some? ==>
        && Cached(Current(), b) && Inside(Current(), b)
        && data.value == View(Current())[At(softBlockSize, b, 0)..At(softBlockSize, b, 0) + softBlockSize]
    {
      hide At, TotalDirty, PowerOfTwo, View, Find;
      var found, i, j := FindBuffer(b);
      if found {
        CachedInside(Current(), b);
        ViewBlock(Current(), b);
        return Some(hashLists[i][j].data);
      }
      if !haveMemory || !ioOk {
        return None;
      }
      var d := ReadRequest(b);
      ghost var s := Current();
      LoadedView(s, b);
      CountLoaded(s, b);
      LoadedIsCached(s, b);
      ViewBlock(s, b);
      hashLists := hashLists[i := hashLists[i] + [Buffer(b, false, d)]];
      assert Current() == Loaded(s, b);
      return Some(d);
    }

    /** A caller that holds the buffer of block b changes its data and calls BlockWrite. */
    method BlockWrite(b: nat, data: seq<byte>)
      requires Valid() && Cached(Current(), b) && |data| == softBlockSize
      modifies this`hashLists, this`numDirty
      ensures Valid() && Cached(Current(), b) && Inside(old(Current()), b)
      ensures View(Current()) == Spliced(old(View(Current())), At(softBlockSize, b, 0), data)
    {
      hide At, TotalDirty, PowerOfTwo, View;
      ghost var s := Current();
      var found, i, j := FindBuffer(b);
      CachedInside(s, b);
      var u := hashLists[i][j];
      WroteView(s, i, j, data);
      CountSet(s, i, j, u.(dirty := true, data := data));
      SetCached(s, i, j, u.(dirty := true, data := data), b);
      if !u.dirty {
        numDirty := numDirty + 1;
      }
      hashLists := hashLists[i := hashLists[i][j := u.(dirty := true, data := data)]];
      assert Current() == Wrote(s, i, j, data);
    }

    /** One dirty buffer written back: numDirty counts down and the view stays. */
    method Flush(i: nat, j: nat)
      requires Counted() && IsBuffer(Current(), i, j) && hashLists[i][j].dirty
      modifies this`hashLists, this`numDirty, this`disk
      ensures Counted() && View(Current()) == old(View(Current())) && numDirty == old(numDirty) - 1
      ensures hashLists == old(hashLists)[i := old(hashLists)[i][j := old(hashLists)[i][j].(dirty := false)]]
    {
      hide At, TotalDirty, PowerOfTwo, View, Inside;
      ghost var s := Current();
      var u := hashLists[i][j];
      assert BufferOk(s, i, u);
      CleanedView(s, i, j);
      CountSet(s, i, j, u.(dirty := false));
      numDirty := numDirty - 1;
      hashLists := hashLists[i := hashLists[i][j := u.(dirty := false)]];
      assert Inside(Current(), u.blockNum) by { SameInside(s, Current(), u.blockNum); }
      WriteRequest(u.blockNum, u.data);
      assert Current() == Cleaned(s, i, j);
    }

    /** One list written back, up to the moment nothing is dirty any more. */
    method SyncList(i: nat) returns (done: bool)
      requires Counted() && i < BUCKETS && numDirty > 0
      modifies this`hashLists, this`numDirty, this`disk
      ensures Counted() && View(Current()) == old(View(Current()))
      ensures done <==> numDirty == 0
      ensures !done ==> CleanList(hashLists[i])
      ensures |hashLists[i]| == |old(hashLists)[i]| && hashLists == old(hashLists)[i := hashLists[i]]
      ensures SameNumbers(old(hashLists)[i], hashLists[i])
    {
      hide TotalDirty, PowerOfTwo, View, Sound;
      SoundSizes(Current());
      ghost var h := hashLists;
      var j := 0;
      while j < |hashLists[i]|
        invariant Counted() && View(Current()) == old(View(Current())) && numDirty > 0
        invariant |hashLists| == |h| && 0 <= j <= |hashLists[i]| == |h[i]| && hashLists == h[i := hashLists[i]]
        invariant SameNumbers(h[i], hashLists[i])
        invariant forall k :: 0 <= k < j ==> !hashLists[i][k].dirty
        decreases |hashLists[i]| - j
      {
        if hashLists[i][j].dirty {
          Flush(i, j);
        }
        if numDirty == 0 {
          return true;
        }
        j := j + 1;
      }
      done := false;
    }

    /** The loop over all lists. When it ends nothing is dirty, so it is never run again. */
    method SyncPass()
      requires Counted() && numDirty > 0
      modifies this`hashLists, this`numDirty, this`disk
      ensures Counted() && View(Current()) == old(View(Current())) && numDirty == 0
      ensures SameBlocks(old(hashLists), hashLists)
    {
      hide TotalDirty, PowerOfTwo, View, Sound, CleanList, SameNumbers;
      SoundSizes(Current());
      SameBlocksItself(hashLists);
      var i := 0;
      while i < BUCKETS
        invariant Counted() && View(Current()) == old(View(Current())) && numDirty > 0
        invariant |hashLists| == BUCKETS && 0 <= i <= BUCKETS && SameBlocks(old(hashLists), hashLists)
        invariant forall k :: 0 <= k < i ==> CleanList(hashLists[k])
      {
        ghost var h := hashLists;
        var done := SyncList(i);
        SameBlocksSet(old(hashLists), h, i, hashLists[i]);
        if done {
          return;
        }
        i := i + 1;
      }
      AllCleanIffZero(hashLists);
    }

    /** BlockSyncDevice: afterwards the disk holds what the device's users see. */
    method BlockSyncDevice()
      requires Valid()
      modifies this`hashLists, this`numDirty, this`disk, this`syncing
      ensures Valid() && numDirty == 0
      ensures View(Current()) == old(View(Current())) && disk == old(View(Current()))
      ensures SameBlocks(old(hashLists), hashLists)
    {
      hide TotalDirty, PowerOfTwo, View, Sound, SameNumbers, SameBlocks;
      SameBlocksItself(hashLists);
      if syncing || numDirty == 0 {
        CleanViewIsDisk(Current());
        return;
      }
      syncing := true;
      var again := true;
      while again
        invariant Counted() && View(Current()) == old(View(Current()))
        invariant again <==> numDirty != 0
        invariant SameBlocks(old(hashLists), hashLists) && (again ==> hashLists == old(hashLists))
        decreases again
      {
        SyncPass();
        again := numDirty != 0;
      }
      syncing := false;
      CleanViewIsDisk(Current());
    }

    /** BlockDeviceFreeAll: dirty buffers are written back, then all of them go. */
    method BlockDeviceFreeAll()
      requires Valid()
      modifies this`hashLists, this`numDirty, this`disk, this`syncing
      ensures Valid() && numDirty == 0 && disk == old(View(Current()))
      ensures forall i :: 0 <= i < |hashLists| ==> hashLists[i] == []
    {
      hide TotalDirty, PowerOfTwo, View, SameBlocks, At;
      if numDirty != 0 {
        BlockSyncDevice();
      } else {
        CleanViewIsDisk(Current());
      }
      var i := 0;
      while i < BUCKETS
        invariant 0 <= i <= BUCKETS == |hashLists|
        invariant forall k :: 0 <= k < i ==> hashLists[k] == []
        modifies this`hashLists
      {
        while |hashLists[i]| > 0
          invariant |hashLists| == BUCKETS && forall k :: 0 <= k < i ==> hashLists[k] == []
          modifies this`hashLists
          decreases |hashLists[i]|
        {
          hashLists := hashLists[i := hashLists[i][1..]];
        }
        i := i + 1;
      }
      EmptySound(Current());
    }

    /** BlockSetSize: the block size changes, the device's bytes do not. */
    method BlockSetSize(size: nat) returns (err: int)
      requires Valid()
      modifies this
      ensures Valid() && View(Current()) == old(View(Current()))
      ensures err == -EINVAL <==> !PowerOfTwo(size) || size < blockSize
      ensures err == -EINVAL ==> Current() == old(Current())
      ensures err != -EINVAL ==> err == 0 && softBlockSize == size
    {
      hide TotalDirty, View, PowerOfTwo, Sound;
      if size == 0 {
        NotPower();
        return -EINVAL;
      }
      AndTest(size);
      if And(size, size - 1) != 0 {
        return -EINVAL;
      }
      if size < blockSize {
        return -EINVAL;
      }
      if softBlockSize == size {
        return 0;
      }
      BlockDeviceFreeAll();
      SoundSizes(Current());
      softBlockSize := size;
      PowerPositive(size);
      EmptySound(Current());
      return 0;
    }
  }

  lemma CachedInside(s: State, b: nat)
    requires Sound(s) && Cached(s, b)
    ensures Inside(s, b) && IsBuffer(s, b % BUCKETS, Find(s.hash[b % BUCKETS], b))
  {
    hide At;
    var j := Find(s.hash[b % BUCKETS], b);
    assert IsBuffer(s, b % BUCKETS, j);
    assert BufferOk(s, b % BUCKETS, s.hash[b % BUCKETS][j]);
  }

  lemma SameInside(s: State, s': State, b: nat)
    requires Inside(s, b) && s.soft == s'.soft && |s.disk| == |s'.disk|
    ensures Inside(s', b)
  {
  }

  lemma NotPower()
    ensures !PowerOfTwo(0)
  {
  }

  /** An empty cache of any block size shows the disk. */
  lemma EmptySound(s: State)
    requires 0 < s.soft && |s.hash| == BUCKETS && forall i :: 0 <= i < |s.hash| ==> s.hash[i] == []
    ensures Sound(s) && TotalDirty(s.hash) == 0 && View(s) == s.disk
  {
    hide At, Row, Col;
    AllCleanIffZero(s.hash);
    CleanViewIsDisk(s);
  }

  lemma SameBlocksItself(h: seq<seq<Buffer>>)
    ensures SameBlocks(h, h)
  {
  }

  lemma SameBlocksSet(h: seq<seq<Buffer>>, h': seq<seq<Buffer>>, i: nat, l: seq<Buffer>)
    requires SameBlocks(h, h') && i < |h'| && SameNumbers(h'[i], l)
    ensures SameBlocks(h, h'[i := l])
  {
    assert SameNumbers(h[i], h'[i]);
  }
}
