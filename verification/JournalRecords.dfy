/**
 The records that a commit lays down in the log (fs/journal/commit.c), byte by byte, and what recovery
 makes of them: the logged blocks of committed transactions come back, in order.
 */
module JournalRecords {
  import opened Arith
  import opened Bytes
  import opened JournalRecovery
  import opened Sequences

  type DWord = v: nat | v < 0x1_0000_0000

  /** The bytes of a big-endian DWORD. */
  function Be32Bytes(v: DWord): (b: seq<byte>)
    ensures |b| == 4
  {
    var v1 := v / 0x100;
    var v2 := v1 / 0x100;
    [v2 / 0x100, v2 % 0x100, v1 % 0x100, v % 0x100]
  }

  lemma Be32Stored(b: seq<byte>, o: nat, v: DWord)
    requires o + 4 <= |b| && b[o..o + 4] == Be32Bytes(v)
    ensures Be32(b, o) == v
  {
    var s := b[o..o + 4];
    assert b[o] == s[0] && b[o + 1] == s[1] && b[o + 2] == s[2] && b[o + 3] == s[3];
  }

  function Header(blockType: DWord, id: DWord): (b: seq<byte>)
    ensures |b| == 12
  {
    Be32Bytes(0xC03B3998) + Be32Bytes(blockType) + Be32Bytes(id)
  }

  function Flags(first: bool, last: bool): (f: DWord) {
    (if first then 0 else 2) + (if last then 8 else 0)
  }

  /** The tags of a descriptor: a block number and flags each. The first tag is followed by the journal's
      uuid and the others carry the flag for the same uuid; the last one carries the flag for the last. */
  function Tags(targets: seq<DWord>, first: bool, uuid: seq<byte>): (b: seq<byte>) {
    if targets == [] then []
    else
      Be32Bytes(targets[0]) + Be32Bytes(Flags(first, |targets| == 1)) + (if first then uuid else [])
      + Tags(targets[1..], false, uuid)
  }

  function Descriptor(id: DWord, targets: seq<DWord>, uuid: seq<byte>, pad: seq<byte>): (b: Block)
    ensures |b| >= 12
  {
    Header(1, id) + Tags(targets, true, uuid) + pad
  }

  function Commit(id: DWord, pad: seq<byte>): (b: Block)
    ensures |b| >= 12
  {
    Header(2, id) + pad
  }

  /** The fields of a header, where recovery reads them. */
  lemma HeaderRead(b: Block, blockType: DWord, id: DWord)
    requires |b| >= 12 && b[..12] == Header(blockType, id)
    ensures Be32(b, 0) == JFS_MAGIC && Be32(b, 4) == blockType && Be32(b, 8) == id
  {
    var h := Header(blockType, id);
    assert b[0..4] == b[..12][0..4] == h[0..4] == Be32Bytes(0xC03B3998);
    assert b[4..8] == b[..12][4..8] == h[4..8] == Be32Bytes(blockType);
    assert b[8..12] == b[..12][8..12] == h[8..12] == Be32Bytes(id);
    Be32Stored(b, 0, 0xC03B3998);
    Be32Stored(b, 4, blockType);
    Be32Stored(b, 8, id);
  }

  /** One tag, where recovery reads it. */
  lemma TagRead(b: Block, o: nat, target: DWord, first: bool, last: bool)
    requires o + 8 <= |b| && b[o..o + 4] == Be32Bytes(target) && b[o + 4..o + 8] == Be32Bytes(Flags(first, last))
    ensures Be32(b, o) == target && (LastTag(b, o) <==> last)
    ensures NextTag(b, o) == if first then o + 24 else o + 8
  {
    Be32Stored(b, o, target);
    assert b[o + 7] == b[o + 4..o + 8][3];
  }

  lemma TagsParts(targets: seq<DWord>, first: bool, uuid: seq<byte>)
    requires targets != [] && |uuid| == 16
    ensures var t, n := Tags(targets, first, uuid), if first then 24 else 8;
      && n <= |t| && t[..4] == Be32Bytes(targets[0]) && t[4..8] == Be32Bytes(Flags(first, |targets| == 1))
      && t[n..] == Tags(targets[1..], false, uuid)
  {
    hide Be32Bytes;
    FourParts(Be32Bytes(targets[0]), Be32Bytes(Flags(first, |targets| == 1)), if first then uuid else [],
              Tags(targets[1..], false, uuid));
  }

  /** Recovery follows the tags of a descriptor to exactly the blocks they were made for. */
  lemma {:induction false} TagsTargets(b: Block, o: nat, targets: seq<DWord>, first: bool, uuid: seq<byte>)
    requires targets != [] && |uuid| == 16 && o + |Tags(targets, first, uuid)| <= |b|
    requires b[o..o + |Tags(targets, first, uuid)|] == Tags(targets, first, uuid)
    ensures Targets(b, o) == targets
    decreases |targets|
  {
    hide Tags, Be32Bytes, Be32, LastTag;
    var t, n: nat := Tags(targets, first, uuid), if first then 24 else 8;
    TagsParts(targets, first, uuid);
    PartOfSlice(b, o, t, 0, 4);
    PartOfSlice(b, o, t, 4, 8);
    TagRead(b, o, targets[0], first, |targets| == 1);
    if |targets| > 1 {
      PartOfSlice(b, o, t, n, |t|);
      TagsTargets(b, o + n, targets[1..], false, uuid);
    }
  }

  /** A descriptor of any list of blocks, as recovery reads it. */
  lemma DescriptorRead(id: DWord, targets: seq<DWord>, uuid: seq<byte>, pad: seq<byte>)
    requires targets != [] && |uuid| == 16
    ensures var b := Descriptor(id, targets, uuid, pad);
      && Targets(b, HEADER_SIZE) == targets && TagCount(b) == |targets|
      && IsDescriptor(b) && !Stops(b, id) && NextId(b, id) == id && forall i :: i != id ==> Stops(b, i)
  {
    hide Tags, Header, Targets;
    var b, t := Descriptor(id, targets, uuid, pad), Tags(targets, true, uuid);
    assert b[..12] == Header(1, id);
    HeaderRead(b, 1, id);
    assert b[12..12 + |t|] == t;
    TagsTargets(b, 12, targets, true, uuid);
  }

  lemma CommitRead(id: DWord, pad: seq<byte>)
    ensures var b := Commit(id, pad);
      && TagCount(b) == 0 && !IsDescriptor(b) && !Stops(b, id) && NextId(b, id) == (id + 1) % 0x1_0000_0000
  {
    hide Header;
    var b := Commit(id, pad);
    assert b[..12] == Header(2, id);
    HeaderRead(b, 2, id);
  }

  // ---- Places in the circle ----

  /** The place `j` blocks behind `p`. */
  function Place(n: nat, head: nat, p: nat, j: nat): (q: nat)
    requires head < n && p < n
    ensures q < n
  {
    if j == 0 then p else Wrap(n, head, Place(n, head, p, j - 1) + 1)
  }

  /** A distance `x` from the start of the device, taken around the part of the log from `head` on. */
  function Around(n: nat, head: nat, x: nat): (q: nat)
    requires head < n
  {
    if x < n then x else head + (x - n) % (n - head)
  }

  /** Places by arithmetic. */
  lemma {:induction false} PlaceIs(n: nat, head: nat, p: nat, j: nat)
    requires head < n && p < n
    ensures Place(n, head, p, j) == Around(n, head, p + j)
  {
    hide Wrap, Around;
    if j == 0 {
      AroundInside(n, head, p);
    } else {
      PlaceIs(n, head, p, j - 1);
      AroundNext(n, head, p + j - 1);
    }
  }

  lemma AroundInside(n: nat, head: nat, x: nat)
    requires head < n && x < n
    ensures Around(n, head, x) == x
  {
  }

  lemma AroundNext(n: nat, head: nat, x: nat)
    requires head < n
    ensures Around(n, head, x + 1) == Wrap(n, head, Around(n, head, x) + 1)
  {
    if x >= n { ModNext(n - head, x - n); }
  }

  lemma ModNext(m: nat, x: nat)
    requires 0 < m
    ensures (x + 1) % m == if x % m + 1 == m then 0 else x % m + 1
  {
    assert x == x / m * m + x % m;
    if x % m + 1 == m {
      assert (x / m + 1) * m == x / m * m + m;
      DivModUnique(m, x / m + 1, 0);
    } else {
      DivModUnique(m, x / m, x % m + 1);
    }
  }

  lemma {:induction false} PlaceAdd(n: nat, head: nat, p: nat, i: nat, j: nat)
    requires head < n && p < n
    ensures Place(n, head, Place(n, head, p, i), j) == Place(n, head, p, i + j)
    decreases j
  {
    hide Wrap;
    if j == 0 {
    } else {
      PlaceAdd(n, head, p, i, j - 1);
    }
  }

  lemma {:induction false} ReplayNextIsPlace(n: nat, head: nat, p: nat, j: nat)
    requires head < n && p < n
    ensures ReplayNext(n, head, p, j) == Place(n, head, p, j + 1)
  {
    hide Wrap;
    if j == 0 {
      assert Place(n, head, p, 0) == p;
    } else {
      ReplayNextIsPlace(n, head, p, j - 1);
    }
  }

  /** The copies of a descriptor at place `p`: its block number `i` gets the log block i + 1 places on. */
  function DescriptorWrites(log: seq<Block>, head: nat, p: nat, targets: seq<DWord>): (w: seq<Write>)
    requires head < |log| && p < |log|
    ensures |w| == |targets|
  {
    seq(|targets|, i requires 0 <= i < |targets| => Write(targets[i], log[Place(|log|, head, p, i + 1)]))
  }

  /** JournalCountTags and JournalReplayBlocks on a descriptor as the commit code makes it. */
  method ReplayDescriptor(j: Journal, p: nat, ghost id: DWord, ghost targets: seq<DWord>, ghost uuid: seq<byte>,
                          ghost pad: seq<byte>) returns (num: nat, next: nat)
    requires OnDevice(j.dev, j.logMap) && j.head < |j.logMap| && p < |j.logMap| && targets != [] && |uuid| == 16
    requires j.dev[j.logMap[p]] == Descriptor(id, targets, uuid, pad)
    requires forall t :: t in targets ==> t !in j.logMap
    modifies j`dev
    ensures num == |targets| && next == Place(|j.logMap|, j.head, p, |targets| + 1)
    ensures OnDevice(old(j.dev), j.logMap)
    ensures j.dev == Apply(old(j.dev), DescriptorWrites(Log(old(j.dev), j.logMap), j.head, p, targets))
  {
    hide Place, ReplayNext, Apply, Targets, Descriptor, TagCount, IsDescriptor, Stops, NextId, Wrap;
    var b := j.dev[j.logMap[p]];
    ghost var log := Log(j.dev, j.logMap);
    DescriptorRead(id, targets, uuid, pad);
    num := CountTags(b);
    ghost var w := Copies(log, j.head, p, targets);
    forall i | 0 <= i < |w| ensures w[i] == DescriptorWrites(log, j.head, p, targets)[i] && w[i].target in targets {
      ReplayNextIsPlace(|log|, j.head, p, i);
    }
    assert w == DescriptorWrites(log, j.head, p, targets);
    ReplayNextIsPlace(|log|, j.head, p, |targets|);
    FirstBehind(|log|, j.head, p);
    next := j.ReplayBlocks(b, p, Wrap(|j.logMap|, j.head, p + 1));
  }

  lemma FirstBehind(n: nat, head: nat, p: nat)
    requires head < n && p < n
    ensures ReplayNext(n, head, p, 0) == Wrap(n, head, p + 1)
  {
  }

  // ---- Transactions in the log ----

  /** A transaction: the blocks it changes with their new contents, and what fills up its records. */
  datatype Transaction = Transaction(targets: seq<DWord>, data: seq<Block>, pad: seq<byte>, endPad: seq<byte>) {
    predicate Valid() { targets != [] && |targets| == |data| }

    /** Its blocks in the log: descriptor, logged blocks, commit block. */
    function Records(id: DWord, uuid: seq<byte>): (r: seq<Block>)
      requires Valid()
      ensures |r| == |data| + 2
    {
      [Descriptor(id, targets, uuid, pad)] + data + [Commit(id, endPad)]
    }

    function Writes(): (w: seq<Write>)
      requires Valid()
      ensures |w| == |targets|
    {
      seq(|targets|, i requires 0 <= i < |targets| => Write(targets[i], data[i]))
    }
  }

  function NextDWord(id: DWord): (r: DWord) { (id + 1) % 0x1_0000_0000 }

  ghost predicate AllValid(ts: seq<Transaction>) {
    forall i :: 0 <= i < |ts| ==> ts[i].Valid()
  }

  /** The records of transactions with consecutive ids. */
  function Records(ts: seq<Transaction>, id: DWord, uuid: seq<byte>): (r: seq<Block>)
    requires AllValid(ts)
  {
    if ts == [] then [] else ts[0].Records(id, uuid) + Records(ts[1..], NextDWord(id), uuid)
  }

  function AllWrites(ts: seq<Transaction>): (w: seq<Write>)
    requires AllValid(ts)
  {
    if ts == [] then [] else ts[0].Writes() + AllWrites(ts[1..])
  }

  function LastId(ts: seq<Transaction>, id: DWord): (r: DWord)
    decreases |ts|
  {
    if ts == [] then id else LastId(ts[1..], NextDWord(id))
  }

  lemma {:induction false} LastIdCounts(ts: seq<Transaction>, id: DWord)
    ensures LastId(ts, id) == (id + |ts|) % 0x1_0000_0000
    decreases |ts|
  {
    if ts == [] {
    } else {
      LastIdCounts(ts[1..], NextDWord(id));
    }
  }

  /** The log holds `r` from place `p` on, around its end. */
  ghost predicate HoldsFrom(log: seq<Block>, head: nat, p: nat, r: seq<Block>)
    requires head < |log| && p < |log|
  {
    forall j :: 0 <= j < |r| ==> log[Place(|log|, head, p, j)] == r[j]
  }

  lemma HoldsLater(log: seq<Block>, head: nat, p: nat, r: seq<Block>, s: seq<Block>)
    requires head < |log| && p < |log| && HoldsFrom(log, head, p, r + s)
    ensures HoldsFrom(log, head, p, r) && HoldsFrom(log, head, Place(|log|, head, p, |r|), s)
  {
    hide Place;
    forall j | 0 <= j < |r| ensures log[Place(|log|, head, p, j)] == r[j] {
      assert (r + s)[j] == r[j];
    }
    forall j | 0 <= j < |s| ensures log[Place(|log|, head, Place(|log|, head, p, |r|), j)] == s[j] {
      PlaceAdd(|log|, head, p, |r|, j);
      assert (r + s)[|r| + j] == s[j];
    }
  }

  /** The two turns of the pass over one transaction. */
  lemma TransactionTurns(log: seq<Block>, head: nat, p: nat, t: Transaction, id: DWord, uuid: seq<byte>)
    requires GoodLog(log, head) && p < |log| && t.Valid() && |uuid| == 16
    requires HoldsFrom(log, head, p, t.Records(id, uuid))
    ensures var c := Cursor(p, id);
      var d := Turn(log, head, c);
      && !StopsAt(log, c) && CopiesAt(log, head, p) == t.Writes()
      && !StopsAt(log, d) && CopiesAt(log, head, d.pos) == []
      && Turn(log, head, d) == Cursor(Place(|log|, head, p, |t.data| + 2), NextDWord(id))
  {
    hide Place, ReplayNext, Wrap, Targets, Header, Tags, Stops, Descriptor, Commit, IsDescriptor, NextId;
    var r, k := t.Records(id, uuid), |t.data|;
    assert log[Place(|log|, head, p, 0)] == r[0];
    PlaceZero(|log|, head, p);
    DescriptorRead(id, t.targets, uuid, t.pad);
    CopiesAreWrites(log, head, p, t, id, uuid);
    ReplayNextIsPlace(|log|, head, p, k);
    var d := Turn(log, head, Cursor(p, id));
    assert log[d.pos] == r[k + 1];
    CommitRead(id, t.endPad);
    ReplayNextIsPlace(|log|, head, d.pos, 0);
    PlaceAdd(|log|, head, p, k + 1, 1);
  }

  lemma PlaceZero(n: nat, head: nat, p: nat)
    requires head < n && p < n
    ensures Place(n, head, p, 0) == p
  {
  }

  lemma CopiesAreWrites(log: seq<Block>, head: nat, p: nat, t: Transaction, id: DWord, uuid: seq<byte>)
    requires GoodLog(log, head) && p < |log| && t.Valid() && HoldsFrom(log, head, p, t.Records(id, uuid))
    ensures Copies(log, head, p, t.targets) == t.Writes()
  {
    hide Place, ReplayNext, Descriptor, Commit;
    var w, c, r := t.Writes(), Copies(log, head, p, t.targets), t.Records(id, uuid);
    forall i | 0 <= i < |w| ensures c[i] == w[i] {
      ReplayNextIsPlace(|log|, head, p, i);
      assert log[Place(|log|, head, p, i + 1)] == r[i + 1] == t.data[i];
    }
  }

  /** What a pass finds in a log of committed transactions: it ends behind the last one, it copies their
      blocks in order, and it counts them. */
  lemma {:induction false} TransactionsReplayed(log: seq<Block>, head: nat, p: nat, ts: seq<Transaction>, id: DWord,
                                                uuid: seq<byte>)
    requires GoodLog(log, head) && p < |log| && AllValid(ts) && |uuid| == 16
    requires HoldsFrom(log, head, p, Records(ts, id, uuid))
    requires StopsAt(log, Cursor(Place(|log|, head, p, |Records(ts, id, uuid)|), LastId(ts, id)))
    ensures var c, n := Cursor(p, id), 2 * |ts|;
      && Ends(log, head, c, n) && Replayed(log, head, c, n) == AllWrites(ts) && EndId(log, head, c, n) == LastId(ts, id)
    decreases |ts|
  {
    hide Place, HoldsFrom, StopsAt, CopiesAt, Turn, Transaction.Records, Transaction.Writes;
    var c := Cursor(p, id);
    if ts == [] {
      PlaceZero(|log|, head, p);
      PassStops(log, head, c, 0);
    } else {
      var t, rest, k := ts[0], Records(ts[1..], NextDWord(id), uuid), |ts[0].data| + 2;
      HoldsLater(log, head, p, t.Records(id, uuid), rest);
      TransactionTurns(log, head, p, t, id, uuid);
      PlaceAdd(|log|, head, p, k, |rest|);
      TransactionsReplayed(log, head, Place(|log|, head, p, k), ts[1..], NextDWord(id), uuid);
      var d := Turn(log, head, c);
      var n := 2 * |ts|;
      assert Ends(log, head, Turn(log, head, d), n - 2) && Ends(log, head, d, n - 1) && Ends(log, head, c, n);
      PassStep(log, head, c, n);
      PassStep(log, head, d, n - 1);
    }
  }

  /** A pass that ends does the same whatever the bound on its turns is. */
  lemma {:induction false} AnyBound(log: seq<Block>, head: nat, c: Cursor, n: nat, m: nat)
    requires GoodLog(log, head) && c.pos < |log| && Ends(log, head, c, n) && Ends(log, head, c, m)
    ensures Replayed(log, head, c, n) == Replayed(log, head, c, m) && EndId(log, head, c, n) == EndId(log, head, c, m)
    decreases n
  {
    hide StopsAt, CopiesAt, Turn;
    if StopsAt(log, c) {
      PassStops(log, head, c, n);
      PassStops(log, head, c, m);
    } else {
      PassStep(log, head, c, n);
      PassStep(log, head, c, m);
      AnyBound(log, head, Turn(log, head, c), n - 1, m - 1);
    }
  }

  /** JournalRecover on a log of committed transactions: unless the scan leaves the log, every block that
      they changed gets its logged contents, in the order of the transactions, and nothing else changes. */
  method RecoverTransactions(j: Journal, ghost ts: seq<Transaction>, ghost uuid: seq<byte>) returns (left: bool)
    requires OnDevice(j.dev, j.logMap) && j.head < |j.logMap| && 0 < j.start < |j.logMap|
    requires j.sequence < 0x1_0000_0000 && AllValid(ts) && |uuid| == 16
    requires var log := Log(j.dev, j.logMap);
      && HoldsFrom(log, j.head, j.start, Records(ts, j.sequence, uuid))
      && StopsAt(log, Cursor(Place(|log|, j.head, j.start, |Records(ts, j.sequence, uuid)|), LastId(ts, j.sequence)))
    requires Outside(AllWrites(ts), j.logMap)
    modifies j
    ensures !left ==>
      && j.dev == Apply(old(j.dev), AllWrites(ts))
      && j.transSequence == (j.sequence + |ts|) % 0x1_0000_0000
  {
    hide Place, HoldsFrom, StopsAt, Replayed, EndId, Records, AllWrites, Apply, LastId, Ends;
    ghost var log, c := Log(j.dev, j.logMap), Cursor(j.start, j.sequence);
    TransactionsReplayed(log, j.head, j.start, ts, j.sequence, uuid);
    EndsWithinLog(log, j.head, c, 2 * |ts|);
    AnyBound(log, j.head, c, 2 * |ts|, |log|);
    LastIdCounts(ts, j.sequence);
    left := j.Recover();
  }

  /** A block that several copies go to ends up with the contents of the last one. */
  lemma {:induction false} LastCopyWins(dev: Device, w: seq<Write>, i: nat)
    requires i < |w| && forall k :: i < k < |w| ==> w[k].target != w[i].target
    ensures w[i].target in Apply(dev, w) && Apply(dev, w)[w[i].target] == w[i].data
  {
    if i < |w| - 1 {
      LastCopyWins(dev, w[..|w| - 1], i);
    }
  }
}
