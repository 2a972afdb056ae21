/**
 Journal recovery (fs/journal/recovery.c): a scan pass and a replay pass over the log. Each log
 position lives in some block of the device; replay copies logged blocks to the blocks that the
 descriptors' tags name.
 */
module JournalRecovery {
  import opened Bytes
  import opened Sequences

  type Block = seq<byte>
  type Device = map<nat, Block>

  const JFS_MAGIC := 0xC03B3998
  const JFS_DESC_BLOCK := 1
  const JFS_COMMIT_BLOCK := 2
  const HEADER_SIZE := 12
  const TAG_SIZE := 8

  /** The flag byte of a tag, and the two flags that recovery looks at. */
  predicate SameUuid(b: Block, o: nat)
    requires o + TAG_SIZE <= |b|
  {
    b[o + 7] / 2 % 2 == 1
  }

  predicate LastTag(b: Block, o: nat)
    requires o + TAG_SIZE <= |b|
  {
    b[o + 7] / 8 % 2 == 1
  }

  function NextTag(b: Block, o: nat): (n: nat)
    requires o + TAG_SIZE <= |b|
  {
    o + TAG_SIZE + if SameUuid(b, o) then 0 else 16
  }

  /** The device blocks that the tags of a descriptor name, from offset `o` on. */
  function Targets(b: Block, o: nat): (t: seq<nat>)
    decreases |b| - o
  {
    if o + TAG_SIZE > |b| then []
    else [Be32(b, o)] + if LastTag(b, o) then [] else Targets(b, NextTag(b, o))
  }

  /** JournalCountTags counts the tags that JournalReplayBlocks will follow. */
  method CountTags(b: Block) returns (num: nat)
    ensures num == |Targets(b, HEADER_SIZE)|
  {
    num := 0;
    var o := HEADER_SIZE;
    while o + TAG_SIZE <= |b|
      invariant |Targets(b, HEADER_SIZE)| == num + |Targets(b, o)|
      decreases |b| - o
    {
      num := num + 1;
      var last := LastTag(b, o);
      o := NextTag(b, o);
      if last {
        break;
      }
    }
  }

  /** One copy that replay makes. */
  datatype Write = Write(target: nat, data: Block)

  predicate WellSized(log: seq<Block>) {
    forall p :: 0 <= p < |log| ==> HEADER_SIZE <= |log[p]|
  }

  /** The pass stops at a block without the magic number or with another sequence number. */
  predicate Stops(b: Block, id: nat)
    requires HEADER_SIZE <= |b|
  {
    Be32(b, 0) != JFS_MAGIC || Be32(b, 8) != id
  }

  predicate IsDescriptor(b: Block)
    requires HEADER_SIZE <= |b|
  {
    Be32(b, 4) == JFS_DESC_BLOCK
  }

  function NextId(b: Block, id: nat): (n: nat)
    requires HEADER_SIZE <= |b|
  {
    if Be32(b, 4) == JFS_COMMIT_BLOCK then (id + 1) % 0x1_0000_0000 else id
  }

  /** The number of log blocks behind `b` that belong to it. */
  function TagCount(b: Block): (n: nat)
    requires HEADER_SIZE <= |b|
  {
    if IsDescriptor(b) then |Targets(b, HEADER_SIZE)| else 0
  }

  // ---- Positions of the circular log ----

  /** The JournalWrap macro: behind the last block the log goes on at `head`. */
  function Wrap(maxLength: nat, head: nat, p: nat): (q: nat)
    requires head <= maxLength
  {
    if p >= maxLength then p - (maxLength - head) else p
  }

  /** Where the scan pass goes on after a descriptor with `n` tags: it wraps once, then adds. */
  function ScanNext(maxLength: nat, head: nat, p: nat, n: nat): (q: nat)
    requires head <= maxLength
  {
    Wrap(maxLength, head, p + 1) + n
  }

  /** Where the replay pass is after `n` tags of a descriptor at `p`: it wraps after every block. */
  function ReplayNext(maxLength: nat, head: nat, p: nat, n: nat): (q: nat)
    requires head < maxLength && p < maxLength
    ensures q < maxLength
  {
    if n == 0 then Wrap(maxLength, head, p + 1)
    else Wrap(maxLength, head, ReplayNext(maxLength, head, p, n - 1) + 1)
  }

  lemma {:induction false} ReplayNextStraight(maxLength: nat, head: nat, p: nat, n: nat)
    requires head < maxLength && p < maxLength && Wrap(maxLength, head, p + 1) + n < maxLength
    ensures ReplayNext(maxLength, head, p, n) == Wrap(maxLength, head, p + 1) + n
  {
    if n == 0 {
    } else {
      ReplayNextStraight(maxLength, head, p, n - 1);
    }
  }

  /** After one descriptor the two passes go on at the same position if and only if its tagged blocks
      do not run over the end of the log. */
  lemma PassesAgreeIff(maxLength: nat, head: nat, p: nat, n: nat)
    requires head < maxLength && p < maxLength
    ensures ScanNext(maxLength, head, p, n) == ReplayNext(maxLength, head, p, n)
       <==> n == 0 || Wrap(maxLength, head, p + 1) + n < maxLength
  {
    if Wrap(maxLength, head, p + 1) + n < maxLength {
      ReplayNextStraight(maxLength, head, p, n);
    }
  }

  // ---- The replay pass ----

  predicate GoodLog(log: seq<Block>, head: nat) {
    head < |log| && WellSized(log)
  }

  /** A position of the log and the commit id looked for there. */
  datatype Cursor = Cursor(pos: nat, id: nat)

  predicate StopsAt(log: seq<Block>, c: Cursor)
    requires WellSized(log) && c.pos < |log|
  {
    Stops(log[c.pos], c.id)
  }

  /** One turn of the replay pass. */
  function Turn(log: seq<Block>, head: nat, c: Cursor): (r: Cursor)
    requires GoodLog(log, head) && c.pos < |log|
    ensures r.pos < |log|
  {
    Cursor(ReplayNext(|log|, head, c.pos, TagCount(log[c.pos])), NextId(log[c.pos], c.id))
  }

  /** The pass stops after at most `n` turns. */
  predicate Ends(log: seq<Block>, head: nat, c: Cursor, n: nat)
    requires GoodLog(log, head) && c.pos < |log|
    decreases n
  {
    StopsAt(log, c) || (n > 0 && Ends(log, head, Turn(log, head, c), n - 1))
  }

  /** The descriptor positions that a pass visits, in order. */
  function Visited(log: seq<Block>, head: nat, c: Cursor, n: nat): (v: seq<nat>)
    requires GoodLog(log, head) && c.pos < |log| && Ends(log, head, c, n)
    ensures forall q :: q in v ==> q < |log| && IsDescriptor(log[q])
    decreases n
  {
    if StopsAt(log, c) then []
    else (if IsDescriptor(log[c.pos]) then [c.pos] else []) + Visited(log, head, Turn(log, head, c), n - 1)
  }

  /** The first commit id that a pass does not find. */
  function EndId(log: seq<Block>, head: nat, c: Cursor, n: nat): (e: nat)
    requires GoodLog(log, head) && c.pos < |log| && Ends(log, head, c, n)
    decreases n
  {
    if StopsAt(log, c) then c.id else EndId(log, head, Turn(log, head, c), n - 1)
  }

  /** The copies for one descriptor at `p`: each tag gets the next log block, in the circle. */
  function Copies(log: seq<Block>, head: nat, p: nat, targets: seq<nat>): (w: seq<Write>)
    requires head < |log| && p < |log|
    ensures |w| == |targets|
  {
    seq(|targets|, i requires 0 <= i < |targets| => Write(targets[i], log[ReplayNext(|log|, head, p, i)]))
  }

  function CopiesAt(log: seq<Block>, head: nat, p: nat): (w: seq<Write>)
    requires GoodLog(log, head) && p < |log|
  {
    if IsDescriptor(log[p]) then Copies(log, head, p, Targets(log[p], HEADER_SIZE)) else []
  }

  /** All copies that replay makes, in order. */
  function Replayed(log: seq<Block>, head: nat, c: Cursor, n: nat): (w: seq<Write>)
    requires GoodLog(log, head) && c.pos < |log| && Ends(log, head, c, n)
    decreases n
  {
    if StopsAt(log, c) then [] else CopiesAt(log, head, c.pos) + Replayed(log, head, Turn(log, head, c), n - 1)
  }

  // ---- How long a pass lasts ----

  /** Where the pass is after k turns. */
  function After(log: seq<Block>, head: nat, c: Cursor, k: nat): (r: Cursor)
    requires GoodLog(log, head) && c.pos < |log|
    ensures r.pos < |log|
  {
    if k == 0 then c else Turn(log, head, After(log, head, c, k - 1))
  }

  lemma {:induction false} AfterTurn(log: seq<Block>, head: nat, c: Cursor, k: nat)
    requires GoodLog(log, head) && c.pos < |log|
    ensures After(log, head, Turn(log, head, c), k) == After(log, head, c, k + 1)
  {
    hide Turn;
    if k == 0 {
      assert After(log, head, c, 1) == Turn(log, head, After(log, head, c, 0));
    } else {
      AfterTurn(log, head, c, k - 1);
    }
  }

  lemma {:induction false} AfterAdd(log: seq<Block>, head: nat, c: Cursor, i: nat, j: nat, t: nat)
    requires GoodLog(log, head) && c.pos < |log| && After(log, head, c, i) == After(log, head, c, j)
    ensures After(log, head, c, i + t) == After(log, head, c, j + t)
  {
    hide Turn;
    if t == 0 {
    } else {
      AfterAdd(log, head, c, i, j, t - 1);
    }
  }

  /** The pass has stopped exactly when one of its first n turns reached a block that stops it. */
  lemma {:induction false} EndsIsAfter(log: seq<Block>, head: nat, c: Cursor, n: nat)
    requires GoodLog(log, head) && c.pos < |log|
    ensures Ends(log, head, c, n) <==> exists k: nat :: k <= n && StopsAt(log, After(log, head, c, k))
    decreases n
  {
    hide Turn, StopsAt;
    if StopsAt(log, c) {
      assert After(log, head, c, 0) == c;
    } else if n > 0 {
      var d := Turn(log, head, c);
      EndsIsAfter(log, head, d, n - 1);
      if k: nat :| k <= n - 1 && StopsAt(log, After(log, head, d, k)) {
        AfterTurn(log, head, c, k);
      }
      if k: nat :| k <= n && StopsAt(log, After(log, head, c, k)) {
        assert k > 0;
        AfterTurn(log, head, c, k - 1);
        assert StopsAt(log, After(log, head, d, k - 1));
      }
    }
  }

  /** A pass cannot be at a position twice: the block there names one commit id, so the pass would
      be in the same state and go round for ever. */
  lemma NoReturn(log: seq<Block>, head: nat, c: Cursor, i: nat, j: nat, k: nat)
    requires GoodLog(log, head) && c.pos < |log| && i < j < k
    requires StopsAt(log, After(log, head, c, k))
    requires forall t: nat :: t < k ==> !StopsAt(log, After(log, head, c, t))
    ensures After(log, head, c, i).pos != After(log, head, c, j).pos
  {
    hide After, Turn, Be32;
    if After(log, head, c, i).pos == After(log, head, c, j).pos {
      assert !StopsAt(log, After(log, head, c, i)) && !StopsAt(log, After(log, head, c, j));
      AfterAdd(log, head, c, i, j, k - j);
    }
  }

  /** A pass ends at all if and only if it ends within as many turns as the log has blocks. */
  lemma EndsWithinLog(log: seq<Block>, head: nat, c: Cursor, n: nat)
    requires GoodLog(log, head) && c.pos < |log| && Ends(log, head, c, n)
    ensures Ends(log, head, c, |log|)
  {
    hide Turn, StopsAt, Ends;
    EndsIsAfter(log, head, c, n);
    var k: nat :| k <= n && StopsAt(log, After(log, head, c, k));
    k := FirstStop(log, head, c, k);
    var s: seq<nat> := seq(k, t requires 0 <= t < k => After(log, head, c, t).pos);
    forall i, j | 0 <= i < j < |s| ensures s[i] != s[j] {
      NoReturn(log, head, c, i, j, k);
    }
    DistinctBelow(s, |log|);
    EndsIsAfter(log, head, c, |log|);
  }

  lemma {:induction false} FirstStop(log: seq<Block>, head: nat, c: Cursor, k: nat) returns (m: nat)
    requires GoodLog(log, head) && c.pos < |log| && StopsAt(log, After(log, head, c, k))
    ensures m <= k && StopsAt(log, After(log, head, c, m))
    ensures forall t: nat :: t < m ==> !StopsAt(log, After(log, head, c, t))
  {
    hide After, StopsAt;
    if t: nat :| t < k && StopsAt(log, After(log, head, c, t)) {
      m := FirstStop(log, head, c, t);
    } else {
      m := k;
    }
  }

  /** The device after some copies. */
  function Apply(dev: Device, w: seq<Write>): (r: Device)
    ensures dev.Keys <= r.Keys
  {
    if w == [] then dev else Apply(dev, w[..|w| - 1])[w[|w| - 1].target := w[|w| - 1].data]
  }

  /** The log as it lies on the device. */
  function Log(dev: Device, logMap: seq<nat>): (log: seq<Block>)
    requires OnDevice(dev, logMap)
  {
    seq(|logMap|, p requires 0 <= p < |logMap| => dev[logMap[p]])
  }

  predicate OnDevice(dev: Device, logMap: seq<nat>) {
    forall p :: 0 <= p < |logMap| ==> logMap[p] in dev && HEADER_SIZE <= |dev[logMap[p]]|
  }

  /** No copy goes to a block of the log. */
  predicate Outside(w: seq<Write>, logMap: seq<nat>) {
    forall i :: 0 <= i < |w| ==> w[i].target !in logMap
  }

  /** The log is on the device, the pass over it comes to an end, and the superblock points into it. */
  predicate Readable(dev: Device, logMap: seq<nat>, head: nat, c: Cursor) {
    && OnDevice(dev, logMap) && head < |logMap| && c.pos < |logMap|
    && Ends(Log(dev, logMap), head, c, |logMap|)
  }

  /** The copies that recovery makes on a device. */
  function Writes(dev: Device, logMap: seq<nat>, head: nat, c: Cursor): (w: seq<Write>)
    requires Readable(dev, logMap, head, c)
  {
    Replayed(Log(dev, logMap), head, c, |logMap|)
  }

  /** A log that recovery can work on: its tags name blocks outside the log. */
  predicate Recoverable(dev: Device, logMap: seq<nat>, head: nat, c: Cursor) {
    Readable(dev, logMap, head, c) && Outside(Writes(dev, logMap, head, c), logMap)
  }

  /** What recovery makes of a device. */
  function Recovered(dev: Device, logMap: seq<nat>, head: nat, c: Cursor): (r: Device)
    requires Recoverable(dev, logMap, head, c)
  {
    Apply(dev, Writes(dev, logMap, head, c))
  }

  ghost function TargetSet(w: seq<Write>): (t: set<nat>) {
    set i | 0 <= i < |w| :: w[i].target
  }

  /** Two devices that agree except on some blocks. */
  ghost predicate AgreeOff(dev: Device, dev': Device, off: set<nat>) {
    forall b :: b !in off ==> (b in dev <==> b in dev') && (b in dev ==> dev'[b] == dev[b])
  }

  lemma {:induction false} ApplyTouches(dev: Device, w: seq<Write>)
    ensures AgreeOff(dev, Apply(dev, w), TargetSet(w))
  {
    if w == [] {
    } else {
      ApplyTouches(dev, w[..|w| - 1]);
      assert TargetSet(w[..|w| - 1]) <= TargetSet(w);
      assert w[|w| - 1].target in TargetSet(w);
    }
  }

  /** Applying all copies overwrites whatever their targets held. */
  lemma {:induction false} ApplyAbsorbs(dev: Device, dev': Device, off: set<nat>, w: seq<Write>)
    requires AgreeOff(dev, dev', off)
    ensures AgreeOff(Apply(dev, w), Apply(dev', w), off - TargetSet(w))
  {
    if w == [] {
    } else {
      var front, last := w[..|w| - 1], w[|w| - 1];
      ApplyAbsorbs(dev, dev', off, front);
      assert TargetSet(w) == TargetSet(front) + {last.target};
    }
  }

  lemma AgreeOnLog(dev: Device, dev': Device, off: set<nat>, logMap: seq<nat>)
    requires OnDevice(dev, logMap) && AgreeOff(dev, dev', off)
    requires forall p :: 0 <= p < |logMap| ==> logMap[p] !in off
    ensures OnDevice(dev', logMap) && Log(dev', logMap) == Log(dev, logMap)
  {
  }

  /** Crash safety. Whatever state the targets of the copies are in (none, some or all of them
      written, in any order, or torn), recovery ends with the same device. */
  lemma CrashSafe(dev: Device, dev': Device, logMap: seq<nat>, head: nat, c: Cursor)
    requires Recoverable(dev, logMap, head, c)
    requires AgreeOff(dev, dev', TargetSet(Writes(dev, logMap, head, c)))
    ensures Recoverable(dev', logMap, head, c)
    ensures Recovered(dev', logMap, head, c) == Recovered(dev, logMap, head, c)
  {
    hide Ends, Replayed, Apply;
    var w := Writes(dev, logMap, head, c);
    AgreeOnLog(dev, dev', TargetSet(w), logMap);
    ApplyAbsorbs(dev, dev', TargetSet(w), w);
    assert TargetSet(w) - TargetSet(w) == {};
    AgreeEverywhere(Apply(dev, w), Apply(dev', w));
  }

  lemma AgreeEverywhere(dev: Device, dev': Device)
    requires AgreeOff(dev, dev', {})
    ensures dev == dev'
  {
  }

  /** A run that crashed after the first `k` copies. */
  lemma CrashAfterPrefix(dev: Device, logMap: seq<nat>, head: nat, c: Cursor, k: nat)
    requires Recoverable(dev, logMap, head, c) && k <= |Writes(dev, logMap, head, c)|
    ensures var dev' := Apply(dev, Writes(dev, logMap, head, c)[..k]);
      Recoverable(dev', logMap, head, c) && Recovered(dev', logMap, head, c) == Recovered(dev, logMap, head, c)
  {
    hide Ends, Replayed, Apply;
    var w := Writes(dev, logMap, head, c);
    var dev' := Apply(dev, w[..k]);
    ApplyTouches(dev, w[..k]);
    assert TargetSet(w[..k]) <= TargetSet(w);
    assert AgreeOff(dev, dev', TargetSet(w));
    CrashSafe(dev, dev', logMap, head, c);
  }

  /** The device after a series of recovery attempts, attempt i crashing after ks[i] copies. */
  function Attempts(dev: Device, logMap: seq<nat>, head: nat, c: Cursor, ks: seq<nat>): (r: Device)
    requires Recoverable(dev, logMap, head, c)
    ensures Recoverable(r, logMap, head, c)
    ensures Recovered(r, logMap, head, c) == Recovered(dev, logMap, head, c)
  {
    if ks == [] then dev
    else
      var d := Attempts(dev, logMap, head, c, ks[..|ks| - 1]);
      var w := Writes(d, logMap, head, c);
      var k := if ks[|ks| - 1] <= |w| then ks[|ks| - 1] else |w|;
      CrashAfterPrefix(d, logMap, head, c, k);
      Apply(d, w[..k])
  }

  /** Recovering a recovered device changes nothing. */
  lemma RecoverTwice(dev: Device, logMap: seq<nat>, head: nat, c: Cursor)
    requires Recoverable(dev, logMap, head, c)
    ensures var r := Recovered(dev, logMap, head, c);
      Recoverable(r, logMap, head, c) && Recovered(r, logMap, head, c) == r
  {
    hide Ends, Replayed, Apply;
    var w := Writes(dev, logMap, head, c);
    assert w[..|w|] == w;
    CrashAfterPrefix(dev, logMap, head, c, |w|);
  }

  // ---- Steps of a pass ----

  /** One turn of a pass that does not stop. */
  lemma PassStep(log: seq<Block>, head: nat, c: Cursor, n: nat)
    requires GoodLog(log, head) && c.pos < |log| && Ends(log, head, c, n) && !StopsAt(log, c)
    ensures n > 0 && Ends(log, head, Turn(log, head, c), n - 1)
    ensures var d := Turn(log, head, c);
      && Visited(log, head, c, n) == (if IsDescriptor(log[c.pos]) then [c.pos] else []) + Visited(log, head, d, n - 1)
      && EndId(log, head, c, n) == EndId(log, head, d, n - 1)
      && Replayed(log, head, c, n) == CopiesAt(log, head, c.pos) + Replayed(log, head, d, n - 1)
  {
    hide Turn, StopsAt, CopiesAt, IsDescriptor;
  }

  lemma PassStops(log: seq<Block>, head: nat, c: Cursor, n: nat)
    requires GoodLog(log, head) && c.pos < |log| && Ends(log, head, c, n) && StopsAt(log, c)
    ensures Visited(log, head, c, n) == [] && EndId(log, head, c, n) == c.id && Replayed(log, head, c, n) == []
    ensures NoneRunsOver(log, head, c, n)
  {
    hide Turn, StopsAt;
  }

  // ---- The two passes over a whole log ----

  /** The tagged blocks of the descriptor at `p` run over the end of the log. */
  predicate RunsOver(log: seq<Block>, head: nat, p: nat)
    requires GoodLog(log, head) && p < |log|
  {
    TagCount(log[p]) > 0 && Wrap(|log|, head, p + 1) + TagCount(log[p]) >= |log|
  }

  /** No descriptor that the replay pass visits runs over the end. */
  predicate NoneRunsOver(log: seq<Block>, head: nat, c: Cursor, n: nat)
    requires GoodLog(log, head) && c.pos < |log| && Ends(log, head, c, n)
  {
    forall q :: q in Visited(log, head, c, n) ==> !RunsOver(log, head, q)
  }

  /** The positions that the replay pass reads a header at, up to the one where it stops. */
  function ReplayPath(log: seq<Block>, head: nat, c: Cursor, n: nat): (s: seq<nat>)
    requires GoodLog(log, head) && c.pos < |log| && Ends(log, head, c, n)
    decreases n
  {
    if StopsAt(log, c) then [c.pos] else [c.pos] + ReplayPath(log, head, Turn(log, head, c), n - 1)
  }

  /** The same for the scan pass. It ends too where the scan leaves the log. */
  function ScanPath(log: seq<Block>, head: nat, c: Cursor, n: nat): (s: seq<nat>)
    requires GoodLog(log, head)
    decreases n
  {
    if n == 0 || c.pos >= |log| || StopsAt(log, c) then [c.pos]
    else
      [c.pos] + ScanPath(log, head,
                         Cursor(ScanNext(|log|, head, c.pos, TagCount(log[c.pos])), NextId(log[c.pos], c.id)), n - 1)
  }

  /** The passes read the same positions, wrapping around the log where it ends, if and only if no
      descriptor's tagged blocks run over the end. */
  lemma {:induction false} PathsAgreeIff(log: seq<Block>, head: nat, c: Cursor, n: nat)
    requires GoodLog(log, head) && c.pos < |log| && Ends(log, head, c, n)
    ensures ScanPath(log, head, c, n) == ReplayPath(log, head, c, n) <==> NoneRunsOver(log, head, c, n)
    decreases n
  {
    hide TagCount, NextId, StopsAt, ReplayNext, Wrap, IsDescriptor;
    if StopsAt(log, c) {
      PassStops(log, head, c, n);
    } else {
      PassStep(log, head, c, n);
      var count := TagCount(log[c.pos]);
      var d, e := Turn(log, head, c), Cursor(ScanNext(|log|, head, c.pos, count), NextId(log[c.pos], c.id));
      PassesAgreeIff(|log|, head, c.pos, count);
      OnlyDescriptorsRun(log, head, c.pos);
      PathStarts(log, head, d, n - 1);
      PathStarts(log, head, e, n - 1);
      var scan, replay := ScanPath(log, head, e, n - 1), ReplayPath(log, head, d, n - 1);
      assert ([c.pos] + scan)[1..] == scan && ([c.pos] + replay)[1..] == replay;
      NoneRunsOverStep(log, head, c, n);
      if RunsOver(log, head, c.pos) {
        assert scan[0] != replay[0];
      } else {
        assert d == e;
        PathsAgreeIff(log, head, d, n - 1);
      }
    }
  }

  lemma OnlyDescriptorsRun(log: seq<Block>, head: nat, p: nat)
    requires GoodLog(log, head) && p < |log|
    ensures RunsOver(log, head, p) ==> IsDescriptor(log[p])
    ensures RunsOver(log, head, p) <==>
      !(TagCount(log[p]) == 0 || Wrap(|log|, head, p + 1) + TagCount(log[p]) < |log|)
  {
  }

  lemma PathStarts(log: seq<Block>, head: nat, c: Cursor, n: nat)
    requires GoodLog(log, head)
    ensures |ScanPath(log, head, c, n)| > 0 && ScanPath(log, head, c, n)[0] == c.pos
    ensures c.pos < |log| && Ends(log, head, c, n) ==>
      |ReplayPath(log, head, c, n)| > 0 && ReplayPath(log, head, c, n)[0] == c.pos
  {
    hide TagCount, NextId, StopsAt, Turn;
  }

  lemma NoneRunsOverStep(log: seq<Block>, head: nat, c: Cursor, n: nat)
    requires GoodLog(log, head) && c.pos < |log| && Ends(log, head, c, n) && !StopsAt(log, c)
    ensures n > 0 && Ends(log, head, Turn(log, head, c), n - 1)
    ensures NoneRunsOver(log, head, c, n) <==>
      !RunsOver(log, head, c.pos) && NoneRunsOver(log, head, Turn(log, head, c), n - 1)
  {
    hide Turn, StopsAt, IsDescriptor, Visited, Ends, RunsOver;
    PassStep(log, head, c, n);
    OnlyDescriptorsRun(log, head, c.pos);
    var v, v' := Visited(log, head, c, n), Visited(log, head, Turn(log, head, c), n - 1);
    if IsDescriptor(log[c.pos]) {
      assert c.pos in v && forall q :: q in v <==> q == c.pos || q in v';
    } else {
      assert v == v';
    }
  }

  // ---- Committed and uncommitted copies ----

  /** The copies that a commit block follows, the copies after the last commit block, and whether
      there was a commit block. */
  datatype Parts = Parts(committed: seq<Write>, tail: seq<Write>, any: bool)

  function Split(log: seq<Block>, head: nat, c: Cursor, n: nat): (r: Parts)
    requires GoodLog(log, head) && c.pos < |log| && Ends(log, head, c, n)
    decreases n
  {
    if StopsAt(log, c) then Parts([], [], false)
    else
      var rest, w := Split(log, head, Turn(log, head, c), n - 1), CopiesAt(log, head, c.pos);
      if rest.any then rest.(committed := w + rest.committed)
      else if IsCommit(log[c.pos]) then rest.(any := true)
      else rest.(tail := w + rest.tail)
  }

  predicate IsCommit(b: Block)
    requires HEADER_SIZE <= |b|
  {
    Be32(b, 4) == JFS_COMMIT_BLOCK
  }

  lemma {:induction false} SplitIsReplayed(log: seq<Block>, head: nat, c: Cursor, n: nat)
    requires GoodLog(log, head) && c.pos < |log| && Ends(log, head, c, n)
    ensures Replayed(log, head, c, n) == Split(log, head, c, n).committed + Split(log, head, c, n).tail
    ensures !Split(log, head, c, n).any ==> Split(log, head, c, n).committed == []
    decreases n
  {
    hide Be32, Targets, Copies, Turn, Ends, StopsAt;
    if StopsAt(log, c) {
      PassStops(log, head, c, n);
    } else {
      PassStep(log, head, c, n);
      var d := Turn(log, head, c);
      SplitIsReplayed(log, head, d, n - 1);
      var rest, w := Split(log, head, d, n - 1), CopiesAt(log, head, c.pos);
      assert IsCommit(log[c.pos]) ==> w == [];
      assert (w + rest.committed) + rest.tail == w + (rest.committed + rest.tail);
      assert [] + (w + rest.tail) == w + ([] + rest.tail);
    }
  }

  /** The number of commit blocks that a pass finds. */
  function Commits(log: seq<Block>, head: nat, c: Cursor, n: nat): (k: nat)
    requires GoodLog(log, head) && c.pos < |log| && Ends(log, head, c, n)
    ensures k <= n
    decreases n
  {
    if StopsAt(log, c) then 0
    else (if IsCommit(log[c.pos]) then 1 else 0) + Commits(log, head, Turn(log, head, c), n - 1)
  }

  lemma AddMod(a: nat, b: nat, k: nat)
    ensures ((a + b) % 0x1_0000_0000 + k) % 0x1_0000_0000 == (a + b + k) % 0x1_0000_0000
  {
  }

  /** The scan's end transaction counts the commit blocks, modulo the width of the sequence number. */
  lemma {:induction false} EndCountsCommits(log: seq<Block>, head: nat, c: Cursor, n: nat)
    requires GoodLog(log, head) && c.pos < |log| && Ends(log, head, c, n) && c.id < 0x1_0000_0000
    ensures Split(log, head, c, n).any <==> Commits(log, head, c, n) > 0
    ensures EndId(log, head, c, n) == (c.id + Commits(log, head, c, n)) % 0x1_0000_0000
    decreases n
  {
    hide Be32, Targets, Copies, CopiesAt, Ends, StopsAt, ReplayNext, TagCount, EndId;
    if StopsAt(log, c) {
      PassStops(log, head, c, n);
    } else {
      PassStep(log, head, c, n);
      var d := Turn(log, head, c);
      EndCountsCommits(log, head, d, n - 1);
      AddMod(c.id, 1, Commits(log, head, d, n - 1));
    }
  }

  /** Descriptor block `b`, if it carries the sequence number `end`, has no tag. */
  predicate Untagged(b: Block, end: nat)
    requires HEADER_SIZE <= |b|
  {
    Be32(b, 8) == end ==> Targets(b, HEADER_SIZE) == []
  }

  /** No descriptor of the scan's end transaction has a tag: what JournalRecover could test between
      its passes. */
  predicate OnlyCommitted(log: seq<Block>, head: nat, c: Cursor, n: nat)
    requires GoodLog(log, head) && c.pos < |log| && Ends(log, head, c, n)
  {
    var end := EndId(log, head, c, n);
    forall q :: q in Visited(log, head, c, n) ==> Untagged(log[q], end)
  }

  lemma {:induction false} TailEmptyIff(log: seq<Block>, head: nat, c: Cursor, n: nat)
    requires GoodLog(log, head) && c.pos < |log| && Ends(log, head, c, n)
    requires c.id < 0x1_0000_0000 && n < 0x1_0000_0000
    ensures Split(log, head, c, n).tail == [] <==> OnlyCommitted(log, head, c, n)
    decreases n
  {
    hide Be32, Targets, Copies, Ends, ReplayNext, TagCount;
    if StopsAt(log, c) {
      PassStops(log, head, c, n);
    } else {
      PassStep(log, head, c, n);
      var d := Turn(log, head, c);
      TailEmptyIff(log, head, d, n - 1);
      EndCountsCommits(log, head, d, n - 1);
      if IsDescriptor(log[c.pos]) {
        assert Visited(log, head, c, n) == [c.pos] + Visited(log, head, d, n - 1);
        assert OnlyCommitted(log, head, c, n) <==>
          Untagged(log[c.pos], EndId(log, head, c, n)) && OnlyCommitted(log, head, d, n - 1);
      } else {
        assert Visited(log, head, c, n) == Visited(log, head, d, n - 1);
        assert CopiesAt(log, head, c.pos) == [];
      }
    }
  }

  /** Replay is not bounded by the scan: it copies the blocks of committed transactions and then
      those of a transaction whose commit block never reached the log. Only committed blocks are
      copied if and only if no descriptor of the scan's end transaction has a tag. */
  lemma ReplaysTail(log: seq<Block>, head: nat, c: Cursor)
    requires GoodLog(log, head) && c.pos < |log| && Ends(log, head, c, |log|)
    requires c.id < 0x1_0000_0000 && |log| < 0x1_0000_0000
    ensures var r := Split(log, head, c, |log|);
      && Replayed(log, head, c, |log|) == r.committed + r.tail
      && (Replayed(log, head, c, |log|) == r.committed <==> OnlyCommitted(log, head, c, |log|))
  {
    hide Split, Replayed, Ends, OnlyCommitted;
    SplitIsReplayed(log, head, c, |log|);
    TailEmptyIff(log, head, c, |log|);
    var r := Split(log, head, c, |log|);
    assert r.tail == [] ==> r.committed + r.tail == r.committed;
    assert |r.committed + r.tail| == |r.committed| + |r.tail|;
  }

  const ZERO_BLOCK: Block := [0, 0, 0, 0, 0, 0, 0, 0, 0, 0, 0, 0, 0, 0, 0, 0, 0, 0, 0, 0]

  /** A descriptor of transaction 1 with one tag, for block 7. */
  const ONE_TAG: Block := [0xC0, 0x3B, 0x39, 0x98, 0, 0, 0, 1, 0, 0, 0, 1, 0, 0, 0, 7, 0, 0, 0, 10]

  /** A log where an uncommitted block is copied. */
  lemma UncommittedExample()
    ensures var log, c := [ONE_TAG, ZERO_BLOCK, ZERO_BLOCK], Cursor(0, 1);
      && GoodLog(log, 0) && Ends(log, 0, c, 3) && Split(log, 0, c, 3).committed == []
      && Replayed(log, 0, c, 3) == [Write(7, ZERO_BLOCK)]
  {
    var log, c := [ONE_TAG, ZERO_BLOCK, ZERO_BLOCK], Cursor(0, 1);
    OneTag();
    assert Be32(ZERO_BLOCK, 0) == 0;
    assert ReplayNext(3, 0, 0, 0) == 1;
    assert Turn(log, 0, c) == Cursor(2, 1);
    assert StopsAt(log, Cursor(2, 1)) && Ends(log, 0, Cursor(2, 1), 2);
    PassStops(log, 0, Cursor(2, 1), 2);
    PassStep(log, 0, c, 3);
    assert Copies(log, 0, 0, [7]) == [Write(7, ZERO_BLOCK)];
  }

  lemma OneTag()
    ensures |ONE_TAG| == 20 && !Stops(ONE_TAG, 1) && IsDescriptor(ONE_TAG) && Targets(ONE_TAG, HEADER_SIZE) == [7]
    ensures NextId(ONE_TAG, 1) == 1
  {
    assert Be32(ONE_TAG, 0) == JFS_MAGIC && Be32(ONE_TAG, 4) == 1 && Be32(ONE_TAG, 8) == 1 && Be32(ONE_TAG, 12) == 7;
    assert LastTag(ONE_TAG, 12);
  }

  // ---- Recovery before `head` is set ----

  /** JournalCreate recovers before it sets `head`, so a pass that wraps goes on at block 0, the
      journal superblock, and not at the first log block. Unless the superblock carries the commit id
      that is looked for, the pass ends there: records that continue at the start of the log are lost.
      When the last record is a descriptor whose tagged blocks end with the log, replay goes on at the
      superblock and the scan leaves the log. */
  lemma WrapMeetsSuperblock(log: seq<Block>, c: Cursor, n: nat)
    requires GoodLog(log, 0) && c.pos < |log| && !StopsAt(log, c) && c.pos + 1 + TagCount(log[c.pos]) == |log|
    requires Be32(log[0], 0) == JFS_MAGIC
    ensures Turn(log, 0, c).pos == 0
    ensures ScanNext(|log|, 0, c.pos, TagCount(log[c.pos])) == if TagCount(log[c.pos]) == 0 then 0 else |log|
    ensures StopsAt(log, Turn(log, 0, c)) <==> Be32(log[0], 8) != NextId(log[c.pos], c.id)
    ensures StopsAt(log, Turn(log, 0, c)) && n > 0 ==>
      && Ends(log, 0, c, n) && Replayed(log, 0, c, n) == CopiesAt(log, 0, c.pos)
      && EndId(log, 0, c, n) == NextId(log[c.pos], c.id)
  {
    hide TagCount, NextId, Be32, CopiesAt;
    var count := TagCount(log[c.pos]);
    if count > 0 { ReplayNextStraight(|log|, 0, c.pos, count - 1); }
    var d := Turn(log, 0, c);
    if StopsAt(log, d) && n > 0 {
      assert Ends(log, 0, d, n - 1);
      PassStep(log, 0, c, n);
      PassStops(log, 0, d, n - 1);
    }
  }

  /** Tagged blocks that run over the end: the block behind the last one is the superblock, and it is
      what the tag's target gets. */
  lemma WrapCopiesSuperblock(log: seq<Block>, p: nat, targets: seq<nat>)
    requires p < |log| && |targets| > |log| - 1 - p
    ensures Copies(log, 0, p, targets)[|log| - 1 - p] == Write(targets[|log| - 1 - p], log[0])
  {
    var i := |log| - 1 - p;
    if i > 0 { ReplayNextStraight(|log|, 0, p, i - 1); }
  }

  lemma {:induction false} ApplyAppend(dev: Device, a: seq<Write>, b: seq<Write>)
    ensures Apply(dev, a + b) == Apply(Apply(dev, a), b)
  {
    if b == [] {
      assert a + b == a;
    } else {
      assert (a + b)[..|a + b| - 1] == a + b[..|b| - 1];
      ApplyAppend(dev, a, b[..|b| - 1]);
    }
  }

  /** Both passes start behind the descriptor; without tags, or when they stay in the log, they meet. */
  lemma AfterTags(log: seq<Block>, head: nat, p: nat)
    requires GoodLog(log, head) && p < |log|
    ensures ReplayNext(|log|, head, p, 0) == Wrap(|log|, head, p + 1)
    ensures !RunsOver(log, head, p) ==>
      ReplayNext(|log|, head, p, TagCount(log[p])) == Wrap(|log|, head, p + 1) + TagCount(log[p])
  {
    PassesAgreeIff(|log|, head, p, TagCount(log[p]));
  }

  lemma ApplyStep(dev: Device, w: seq<Write>, i: nat)
    requires i < |w|
    ensures Apply(dev, w[..i + 1]) == Apply(dev, w[..i])[w[i].target := w[i].data]
  {
    assert w[..i + 1][..i] == w[..i];
  }

  /** Writing outside the log leaves the log alone. */
  lemma WriteKeepsLog(dev: Device, logMap: seq<nat>, t: nat, data: Block)
    requires OnDevice(dev, logMap) && t !in logMap
    ensures OnDevice(dev[t := data], logMap) && Log(dev[t := data], logMap) == Log(dev, logMap)
  {
  }

  lemma ApplyNothing(dev: Device, w: seq<Write>)
    ensures Apply(dev, w[..0]) == dev
  {
  }

  lemma PartOutside(w: seq<Write>, n: nat, k: nat, logMap: seq<nat>)
    requires n + k <= |w| && Outside(w, logMap)
    ensures Outside(w[n..n + k], logMap)
  {
  }

  lemma SplitAt<T>(s: seq<T>, n: nat, a: seq<T>, b: seq<T>)
    requires n <= |s| && s[n..] == a + b
    ensures n + |a| <= |s| && s[n..n + |a|] == a && s[n + |a|..] == b && s[..n] + a == s[..n + |a|]
  {
    assert s == s[..n] + (a + b);
  }

  datatype Pass = Scan | Replay

  /** The journal as recovery uses it: the positions of the log on the device, the superblock's
      start and sequence, and the device itself. */
  class Journal {
    const logMap: seq<nat>
    const head: nat
    const start: nat
    const sequence: nat
    var dev: Device
    var transSequence: nat

    constructor (logMap: seq<nat>, head: nat, start: nat, sequence: nat, dev: Device)
      ensures this.logMap == logMap && this.head == head && this.start == start && this.sequence == sequence
      ensures this.dev == dev && transSequence == 1
    {
      this.logMap, this.head, this.start, this.sequence, this.dev := logMap, head, start, sequence, dev;
      transSequence := 1;
    }

    /** The log as it is on the device now. */
    function CurrentLog(): (log: seq<Block>)
      reads this
      requires OnDevice(dev, logMap)
    {
      Log(dev, logMap)
    }

    /** JournalReplayBlocks: follow the tags of descriptor `b` at `p`, copying one log block each, around
        the end of the log where they run over it. `next` starts behind the descriptor. */
    method ReplayBlocks(b: Block, ghost p: nat, first: nat) returns (next: nat)
      requires OnDevice(dev, logMap) && head < |logMap| && p < |logMap| && first == ReplayNext(|logMap|, head, p, 0)
      requires Outside(Copies(CurrentLog(), head, p, Targets(b, HEADER_SIZE)), logMap)
      modifies this`dev
      ensures OnDevice(dev, logMap) && CurrentLog() == old(CurrentLog())
      ensures dev == Apply(old(dev), Copies(old(CurrentLog()), head, p, Targets(b, HEADER_SIZE)))
      ensures next == ReplayNext(|logMap|, head, p, |Targets(b, HEADER_SIZE)|)
    {
      hide Be32, Apply, LastTag, SameUuid, Wrap;
      ghost var log, targets := CurrentLog(), Targets(b, HEADER_SIZE);
      ghost var w, i := Copies(log, head, p, targets), 0;
      var o := HEADER_SIZE;
      next := first;
      ApplyNothing(dev, w);
      while o + TAG_SIZE <= |b|
        invariant 0 <= i <= |targets| && targets[i..] == Targets(b, o) && next == ReplayNext(|logMap|, head, p, i)
        invariant OnDevice(dev, logMap) && CurrentLog() == log && dev == Apply(old(dev), w[..i])
        decreases |b| - o
      {
        var ioBlock := next;
        assert ReplayNext(|logMap|, head, p, i + 1) == Wrap(|logMap|, head, next + 1);
        next := Wrap(|logMap|, head, next + 1);
        var entry := dev[logMap[ioBlock]];
        assert targets[i..][0] == Be32(b, o);
        assert entry == CurrentLog()[ioBlock];
        WriteKeepsLog(dev, logMap, w[i].target, entry);
        ApplyStep(old(dev), w, i);
        dev := dev[Be32(b, o) := entry];
        assert targets[i + 1..] == targets[i..][1..];
        i := i + 1;
        var last := LastTag(b, o);
        o := NextTag(b, o);
        if last {
          break;
        }
      }
      assert w[..i] == w;
    }

    /** JournalDoOnePass. The replay pass makes the copies of Recovered. The scan pass writes nothing; it
        leaves the log, `left`, exactly when a descriptor's tagged blocks run over the end, and otherwise
        visits the same descriptors and finds the same end. */
    method DoOnePass(pass: Pass) returns (endTransaction: nat, left: bool, ghost visited: seq<nat>)
      requires Recoverable(dev, logMap, head, Cursor(start, sequence))
      modifies this`dev
      ensures var log, c, n := old(CurrentLog()), Cursor(start, sequence), |logMap|;
        && (left <==> pass == Scan && !NoneRunsOver(log, head, c, n))
        && (!left ==> visited == Visited(log, head, c, n) && endTransaction == EndId(log, head, c, n))
      ensures dev == if pass == Scan then old(dev) else Recovered(old(dev), logMap, head, Cursor(start, sequence))
    {
      hide Be32, Apply, Visited, EndId, Replayed, Ends, Copies, Targets, ReplayNext, NoneRunsOver, Wrap;
      ghost var log, c, w := CurrentLog(), Cursor(start, sequence), Writes(dev, logMap, head, Cursor(start, sequence));
      ghost var m: nat, n: nat := |logMap|, 0;
      var nextCommitId: nat, nextLogBlock: nat := sequence, start;
      visited, left := [], false;
      ApplyNothing(dev, w);
      while true
        invariant Along(log, c, Cursor(nextLogBlock, nextCommitId), m, visited, w, n)
        invariant pass == Scan ==> (NoneRunsOver(log, head, c, |log|) <==>
                    NoneRunsOver(log, head, Cursor(nextLogBlock, nextCommitId), m))
        invariant OnDevice(dev, logMap) && CurrentLog() == log
        invariant dev == if pass == Scan then old(dev) else Apply(old(dev), w[..n])
        decreases m
      {
        ghost var d := Cursor(nextLogBlock, nextCommitId);
        var b := dev[logMap[nextLogBlock]];
        assert b == log[nextLogBlock];
        if Be32(b, 0) != JFS_MAGIC {
          break;
        }
        var seqNo, blockType := Be32(b, 8), Be32(b, 4);
        if seqNo != nextCommitId {
          break;
        }
        assert !StopsAt(log, d);
        AlongStep(log, c, d, m, visited, w, n);
        NoneRunsOverStep(log, head, d, m);
        ghost var copies := CopiesAt(log, head, nextLogBlock);
        var behind := Wrap(|logMap|, head, nextLogBlock + 1);
        AfterTags(log, head, nextLogBlock);
        if blockType == JFS_DESC_BLOCK {
          visited := visited + [nextLogBlock];
          if pass == Scan {
            var count := CountTags(b);
            nextLogBlock := behind + count;
            if nextLogBlock >= |logMap| && count > 0 {
              return nextCommitId, true, visited;
            }
          } else {
            ApplyAppend(old(dev), w[..n], copies);
            PartOutside(w, n, |copies|, logMap);
            nextLogBlock := ReplayBlocks(b, nextLogBlock, behind);
          }
        } else {
          nextLogBlock := behind;
          if blockType == JFS_COMMIT_BLOCK {
            nextCommitId := (nextCommitId + 1) % 0x1_0000_0000;
          }
        }
        assert Cursor(nextLogBlock, nextCommitId) == Turn(log, head, d);
        n, m := n + |copies|, m - 1;
      }
      endTransaction := nextCommitId;
      PassStops(log, head, Cursor(nextLogBlock, nextCommitId), m);
      assert w[..n] == w;
    }

    /** Where a pass from `c` over the whole log stands when it has reached `d`: it goes on for at most
        `m` turns, has visited `visited`, and `n` of the copies `w` lie behind it. */
    ghost predicate Along(log: seq<Block>, c: Cursor, d: Cursor, m: nat, visited: seq<nat>, w: seq<Write>, n: nat) {
      && GoodLog(log, head) && c.pos < |log| && Ends(log, head, c, |log|) && d.pos < |log| && Ends(log, head, d, m)
      && visited + Visited(log, head, d, m) == Visited(log, head, c, |log|)
      && EndId(log, head, d, m) == EndId(log, head, c, |log|)
      && n <= |w| && w[n..] == Replayed(log, head, d, m)
    }

    lemma AlongStep(log: seq<Block>, c: Cursor, d: Cursor, m: nat, visited: seq<nat>, w: seq<Write>, n: nat)
      requires Along(log, c, d, m, visited, w, n) && !StopsAt(log, d)
      ensures m > 0
      ensures var copies := CopiesAt(log, head, d.pos);
        && n + |copies| <= |w| && w[n..n + |copies|] == copies && w[..n] + copies == w[..n + |copies|]
        && Along(log, c, Turn(log, head, d), m - 1,
                 if IsDescriptor(log[d.pos]) then visited + [d.pos] else visited, w, n + |copies|)
    {
      hide Visited, EndId, Replayed, Ends, CopiesAt, Turn, StopsAt, IsDescriptor;
      PassStep(log, head, d, m);
      var e := Turn(log, head, d);
      SplitAt(w, n, CopiesAt(log, head, d.pos), Replayed(log, head, e, m - 1));
      var v := Visited(log, head, e, m - 1);
      assert visited + ([d.pos] + v) == (visited + [d.pos]) + v && visited + ([] + v) == visited + v;
    }

    /** JournalRecover: nothing to do without a start block, otherwise scan and then replay. The scan
        leaves the log, and the kernel reads behind it, exactly when tagged blocks run over the end. */
    method Recover() returns (left: bool)
      requires start != 0 ==> Recoverable(dev, logMap, head, Cursor(start, sequence))
      modifies this
      ensures start == 0 ==> !left && dev == old(dev) && transSequence == (sequence + 1) % 0x1_0000_0000
      ensures start != 0 ==>
        (left <==> !NoneRunsOver(Log(old(dev), logMap), head, Cursor(start, sequence), |logMap|))
      ensures start != 0 && !left ==>
        && dev == Recovered(old(dev), logMap, head, Cursor(start, sequence))
        && transSequence == EndId(Log(old(dev), logMap), head, Cursor(start, sequence), |logMap|)
      ensures left ==> dev == old(dev)
    {
      left := false;
      if start == 0 {
        transSequence := (sequence + 1) % 0x1_0000_0000;
        return;
      }
      var scanned, ranOver, _ := DoOnePass(Scan);
      if ranOver {
        return true;
      }
      var end, _, _ := DoOnePass(Replay);
      transSequence := end;
    }
  }
}
