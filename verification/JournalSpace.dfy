/**
 Log space (fs/journal/journals.c, commit.c, checkpoint.c): head, tail and free count of the log
 over runs of transactions, commits, checkpoints and the unmount. The head never wraps.
 */
module JournalSpace {
  import opened Options

  datatype Trans = Trans(transId: nat, logStart: nat)

  /** struct Journal. committingTrans is set by a commit and never cleared. */
  datatype State = State(
    head: int, tail: int, free: int,
    transSequence: nat, tailSequence: nat,
    curr: Option<Trans>, committing: Option<Trans>, checkpoints: seq<Trans>)

  /** JournalCreate: `first` and `maxLen` come from the journal superblock. */
  function Created(first: nat, maxLen: nat, transSequence: nat): (s: State) {
    State(first, first, maxLen - first, transSequence, transSequence, None, None, [])
  }

  /** JournalTransCreate, called when there is no running transaction. logStart is still zero. */
  function Started(s: State): (r: State) {
    if s.curr.Some? then s
    else s.(curr := Some(Trans(s.transSequence, 0)), transSequence := s.transSequence + 1)
  }

  /** JournalNextLogBlock `n` times. */
  function Logged(s: State, n: nat): (r: State) {
    s.(head := s.head + n, free := s.free - n)
  }

  /** The transaction that JournalCleanupTail takes for the oldest one that the log still needs. */
  function Oldest(s: State): (t: Trans) {
    if s.checkpoints != [] then s.checkpoints[0]
    else if s.committing.Some? then s.committing.value
    else if s.curr.Some? then s.curr.value
    else Trans(s.transSequence, if s.head < 0 then 0 else s.head)
  }

  /** JournalCleanupTail; nothing moves when the tail is already at the oldest transaction. */
  function Cleaned(s: State): (r: State) {
    var t := Oldest(s);
    if s.tailSequence == t.transId then s
    else s.(free := s.free + (t.logStart - s.tail), tailSequence := t.transId, tail := t.logStart)
  }

  /** JournalCheckpoint: a call that moves the tail does nothing else; a call that finds the tail in
      place writes out and drops all waiting transactions, then cleans up again. */
  function Checkpointed(s: State): (r: State) {
    if Cleaned(s) != s then Cleaned(s) else Cleaned(s.(checkpoints := []))
  }

  /** JournalCommitTransaction with `n` descriptor and metadata blocks and one commit block. */
  function Committed(s: State, n: nat): (r: State)
    requires s.curr.Some? && 0 <= s.head
  {
    var t := Trans(s.curr.value.transId, s.head);
    var logged := Logged(s.(committing := Some(t), curr := None), n);
    Checkpointed(Logged(logged.(checkpoints := s.checkpoints + [t]), 1))
  }

  /** The invariant of every run. */
  ghost predicate Sound(first: nat, maxLen: nat, s: State) {
    && s.free + (s.head - s.tail) == maxLen - first
    && first <= s.tail <= s.head
    && s.tailSequence <= s.transSequence
    && Ordered(s)
    // The tail is not past any transaction that still waits for its checkpoint.
    && (forall i :: 0 <= i < |s.checkpoints| ==> s.tail <= s.checkpoints[i].logStart <= s.head)
    // Where the tail's sequence number names a known transaction, the tail is its first block.
    && (forall i :: 0 <= i < |s.checkpoints| ==> s.tailSequence <= s.checkpoints[i].transId)
    && (s.checkpoints != [] && s.checkpoints[0].transId == s.tailSequence ==> s.checkpoints[0].logStart == s.tail)
    && (match s.committing
        case None => s.checkpoints == [] && s.head == first
          && s.tailSequence == (if s.curr.Some? then s.curr.value.transId else s.transSequence)
        case Some(t) =>
          && s.tail <= t.logStart <= s.head && s.tailSequence <= t.transId < s.transSequence
          && (t.transId == s.tailSequence ==> t.logStart == s.tail)
          && (s.checkpoints != [] ==> s.checkpoints[|s.checkpoints| - 1] == t))
    && (s.curr.Some? ==> s.curr.value.transId < s.transSequence
                         && (s.committing.Some? ==> s.committing.value.transId < s.curr.value.transId))
  }

  /** Waiting transactions are in the order of their ids and of their place in the log. */
  ghost predicate Ordered(s: State) {
    forall i, j :: 0 <= i < j < |s.checkpoints| ==>
      s.checkpoints[i].transId < s.checkpoints[j].transId && s.checkpoints[i].logStart <= s.checkpoints[j].logStart
  }

  lemma CleanedSound(first: nat, maxLen: nat, s: State)
    requires Sound(first, maxLen, s)
    ensures Sound(first, maxLen, Cleaned(s)) && s.tail <= Cleaned(s).tail
    ensures Cleaned(s).head == s.head && Cleaned(s).checkpoints == s.checkpoints
    ensures s.committing.Some? ==> Cleaned(s).tail == Oldest(s).logStart && Cleaned(s).tailSequence == Oldest(s).transId
  {
  }

  lemma CheckpointedSound(first: nat, maxLen: nat, s: State)
    requires Sound(first, maxLen, s)
    ensures Sound(first, maxLen, Checkpointed(s)) && s.tail <= Checkpointed(s).tail && Checkpointed(s).head == s.head
    ensures Checkpointed(s).checkpoints == [] || Checkpointed(s).checkpoints == s.checkpoints
  {
    CleanedSound(first, maxLen, s);
    CleanedSound(first, maxLen, s.(checkpoints := []));
  }

  /** A checkpoint that leaves nothing waiting gives back all log space before the last commit: the tail is
      the first block of the committing transaction. */
  lemma CheckpointTail(first: nat, maxLen: nat, s: State)
    requires Sound(first, maxLen, s) && s.committing.Some? && Checkpointed(s).checkpoints == []
    ensures Checkpointed(s).tail == s.committing.value.logStart
    ensures Checkpointed(s).free == maxLen - first - (s.head - s.committing.value.logStart)
  {
    CleanedSound(first, maxLen, s);
    if Cleaned(s) == s {
      EmptiedSound(first, maxLen, s);
      CleanedSound(first, maxLen, s.(checkpoints := []));
    }
  }

  /** Which calls empty the list: those that find the tail at the oldest waiting transaction. A call that
      has to move the tail leaves the list alone. */
  lemma CheckpointEmptiesIff(s: State)
    requires s.checkpoints != []
    ensures Checkpointed(s).checkpoints == [] <==> s.tailSequence == s.checkpoints[0].transId
    ensures Checkpointed(s).checkpoints != [] ==>
      && Checkpointed(s).checkpoints == s.checkpoints && Checkpointed(s).tail == s.checkpoints[0].logStart
      && Checkpointed(s).tailSequence == s.checkpoints[0].transId
  {
  }

  lemma EmptiedSound(first: nat, maxLen: nat, s: State)
    requires Sound(first, maxLen, s) && Cleaned(s) == s
    ensures Sound(first, maxLen, s.(checkpoints := []))
  {
    CleanedSound(first, maxLen, s);
  }

  /** A second call after one that only moved the tail empties the list. */
  lemma CheckpointTwice(first: nat, maxLen: nat, s: State)
    requires Sound(first, maxLen, s)
    ensures Checkpointed(Checkpointed(s)).checkpoints == []
  {
    CleanedSound(first, maxLen, s);
    CheckpointedSound(first, maxLen, s);
  }

  lemma CommittedSound(first: nat, maxLen: nat, s: State, n: nat)
    requires Sound(first, maxLen, s) && s.curr.Some?
    ensures Sound(first, maxLen, Committed(s, n)) && s.tail <= Committed(s, n).tail
    ensures Committed(s, n).head == s.head + n + 1
    ensures Committed(s, n).committing == Some(Trans(s.curr.value.transId, s.head))
  {
    hide Sound;
    LoggedSound(first, maxLen, s, n);
    CheckpointedSound(first, maxLen, BeforeCheckpoint(s, n));
  }

  /** A commit up to its checkpoint: the transaction is in the log and waits. */
  function BeforeCheckpoint(s: State, n: nat): (r: State)
    requires s.curr.Some? && 0 <= s.head
  {
    var t := Trans(s.curr.value.transId, s.head);
    Logged(Logged(s.(committing := Some(t), curr := None), n).(checkpoints := s.checkpoints + [t]), 1)
  }

  lemma LoggedSound(first: nat, maxLen: nat, s: State, n: nat)
    requires Sound(first, maxLen, s) && s.curr.Some?
    ensures 0 <= s.tail <= s.head
    ensures Sound(first, maxLen, BeforeCheckpoint(s, n))
  {
  }

  /** What can happen to a mounted journal. A commit needs a running transaction. */
  datatype Event = Start | Commit(n: nat) | Checkpoint

  function Step(s: State, e: Event): (r: State) {
    match e
    case Start => Started(s)
    case Commit(n) => if s.curr.Some? && 0 <= s.head then Committed(s, n) else s
    case Checkpoint => Checkpointed(s)
  }

  function Run(s: State, events: seq<Event>): (r: State) {
    if events == [] then s else Step(Run(s, events[..|events| - 1]), events[|events| - 1])
  }

  /** Every run from JournalCreate keeps the accounts: free + (head - tail) is constant, and the
      tail is never past a transaction that still waits for its checkpoint. */
  lemma {:induction false} RunSound(first: nat, maxLen: nat, transSequence: nat, events: seq<Event>)
    ensures Sound(first, maxLen, Run(Created(first, maxLen, transSequence), events))
  {
    if events == [] {
    } else {
      var s := Run(Created(first, maxLen, transSequence), events[..|events| - 1]);
      RunSound(first, maxLen, transSequence, events[..|events| - 1]);
      match events[|events| - 1] {
        case Start =>
        case Commit(n) => if s.curr.Some? { CommittedSound(first, maxLen, s, n); }
        case Checkpoint => CheckpointedSound(first, maxLen, s);
      }
    }
  }

  /** The tail only moves forward along a run. */
  lemma {:induction false} TailMonotone(first: nat, maxLen: nat, transSequence: nat, events: seq<Event>, k: nat)
    requires k <= |events|
    ensures Run(Created(first, maxLen, transSequence), events[..k]).tail
         <= Run(Created(first, maxLen, transSequence), events).tail
  {
    if k == |events| {
      assert events[..k] == events;
    } else {
      var front := events[..|events| - 1];
      TailMonotone(first, maxLen, transSequence, front, k);
      assert front[..k] == events[..k];
      var s := Run(Created(first, maxLen, transSequence), front);
      RunSound(first, maxLen, transSequence, front);
      match events[|events| - 1] {
        case Start =>
        case Commit(n) => if s.curr.Some? { CommittedSound(first, maxLen, s, n); }
        case Checkpoint => CheckpointedSound(first, maxLen, s);
      }
    }
  }

  /** A non-zero free count does not mean that the next block lies in the log: the head does not
      wrap, so the space before the tail is lost. The next block is inside exactly when more is
      free than lies before the tail. */
  lemma NextBlockInside(first: nat, maxLen: nat, s: State)
    requires Sound(first, maxLen, s)
    ensures s.head < maxLen <==> s.free > s.tail - first
  {
  }

  /** Three commits with one metadata block each fill a log of six blocks. Four blocks still count as
      free, and the next log block is past the end. */
  lemma FreeButOutside()
    ensures var s := Run(Created(1, 7, 1), [Start, Commit(1), Start, Commit(1), Start, Commit(1)]);
      s.tail == 5 && s.free == 4 && s.head == 7
  {
    var e := [Start, Commit(1), Start, Commit(1), Start, Commit(1)];
    var s0 := Created(1, 7, 1);
    assert e[..5][..4] == e[..4] && e[..4][..3] == e[..3];
    assert e[..3][..2] == e[..2] && e[..2][..1] == e[..1] && e[..1][..0] == [];
    assert Run(s0, e[..1]) == Started(s0);
    assert Run(s0, e[..2]) == Step(Run(s0, e[..1]), Commit(1));
    assert Run(s0, e[..3]) == Step(Run(s0, e[..2]), Start);
    assert Run(s0, e[..4]) == Step(Run(s0, e[..3]), Commit(1));
    assert Run(s0, e[..5]) == Step(Run(s0, e[..4]), Start);
    assert e[..6] == e;
  }

  class Journal {
    const first: nat
    const maxLen: nat
    var head: int
    var tail: int
    var free: int
    var transSequence: nat
    var tailSequence: nat
    var curr: Option<Trans>
    var committing: Option<Trans>
    var checkpoints: seq<Trans>

    function View(): (s: State)
      reads this
    {
      State(head, tail, free, transSequence, tailSequence, curr, committing, checkpoints)
    }

    ghost predicate Valid()
      reads this
    {
      Sound(first, maxLen, View())
    }

    constructor (first: nat, maxLen: nat, transSequence: nat)
      ensures Valid() && this.first == first && this.maxLen == maxLen && View() == Created(first, maxLen, transSequence)
    {
      this.first, this.maxLen, this.transSequence, tailSequence := first, maxLen, transSequence, transSequence;
      head, tail, free := first, first, maxLen - first;
      curr, committing, checkpoints := None, None, [];
    }

    /** JournalNextLogBlock: the blocks in use and the free ones still add up. The block handed out is
        inside the log exactly when more blocks counted as free than lie before the tail. */
    method NextLogBlock() returns (block: int)
      requires free + (head - tail) == maxLen - first
      modifies this`head, this`free
      ensures free + (head - tail) == maxLen - first
      ensures block < maxLen <==> old(free) > tail - first
      ensures block == old(head) && View() == Logged(old(View()), 1)
    {
      block := head;
      head := head + 1;
      free := free - 1;
    }

    method CleanupTail() returns (inPlace: bool)
      requires Valid()
      modifies this`free, this`tail, this`tailSequence
      ensures Valid() && View() == Cleaned(old(View())) && (inPlace <==> View() == old(View()))
    {
      CleanedSound(first, maxLen, View());
      var t := Oldest(View());
      if tailSequence == t.transId {
        return true;
      }
      free := free + (t.logStart - tail);
      tailSequence := t.transId;
      tail := t.logStart;
      inPlace := false;
    }

    /** JournalCheckpoint: the second loop takes the waiting transactions off the list one by one. */
    method DoCheckpoint()
      requires Valid()
      modifies this
      ensures Valid() && View() == Checkpointed(old(View()))
    {
      CheckpointedSound(first, maxLen, View());
      CleanedSound(first, maxLen, View());
      var inPlace := CleanupTail();
      if !inPlace {
        return;
      }
      while checkpoints != []
        modifies this`checkpoints
        decreases |checkpoints|
      {
        checkpoints := checkpoints[1..];
      }
      EmptiedSound(first, maxLen, old(View()));
      var _ := CleanupTail();
    }

    /** JournalCommitTransaction; JournalCommitMetadata takes `n` log blocks. */
    method CommitTransaction(n: nat)
      requires Valid() && curr.Some?
      modifies this
      ensures Valid() && View() == Committed(old(View()), n)
    {
      hide Sound, Checkpointed;
      LoggedSound(first, maxLen, View(), n);
      CommittedSound(first, maxLen, View(), n);
      var t := Trans(curr.value.transId, head);
      ghost var base := View().(committing := Some(t), curr := None);
      committing, curr := Some(t), None;
      var i := 0;
      while i < n
        invariant 0 <= i <= n && View() == Logged(base, i)
      {
        var _ := NextLogBlock();
        i := i + 1;
      }
      checkpoints := checkpoints + [t];
      var _ := NextLogBlock();
      DoCheckpoint();
    }

    /** JournalDestroy: commit what is running, empty the checkpoint list, mark the log as clean. The
        loop calls JournalCheckpoint at most twice. */
    method Destroy(n: nat) returns (ghost calls: nat)
      requires Valid()
      modifies this
      ensures calls <= 2 && checkpoints == [] && curr.None?
      ensures tail == 0 && tailSequence == transSequence == old(transSequence) + 1
    {
      hide Sound, Checkpointed, Committed;
      if curr.Some? {
        LoggedSound(first, maxLen, View(), n);
        CommitTransaction(n);
        CommittedKeepsSequence(old(View()), n);
      }
      calls := 0;
      ghost var s := View();
      while checkpoints != []
        invariant Valid() && calls <= 2 && curr == s.curr && transSequence == s.transSequence
        invariant View() == if calls == 0 then s else if calls == 1 then Checkpointed(s)
                            else Checkpointed(Checkpointed(s))
        invariant calls == 2 ==> checkpoints == []
        decreases 2 - calls
      {
        DoCheckpoint();
        calls := calls + 1;
        CheckpointTwice(first, maxLen, s);
        CheckpointKeeps(s);
        CheckpointKeeps(Checkpointed(s));
      }
      tail := 0;
      transSequence := transSequence + 1;
      tailSequence := transSequence;
    }
  }

  lemma CheckpointKeeps(s: State)
    ensures Checkpointed(s).curr == s.curr && Checkpointed(s).transSequence == s.transSequence
  {
  }

  lemma CommittedKeepsSequence(s: State, n: nat)
    requires s.curr.Some? && 0 <= s.head
    ensures Committed(s, n).transSequence == s.transSequence && Committed(s, n).curr.None?
  {
  }
}
