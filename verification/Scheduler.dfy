/**
 The scheduler (kernel/sched.c, kernel/thread.c and the tick of arch/i386/kernel/pit.c): the
 thread with the most quantums runs, each tick takes one, and when all runnable threads have
 none left everybody's quantums are refilled.
 */
module Scheduler {

  const PRIORITY_NONE := 0
  const PRIORITY_DEFAULT := 16
  const PRIORITY_TOP := 32

  /** No refill can exceed this: 32 + 42 / 4 = 42. */
  const QUANTUMS_MAX := 42

  datatype Thread = Thread(quantums: int, priority: int, running: bool)

  /** The thread list in list order, and the current thread: its place in the list, or -1 for the
      idle task, which is not in the list and never has quantums. */
  datatype State = State(threads: seq<Thread>, curr: int)

  ghost predicate Bounded(ts: seq<Thread>) {
    forall i :: 0 <= i < |ts| ==> 0 <= ts[i].quantums <= QUANTUMS_MAX && PRIORITY_NONE <= ts[i].priority <= PRIORITY_TOP
  }

  ghost predicate Valid(s: State) {
    && Bounded(s.threads)
    && -1 <= s.curr < |s.threads|
    && (s.curr != -1 ==> s.threads[s.curr].running)
  }

  /** The quantums of a choice; -1 stands for no runnable thread, as in the scan's running maximum. */
  function Score(ts: seq<Thread>, i: int): (q: int)
    requires -1 <= i < |ts|
  {
    if i == -1 then -1 else ts[i].quantums
  }

  /** `b` is the first of the runnable threads with the most quantums, or -1 when none is runnable. */
  ghost predicate IsBest(ts: seq<Thread>, b: int) {
    && -1 <= b < |ts|
    && (b != -1 ==> ts[b].running)
    && (forall i :: 0 <= i < |ts| && ts[i].running ==> ts[i].quantums <= Score(ts, b))
    && (forall i :: 0 <= i < b && ts[i].running ==> ts[i].quantums < Score(ts, b))
  }

  function Best(ts: seq<Thread>): (b: int)
    ensures -1 <= b < |ts|
  {
    if ts == [] then -1
    else
      var b, n := Best(ts[..|ts| - 1]), |ts| - 1;
      if ts[n].quantums > Score(ts[..n], b) && ts[n].running then n else b
  }

  lemma {:induction false} BestIsBest(ts: seq<Thread>)
    requires Bounded(ts)
    ensures IsBest(ts, Best(ts))
  {
    if ts == [] {
    } else {
      var front := ts[..|ts| - 1];
      BestIsBest(front);
      assert forall i :: 0 <= i < |front| ==> front[i] == ts[i];
    }
  }

  function Refill(t: Thread): (r: Thread) {
    t.(quantums := t.priority + t.quantums / 4)
  }

  function Refilled(ts: seq<Thread>): (r: seq<Thread>)
    ensures |r| == |ts|
  {
    seq(|ts|, i requires 0 <= i < |ts| => Refill(ts[i]))
  }

  /** ThrChooseNewThread finds all runnable threads out of time. */
  predicate OutOfTime(ts: seq<Thread>) {
    Score(ts, Best(ts)) == 0
  }

  /** ThrSchedule: take the best thread; refill when it has nothing left. The choice is made before
      the refill. */
  function Scheduled(s: State): (r: State) {
    State(if OutOfTime(s.threads) then Refilled(s.threads) else s.threads, Best(s.threads))
  }

  function CurrQuantums(s: State): (q: int)
    requires -1 <= s.curr < |s.threads|
  {
    if s.curr == -1 then 0 else s.threads[s.curr].quantums
  }

  function Charged(ts: seq<Thread>, i: nat): (r: seq<Thread>)
    requires i < |ts|
  {
    ts[i := ts[i].(quantums := ts[i].quantums - 1)]
  }

  /** One timer tick, with the reschedule that its interrupt ends with. */
  function Tick(s: State): (r: State)
    requires -1 <= s.curr < |s.threads|
  {
    if CurrQuantums(s) > 0 then s.(threads := Charged(s.threads, s.curr)) else Scheduled(s)
  }

  /** Does this tick refill? */
  predicate Refills(s: State)
    requires -1 <= s.curr < |s.threads|
  {
    CurrQuantums(s) == 0 && OutOfTime(s.threads)
  }

  lemma RefilledBounded(ts: seq<Thread>)
    requires Bounded(ts)
    ensures Bounded(Refilled(ts))
  {
  }

  lemma TickValid(s: State)
    requires Valid(s)
    ensures Valid(Tick(s))
  {
    BestIsBest(s.threads);
    RefilledBounded(s.threads);
  }

  // ---- The length of a round ----

  /** Ticks that thread `t` still takes in this round: one for each quantum and one to notice. */
  function Share(t: Thread): (n: int) {
    if t.running && t.quantums > 0 then t.quantums + 1 else 0
  }

  function Shares(ts: seq<Thread>): (n: int) {
    if ts == [] then 0 else Shares(ts[..|ts| - 1]) + Share(ts[|ts| - 1])
  }

  /** The number of ticks up to and including the next refill. */
  function Left(s: State): (n: int)
    requires -1 <= s.curr < |s.threads|
  {
    Shares(s.threads) + if CurrQuantums(s) > 0 then 0 else 1
  }

  lemma {:induction false} SharesUpdate(ts: seq<Thread>, i: nat, t: Thread)
    requires i < |ts|
    ensures Shares(ts[i := t]) == Shares(ts) - Share(ts[i]) + Share(t)
  {
    var n := |ts| - 1;
    if i < n {
      assert ts[i := t][..n] == ts[..n][i := t];
      SharesUpdate(ts[..n], i, t);
    } else {
      assert ts[i := t][..n] == ts[..n];
    }
  }

  lemma {:induction false} SharesZero(ts: seq<Thread>)
    requires forall i :: 0 <= i < |ts| && ts[i].running ==> ts[i].quantums <= 0
    ensures Shares(ts) == 0
  {
    if ts == [] {
    } else {
      SharesZero(ts[..|ts| - 1]);
    }
  }

  lemma {:induction false} SharesAtLeast(ts: seq<Thread>, i: nat)
    requires i < |ts|
    ensures 0 <= Share(ts[i]) <= Shares(ts)
  {
    var n := |ts| - 1;
    if i < n {
      SharesAtLeast(ts[..n], i);
    } else if n > 0 {
      SharesAtLeast(ts[..n], 0);
    }
  }

  /** Each tick before the refill takes one off the round, and the refill comes exactly at the end. */
  lemma TickCounts(s: State)
    requires Valid(s) && exists i :: 0 <= i < |s.threads| && s.threads[i].running
    ensures 1 <= Left(s)
    ensures Refills(s) <==> Left(s) == 1
    ensures !Refills(s) ==> Left(Tick(s)) == Left(s) - 1
  {
    var ts := s.threads;
    BestIsBest(ts);
    var w :| 0 <= w < |ts| && ts[w].running;
    SharesAtLeast(ts, w);
    if CurrQuantums(s) > 0 {
      SharesUpdate(ts, s.curr, ts[s.curr].(quantums := ts[s.curr].quantums - 1));
      SharesAtLeast(ts, s.curr);
    } else if OutOfTime(ts) {
      SharesZero(ts);
    } else {
      SharesAtLeast(ts, Best(ts));
    }
  }

  function Run(s: State, n: nat): (r: State)
    requires Valid(s)
    ensures Valid(r) && |r.threads| == |s.threads|
  {
    if n == 0 then s else TickValid(Run(s, n - 1)); Tick(Run(s, n - 1))
  }

  /** How many of the first `n` ticks were charged to thread `i`. */
  function Ran(s: State, n: nat, i: nat): (c: nat)
    requires Valid(s) && i < |s.threads|
  {
    if n == 0 then 0
    else Ran(s, n - 1, i) + if CurrQuantums(Run(s, n - 1)) > 0 && Run(s, n - 1).curr == i then 1 else 0
  }

  ghost predicate SomeRunnable(s: State) {
    exists i :: 0 <= i < |s.threads| && s.threads[i].running
  }

  /** Inside a round: no refill yet, and every thread has lost what it ran. */
  ghost predicate InRound(s: State, n: nat)
    requires Valid(s)
  {
    && (forall k :: 0 <= k < n ==> !Refills(Run(s, k)))
    && Left(Run(s, n)) == Left(s) - n
    && forall i :: 0 <= i < |s.threads| ==>
         Run(s, n).threads[i] == s.threads[i].(quantums := s.threads[i].quantums - Ran(s, n, i))
  }

  /** A tick that does not refill takes one quantum from the current thread, if it has one. */
  lemma TickTakesOne(s: State, i: nat)
    requires Valid(s) && !Refills(s) && i < |s.threads|
    ensures |Tick(s).threads| == |s.threads|
    ensures Tick(s).threads[i] == s.threads[i].(quantums :=
              s.threads[i].quantums - if CurrQuantums(s) > 0 && s.curr == i then 1 else 0)
  {
  }

  lemma {:induction false} RoundGoesOn(s: State, n: nat)
    requires Valid(s) && SomeRunnable(s) && n < Left(s)
    ensures InRound(s, n)
  {
    hide Best, Shares, OutOfTime, Tick, Left, Refills, Bounded, CurrQuantums;
    if n == 0 {
    } else {
      RoundGoesOn(s, n - 1);
      var t := Run(s, n - 1);
      var w :| 0 <= w < |s.threads| && s.threads[w].running;
      assert t.threads[w].running;
      TickCounts(t);
      forall i | 0 <= i < |s.threads|
        ensures Run(s, n).threads[i] == s.threads[i].(quantums := s.threads[i].quantums - Ran(s, n, i))
      {
        TickTakesOne(t, i);
      }
    }
  }

  /** The sum of (quantums + 1) over the runnable threads. */
  function Bound(ts: seq<Thread>): (n: int) {
    if ts == [] then 0
    else Bound(ts[..|ts| - 1]) + if ts[|ts| - 1].running then ts[|ts| - 1].quantums + 1 else 0
  }

  lemma {:induction false} SharesBelowBound(ts: seq<Thread>, c: int)
    requires Bounded(ts) && -1 <= c < |ts| && (c != -1 ==> ts[c].running)
    ensures Shares(ts) + (if c != -1 && ts[c].quantums == 0 then 1 else 0) <= Bound(ts)
  {
    if ts == [] {
    } else {
      var n := |ts| - 1;
      SharesBelowBound(ts[..n], if c < n then c else -1);
    }
  }

  /** The round theorem. From any state with a runnable thread, the next refill is tick number
      Left(s). By then every runnable thread has run for exactly the quantums it had, no other thread
      has run, and Left(s) is at most the sum of (quantums + 1) when a listed thread is current. */
  lemma Round(s: State)
    requires Valid(s) && SomeRunnable(s)
    ensures 1 <= Left(s)
    ensures forall k :: 0 <= k < Left(s) - 1 ==> !Refills(Run(s, k))
    ensures Refills(Run(s, Left(s) - 1))
    ensures forall i :: 0 <= i < |s.threads| ==>
              Ran(s, Left(s) - 1, i) == if s.threads[i].running then s.threads[i].quantums else 0
    ensures s.curr != -1 ==> Left(s) <= Bound(s.threads)
  {
    hide Best, Shares, Run, Ran, Bound;
    TickCounts(s);
    var n := Left(s) - 1;
    RoundGoesOn(s, n);
    var t := Run(s, n);
    var w :| 0 <= w < |s.threads| && s.threads[w].running;
    assert t.threads[w].running;
    TickCounts(t);
    BestIsBest(t.threads);
    if s.curr != -1 { SharesBelowBound(s.threads, s.curr); }
    forall i | 0 <= i < |s.threads|
      ensures Ran(s, n, i) == if s.threads[i].running then s.threads[i].quantums else 0
    {
      assert t.threads[i] == s.threads[i].(quantums := s.threads[i].quantums - Ran(s, n, i));
      if !s.threads[i].running { NeverRan(s, n, i); }
    }
  }

  lemma {:induction false} NeverRan(s: State, n: nat, i: nat)
    requires Valid(s) && SomeRunnable(s) && i < |s.threads| && !s.threads[i].running && n < Left(s)
    ensures Ran(s, n, i) == 0
  {
    hide Best, Shares, OutOfTime, Tick, Left, Refills, Bounded;
    if n == 0 {
    } else {
      NeverRan(s, n - 1, i);
      RoundGoesOn(s, n - 1);
      assert !Run(s, n - 1).threads[i].running;
    }
  }

  /** Fairness. Between two refills every runnable thread runs for exactly its priority in ticks. */
  lemma Fairness(s: State, i: nat)
    requires Valid(s) && Refills(s) && i < |s.threads| && s.threads[i].running
    ensures Valid(Tick(s)) && 1 <= Left(Tick(s))
    ensures Ran(Tick(s), Left(Tick(s)) - 1, i) == s.threads[i].priority
    ensures Refills(Run(Tick(s), Left(Tick(s)) - 1))
  {
    TickValid(s);
    BestIsBest(s.threads);
    assert Tick(s).threads[i].running;
    Round(Tick(s));
  }

  /** A refill gives every thread, runnable or not, its priority and keeps a quarter of what it had left,
      rounded down. So a thread that waits gathers quantums. */
  lemma RefillKeepsQuarter(s: State, i: nat)
    requires Valid(s) && Refills(s) && i < |s.threads|
    ensures var t, t' := s.threads[i], Tick(s).threads[i];
      && 4 * (t'.quantums - t.priority) <= t.quantums < 4 * (t'.quantums - t.priority) + 4
      && t'.priority == t.priority && t'.running == t.running
  {
  }

  /** A runnable thread of priority 0 and a suspended one of the highest priority with `q` quantums. */
  function Waiting(q: int): (s: State) {
    State([Thread(0, PRIORITY_NONE, true), Thread(q, PRIORITY_TOP, false)], 0)
  }

  lemma WaitingTick(q: int)
    requires 0 <= q <= QUANTUMS_MAX
    ensures Valid(Waiting(q)) && Refills(Waiting(q)) && Tick(Waiting(q)) == Waiting(32 + q / 4)
  {
    var ts := Waiting(q).threads;
    BestIsBest(ts);
    assert ts[0].running;
    assert Refilled(ts) == Waiting(32 + q / 4).threads;
  }

  /** The bound on the quantums is reached: every tick refills, and the suspended thread has 32, 40 and
      then 42 quantums for ever. */
  lemma {:induction false} BoundReached(n: nat)
    ensures Valid(Waiting(0)) && Refills(Run(Waiting(0), n))
    ensures Run(Waiting(0), n) == Waiting(if n == 0 then 0 else if n == 1 then 32 else if n == 2 then 40 else 42)
  {
    hide Tick, Waiting, Valid, Refills;
    WaitingTick(0);
    WaitingTick(32);
    WaitingTick(40);
    WaitingTick(42);
    if n == 0 {
    } else {
      BoundReached(n - 1);
    }
  }

  // ---- All steps ----

  /** What the kernel can do to the list: ticks, yields, priority changes, new, started and resumed
      threads, and threads suspended without a reschedule and with one. */
  datatype Event =
    | TickEvent | Yield | SetPriority(i: nat, priority: int)
    | Create | StartThread(i: nat) | Resume(i: nat) | Pause(i: nat) | Suspend(i: nat)

  /** ThrSetPriority. */
  function Clamp(priority: int): (p: int)
    ensures PRIORITY_NONE <= p <= PRIORITY_TOP
  {
    if priority > PRIORITY_TOP then PRIORITY_TOP else if priority < PRIORITY_NONE then PRIORITY_NONE else priority
  }

  /** A priority becomes the nearest one in range. */
  lemma ClampIsNearest(priority: int, p: int)
    requires PRIORITY_NONE <= p <= PRIORITY_TOP
    ensures Distance(Clamp(priority), priority) <= Distance(p, priority)
  {
  }

  function Distance(x: int, y: int): (d: nat) { if x < y then y - x else x - y }

  /** The current thread gives up its quantums. */
  function Emptied(s: State): (r: State)
    requires 0 <= s.curr < |s.threads|
  {
    s.(threads := s.threads[s.curr := s.threads[s.curr].(quantums := 0)])
  }

  function Started(s: State, i: nat): (r: State)
    requires i < |s.threads|
  {
    s.(threads := s.threads[i := s.threads[i].(running := true)])
  }

  /** ThrResumeThread: start a thread that does not run, and reschedule unless it has fewer quantums
      than the current thread. */
  function Resumed(s: State, i: nat): (r: State)
    requires -1 <= s.curr < |s.threads| && i < |s.threads|
  {
    if s.threads[i].running then s
    else if s.threads[i].quantums >= CurrQuantums(s) then Scheduled(Started(s, i))
    else Started(s, i)
  }

  /** A resumed thread with more quantums than every runnable thread takes over at once. */
  lemma ResumedTakesOver(s: State, i: nat)
    requires Valid(s) && i < |s.threads| && !s.threads[i].running
    requires forall j :: 0 <= j < |s.threads| && s.threads[j].running ==> s.threads[j].quantums < s.threads[i].quantums
    ensures Resumed(s, i).curr == i
  {
    BestIsBest(Started(s, i).threads);
    assert s.threads[i].quantums >= CurrQuantums(s);
    assert Started(s, i).threads[i].running;
  }

  /** What a resumed thread does to the choice: the best thread is chosen again exactly when the resumed
      one has no fewer quantums than the current thread, which otherwise goes on. */
  lemma ResumedChoice(s: State, i: nat)
    requires Valid(s) && i < |s.threads| && !s.threads[i].running
    ensures if s.threads[i].quantums >= CurrQuantums(s) then IsBest(Started(s, i).threads, Resumed(s, i).curr)
            else Resumed(s, i).curr == s.curr
  {
    BestIsBest(Started(s, i).threads);
  }

  /** ThrSuspendThread: only the state of the thread changes. */
  function Paused(s: State, i: nat): (r: State)
    requires i < |s.threads|
  {
    s.(threads := s.threads[i := s.threads[i].(running := false)])
  }

  function Step(s: State, e: Event): (r: State) {
    if !(-1 <= s.curr < |s.threads|) then s
    else match e
      case TickEvent => Tick(s)
      case Yield => Scheduled(if s.curr == -1 then s else Emptied(s))
      case SetPriority(i, p) =>
        if i < |s.threads| then s.(threads := s.threads[i := s.threads[i].(priority := Clamp(p))]) else s
      case Create => s.(threads := s.threads + [Thread(0, PRIORITY_DEFAULT, false)])
      case StartThread(i) => if i < |s.threads| then Started(s, i) else s
      case Resume(i) => if i < |s.threads| then Resumed(s, i) else s
      case Pause(i) => if i < |s.threads| then Paused(s, i) else s
      case Suspend(i) => if i < |s.threads| then Scheduled(Paused(s, i)) else s
  }

  /** A yield passes the processor on whenever another thread has time left. */
  lemma YieldPasses(s: State, j: nat)
    requires Valid(s) && s.curr != -1 && j < |s.threads| && j != s.curr
    requires s.threads[j].running && s.threads[j].quantums > 0
    ensures Step(s, Yield).curr != s.curr
  {
    var ts := Emptied(s).threads;
    assert ts[j] == s.threads[j] && ts[s.curr].quantums == 0;
    BestIsBest(ts);
  }

  /** The rest of this round and the next one: a runnable thread runs for the quantums that it has, and
      after the refill for its priority. */
  lemma TwoRounds(s: State, i: nat)
    requires Valid(s) && i < |s.threads| && s.threads[i].running
    ensures 1 <= Left(s) && Ran(s, Left(s) - 1, i) == s.threads[i].quantums
    ensures var u := Tick(Run(s, Left(s) - 1));
      && Refills(Run(s, Left(s) - 1)) && Valid(u) && |u.threads| == |s.threads| && 1 <= Left(u)
      && Ran(u, Left(u) - 1, i) == s.threads[i].priority
  {
    hide Best, Shares, Run, Ran, Bound, Bounded, Tick, Left, Refills, CurrQuantums;
    Round(s);
    RoundGoesOn(s, Left(s) - 1);
    var t := Run(s, Left(s) - 1);
    assert t.threads[i].running;
    Fairness(t, i);
    TickLength(t);
  }

  lemma TickLength(s: State)
    requires Valid(s)
    ensures |Tick(s).threads| == |s.threads|
  {
  }

  /** A thread that is created and started waits for the next refill and then runs for 16 ticks a round. */
  lemma NewThreadRuns(s: State)
    requires Valid(s)
    ensures var t := Events(s, [Create, StartThread(|s.threads|)]);
      && Valid(t) && |t.threads| == |s.threads| + 1 && 1 <= Left(t)
      && Ran(t, Left(t) - 1, |s.threads|) == 0 && RanNext(t, |s.threads|) == 16
  {
    hide Left, Ran, RanNext, Events, Step, Tick, Run, Refills, CurrQuantums;
    TwoEvents(s, Create, StartThread(|s.threads|));
    var t := s.(threads := s.threads + [Thread(0, 16, true)]);
    NewThread(s);
    TwoRounds(t, |s.threads|);
    RanNextIs(t, |s.threads|);
  }

  lemma NewThread(s: State)
    requires Valid(s)
    ensures Step(Step(s, Create), StartThread(|s.threads|)) == s.(threads := s.threads + [Thread(0, 16, true)])
  {
    hide Tick, Scheduled;
    assert Step(s, Create) == s.(threads := s.threads + [Thread(0, 16, false)]);
  }

  /** A runnable thread whose priority is set runs for that many ticks a round from the next refill on. */
  lemma PriorityRuns(s: State, i: nat, priority: int)
    requires Valid(s) && i < |s.threads| && s.threads[i].running
    ensures var t := Step(s, SetPriority(i, priority));
      Valid(t) && |t.threads| == |s.threads| && RanNext(t, i) == Clamp(priority)
  {
    hide RanNext;
    RanNextIs(Step(s, SetPriority(i, priority)), i);
  }

  lemma TwoEvents(s: State, d: Event, e: Event)
    ensures Events(s, [d, e]) == Step(Step(s, d), e)
  {
    assert [d, e][..1] == [d] && [d][..0] == [];
    assert Events(s, [d]) == Step(Events(s, []), d);
  }

  /** The ticks that thread `i` runs for between the next two refills. */
  function RanNext(s: State, i: nat): (n: nat)
    requires Valid(s) && i < |s.threads|
  {
    if Left(s) < 1 then 0
    else
      var u := Run(s, Left(s));
      if Left(u) < 1 then 0 else Ran(u, Left(u) - 1, i)
  }

  lemma RanNextIs(s: State, i: nat)
    requires Valid(s) && i < |s.threads| && s.threads[i].running
    ensures RanNext(s, i) == s.threads[i].priority
  {
    hide Best, Shares, Tick, Left, Ran;
    TwoRounds(s, i);
  }

  function Events(s: State, es: seq<Event>): (r: State) {
    if es == [] then s else Step(Events(s, es[..|es| - 1]), es[|es| - 1])
  }

  /** What holds even while the current thread is being suspended. */
  ghost predicate Sound(s: State) {
    Bounded(s.threads) && -1 <= s.curr < |s.threads|
  }

  /** The event suspends the current thread and leaves the choice of another to a later step. */
  predicate PausesCurrent(s: State, e: Event) {
    e.Pause? && e.i == s.curr
  }

  lemma ValidIsSound(s: State)
    requires Valid(s)
    ensures Sound(s)
  {
  }

  /** Over every run of events the quantums stay within 0..42. The current thread is runnable as long
      as no event suspends it without a reschedule. */
  lemma {:induction false} EventsValid(s: State, es: seq<Event>)
    requires Valid(s)
    ensures Sound(Events(s, es))
    ensures (forall k :: 0 <= k < |es| ==> !PausesCurrent(Events(s, es[..k]), es[k])) ==> Valid(Events(s, es))
  {
    hide Step, Valid, PausesCurrent;
    if es == [] {
      assert Sound(s) by { ValidIsSound(s); }
    } else {
      var n := |es| - 1;
      var t := Events(s, es[..n]);
      EventsValid(s, es[..n]);
      StepSound(t, es[n]);
      if forall k :: 0 <= k < |es| ==> !PausesCurrent(Events(s, es[..k]), es[k]) {
        forall k | 0 <= k < n ensures !PausesCurrent(Events(s, es[..n][..k]), es[..n][k]) {
          assert es[..n][..k] == es[..k];
        }
        assert !PausesCurrent(Events(s, es[..n]), es[n]);
        StepValidIff(t, es[n]);
      }
    }
  }

  /** From any sound state a reschedule ends with a runnable current thread. */
  lemma ScheduledValid(s: State)
    requires Bounded(s.threads)
    ensures Valid(Scheduled(s))
  {
    BestIsBest(s.threads);
    RefilledBounded(s.threads);
  }

  lemma StepSound(s: State, e: Event)
    requires Sound(s)
    ensures Sound(Step(s, e))
  {
    hide OutOfTime, Refilled, Best;
    match e {
      case TickEvent => ScheduledValid(s);
      case Yield => ScheduledValid(if s.curr == -1 then s else Emptied(s));
      case Resume(i) => if i < |s.threads| { ScheduledValid(Started(s, i)); }
      case Suspend(i) => if i < |s.threads| { ScheduledValid(Paused(s, i)); }
      case _ =>
    }
  }

  /** Every event keeps the invariant, except that a current thread suspended without a reschedule is no
      longer runnable. */
  lemma StepValidIff(s: State, e: Event)
    requires Valid(s)
    ensures Valid(Step(s, e)) <==> !PausesCurrent(s, e)
  {
    hide OutOfTime, Refilled, Best;
    match e {
      case TickEvent => TickValid(s);
      case Yield => ScheduledValid(if s.curr == -1 then s else Emptied(s));
      case Resume(i) => if i < |s.threads| { ScheduledValid(Started(s, i)); }
      case Suspend(i) => if i < |s.threads| { ScheduledValid(Paused(s, i)); }
      case _ =>
    }
  }

  /** The run-time state: globals currThread and thrNeedSchedule, and the thread list. */
  class Cpu {
    var threads: seq<Thread>
    var curr: int
    var needSchedule: bool

    function View(): (s: State)
      reads this
    {
      State(threads, curr)
    }

    constructor ()
      ensures View() == State([], -1) && Valid(View()) && !needSchedule
    {
      threads, curr, needSchedule := [], -1, false;
    }

    /** ThrChooseNewThread. */
    method ChooseNewThread() returns (b: int)
      requires Bounded(threads)
      modifies this`threads
      ensures IsBest(old(threads), b) && b == Best(old(threads))
      ensures threads == if Score(old(threads), b) == 0 then Refilled(old(threads)) else old(threads)
    {
      BestIsBest(threads);
      var c, i := -1, 0;
      b := -1;
      while i < |threads|
        invariant 0 <= i <= |threads| && -1 <= b < i && b == Best(threads[..i]) && c == Score(threads, b)
      {
        assert threads[..i + 1][..i] == threads[..i];
        if threads[i].quantums > c && threads[i].running {
          c, b := threads[i].quantums, i;
        }
        i := i + 1;
      }
      assert threads[..i] == threads;
      if c == 0 {
        ghost var before := threads;
        i := 0;
        while i < |threads|
          invariant 0 <= i <= |threads| == |before|
          invariant forall k :: 0 <= k < |threads| ==> threads[k] == if k < i then Refill(before[k]) else before[k]
        {
          threads := threads[i := threads[i].(quantums := threads[i].priority + threads[i].quantums / 4)];
          i := i + 1;
        }
        assert threads == Refilled(before);
      }
    }

    method Schedule()
      requires Bounded(threads)
      modifies this
      ensures Valid(View()) && !needSchedule && View() == Scheduled(old(View()))
    {
      ScheduledValid(View());
      needSchedule := false;
      curr := ChooseNewThread();
    }

    /** PitInterrupt, and the check of thrNeedSchedule at the end of the interrupt. */
    method TimerInterrupt()
      requires Valid(View()) && !needSchedule
      modifies this
      ensures Valid(View()) && !needSchedule && View() == Tick(old(View()))
    {
      TickValid(View());
      if curr != -1 && threads[curr].quantums > 0 {
        threads := threads[curr := threads[curr].(quantums := threads[curr].quantums - 1)];
      } else {
        needSchedule := true;
      }
      if needSchedule {
        Schedule();
      }
    }

    /** ThrCreateThread, as the scheduler sees it. */
    method CreateThread()
      requires Valid(View())
      modifies this`threads
      ensures Valid(View()) && View() == Step(old(View()), Create)
    {
      threads := threads + [Thread(0, PRIORITY_DEFAULT, false)];
    }

    /** ThrSetPriority. */
    method SetThreadPriority(i: nat, priority: int)
      requires Valid(View()) && i < |threads|
      modifies this`threads
      ensures Valid(View()) && View() == Step(old(View()), SetPriority(i, priority))
    {
      var p := priority;
      if p > PRIORITY_TOP {
        p := PRIORITY_TOP;
      } else if p < PRIORITY_NONE {
        p := PRIORITY_NONE;
      }
      threads := threads[i := threads[i].(priority := p)];
    }

    /** ThrSuspendThread. */
    method SuspendThread(i: nat)
      requires Sound(View()) && i < |threads|
      modifies this`threads
      ensures Sound(View()) && View() == Step(old(View()), Pause(i))
    {
      StepSound(View(), Pause(i));
      if threads[i].running {
        threads := threads[i := threads[i].(running := false)];
      }
    }

    /** SysSuspendThread, Sleep and the wait queues: suspend, then choose another thread. */
    method SuspendAndSchedule(i: nat)
      requires Sound(View()) && i < |threads|
      modifies this
      ensures Valid(View()) && !needSchedule && View() == Step(old(View()), Suspend(i))
    {
      SuspendThread(i);
      Schedule();
    }

    /** ThrResumeThread, and the check of thrNeedSchedule at the end of the interrupt or system call. */
    method ResumeThread(i: nat)
      requires Valid(View()) && !needSchedule && i < |threads|
      modifies this
      ensures Valid(View()) && !needSchedule && View() == Step(old(View()), Resume(i))
    {
      StepValidIff(View(), Resume(i));
      if !threads[i].running {
        threads := threads[i := threads[i].(running := true)];
        if threads[i].quantums >= if curr == -1 then 0 else threads[curr].quantums {
          needSchedule := true;
        }
      }
      if needSchedule {
        Schedule();
      }
    }

    /** SysYield, and the reschedule at the end of the system call. */
    method SysYield()
      requires Valid(View())
      modifies this
      ensures Valid(View()) && View() == Step(old(View()), Yield)
    {
      if curr != -1 {
        threads := threads[curr := threads[curr].(quantums := 0)];
      }
      needSchedule := true;
      Schedule();
    }
  }
}
