/**
  Runs of the reader/writer lock: any number of steps by any threads, in any order,
  with any choice of whom a signal wakes and with spurious wakeups.
  */
module RwLockTheorems {
  import opened RwLockSteps

  ghost predicate IsRun(ss: seq<Lock>, acts: seq<Action>, threads: nat, retest: bool) {
    && |ss| == |acts| + 1 && ss[0] == Init(threads)
    && forall i | 0 <= i < |acts| :: Enabled(ss[i], acts[i]) && ss[i + 1] == Apply(ss[i], acts[i], retest)
  }

  lemma {:induction false} RunInv(ss: seq<Lock>, acts: seq<Action>, threads: nat, retest: bool, i: nat)
    requires IsRun(ss, acts, threads, retest) && threads <= WRITER_RING_SIZE && i <= |acts|
    ensures Inv(ss[i])
  {
    if i == 0 {
      InitInv(threads);
    } else {
      RunInv(ss, acts, threads, retest, i - 1);
      StepInv(ss[i - 1], acts[i - 1], retest);
    }
  }

  // ------------------------------------------------------------- first in, first out

  /** Writers enter in exactly the order they enrolled, and a writer's ring cell is intact until it enters. */
  lemma WritersEnterInOrder(ss: seq<Lock>, acts: seq<Action>, threads: nat, retest: bool, i: nat)
    requires IsRun(ss, acts, threads, retest) && threads <= WRITER_RING_SIZE && i <= |acts|
    ensures ss[i].admitted <= ss[i].enrolled
    ensures forall k | |ss[i].admitted| <= k < |ss[i].enrolled| ::
              && |ss[i].ring| == 10 && ss[i].ring[k % 10] == ss[i].enrolled[k]
    ensures |ss[i].enrolled| - |ss[i].admitted| <= threads
  {
    RunInv(ss, acts, threads, retest, i);
    var s := ss[i];
    RunThreads(ss, acts, threads, retest, i);
    Pigeonhole(s.enrolled[|s.admitted|..], threads);
  }

  lemma {:induction false} RunThreads(ss: seq<Lock>, acts: seq<Action>, threads: nat, retest: bool, i: nat)
    requires IsRun(ss, acts, threads, retest) && i <= |acts|
    ensures |ss[i].pc| == threads
  {
    if i > 0 { RunThreads(ss, acts, threads, retest, i - 1); }
  }

  /** The two histories only grow, so the order above is the order over the whole run. */
  lemma {:induction false} HistoriesGrow(ss: seq<Lock>, acts: seq<Action>, threads: nat, retest: bool, i: nat, j: nat)
    requires IsRun(ss, acts, threads, retest) && i <= j <= |acts|
    ensures ss[i].enrolled <= ss[j].enrolled && ss[i].admitted <= ss[j].admitted
    decreases j
  {
    if i < j { HistoriesGrow(ss, acts, threads, retest, i, j - 1); }
  }

  // ---------------------------------------------------------------- the counts

  /** The counts are what rwlock.h says they are, and no reader waits unnotified for a writer that is gone. */
  lemma CountsAreRight(ss: seq<Lock>, acts: seq<Action>, threads: nat, retest: bool, i: nat)
    requires IsRun(ss, acts, threads, retest) && threads <= WRITER_RING_SIZE && i <= |acts|
    ensures ss[i].readCount == Count(ss[i].pc, Reader) && ss[i].writeCount == Count(ss[i].pc, Writer)
    ensures ss[i].writeCount == 0 ==> forall t | 0 <= t < |ss[i].pc| :: !ss[i].pc[t].ReaderAsleep?
  {
    RunInv(ss, acts, threads, retest, i);
  }

  // ----------------------------------------------------------------- exclusion

  /** At most one writer inside, and never with a reader. */
  ghost predicate Exclusive(s: Lock) {
    && Count(s.pc, Writer) <= 1
    && (Count(s.pc, Writer) == 1 ==> forall t | 0 <= t < |s.pc| :: !s.pc[t].Reading?)
  }

  ghost predicate Occupied(s: Lock) {
    s.writeCount > 0 || exists t | 0 <= t < |s.pc| :: s.pc[t].Reading?
  }

  /** A writer leaves the second wait loop while somebody is inside. */
  ghost predicate UncheckedEntry(s: Lock, a: Action) {
    && a.WriterRetry? && a.t < |s.pc| && s.pc[a.t].SecondAwake?
    && s.tail < |s.ring| && s.ring[s.tail] == a.t && Occupied(s)
  }

  lemma EntryCounts(s: Lock, t: nat)
    requires CountsOK(s) && t < |s.pc| && s.pc[t].IsPending()
    ensures Count(s.pc[t := Writing], Writer) == s.writeCount + 1
    ensures forall u | 0 <= u < |s.pc| && u != t :: s.pc[t := Writing][u] == s.pc[u]
  {
    CountUpdate(s.pc, Writer, t, Writing);
  }

  /** A reader inside is counted, so a writer that passes the first test finds nobody inside. */
  lemma ZeroCountsMeanEmpty(s: Lock)
    requires CountsOK(s) && s.readCount <= 0 && s.writeCount <= 0
    ensures !Occupied(s)
  {
    if t :| 0 <= t < |s.pc| && s.pc[t].Reading? { CountPositive(s.pc, Reader, t); }
  }

  lemma WriterRetryExclusive(s: Lock, t: nat, retest: bool)
    requires Inv(s) && Exclusive(s) && Enabled(s, WriterRetry(t))
    ensures Exclusive(Apply(s, WriterRetry(t), retest)) <==> !UncheckedEntry(s, WriterRetry(t))
  {
    var s' := Apply(s, WriterRetry(t), retest);
    if s'.pc[t].Writing? {
      EntryCounts(s, t);
      if s.pc[t].FirstAwake? { ZeroCountsMeanEmpty(s); }
      if u :| 0 <= u < |s.pc| && s.pc[u].Reading? { assert s'.pc[u].Reading?; }
    } else {
      CountUpdate(s.pc, Writer, t, s'.pc[t]);
    }
  }

  lemma WriteLockExclusive(s: Lock, t: nat, retest: bool)
    requires Inv(s) && Exclusive(s) && Enabled(s, WriteLock(t))
    ensures Exclusive(Apply(s, WriteLock(t), retest))
  {
    var s' := Apply(s, WriteLock(t), retest);
    CountUpdate(s.pc, Writer, t, s'.pc[t]);
    if s'.pc[t].Writing? { ZeroCountsMeanEmpty(s); }
  }

  lemma ReaderExclusive(s: Lock, t: nat, retest: bool, a: Action)
    requires Inv(s) && Exclusive(s) && Enabled(s, a) && (a == ReadLock(t) || a == ReaderRetry(t) || a == WakeUp(t))
    ensures Exclusive(Apply(s, a, retest))
  {
    CountUpdate(s.pc, Writer, t, Apply(s, a, retest).pc[t]);
  }

  lemma UnlockExclusive(s: Lock, a: Action, retest: bool)
    requires Inv(s) && Exclusive(s) && Enabled(s, a) && (a.ReadUnlock? || a.WriteUnlock?)
    ensures Exclusive(Apply(s, a, retest))
  {
    var s' := Apply(s, a, retest);
    CountUpdate(s.pc, Writer, a.t, Idle);
    WakeCounts(s.pc[a.t := Idle], s'.pc);
  }

  /** A step breaks exclusion exactly when it is an unchecked entry. */
  lemma StepExclusive(s: Lock, a: Action, retest: bool)
    requires Inv(s) && Exclusive(s) && Enabled(s, a)
    ensures Exclusive(Apply(s, a, retest)) <==> !UncheckedEntry(s, a)
  {
    match a
    case WriterRetry(t) => WriterRetryExclusive(s, t, retest);
    case WriteLock(t) => WriteLockExclusive(s, t, retest);
    case ReadUnlock(_, _) => UnlockExclusive(s, a, retest);
    case WriteUnlock(_, _) => UnlockExclusive(s, a, retest);
    case _ => ReaderExclusive(s, a.t, retest, a);
  }

  ghost predicate ExclusiveUpTo(ss: seq<Lock>, n: nat)
    requires n < |ss|
  {
    forall i | 0 <= i <= n :: Exclusive(ss[i])
  }

  ghost predicate CheckedUpTo(ss: seq<Lock>, acts: seq<Action>, n: nat)
    requires n <= |acts| && n < |ss|
  {
    forall i | 0 <= i < n :: !UncheckedEntry(ss[i], acts[i])
  }

  /** A run keeps exclusion throughout exactly when it has no unchecked entry. */
  lemma {:induction false} RunExclusive(ss: seq<Lock>, acts: seq<Action>, threads: nat, retest: bool, n: nat)
    requires IsRun(ss, acts, threads, retest) && threads <= WRITER_RING_SIZE && n <= |acts|
    ensures ExclusiveUpTo(ss, n) <==> CheckedUpTo(ss, acts, n)
  {
    if n == 0 {
      NobodyInside(threads, Writer);
    } else {
      RunExclusive(ss, acts, threads, retest, n - 1);
      assert ExclusiveUpTo(ss, n) <==> ExclusiveUpTo(ss, n - 1) && Exclusive(ss[n]);
      assert CheckedUpTo(ss, acts, n) <==> CheckedUpTo(ss, acts, n - 1) && !UncheckedEntry(ss[n - 1], acts[n - 1]);
      if ExclusiveUpTo(ss, n - 1) {
        RunInv(ss, acts, threads, retest, n - 1);
        StepExclusive(ss[n - 1], acts[n - 1], retest);
      }
    }
  }

  // ------------------------------------------------ entry with nobody even pending

  /** A writer enters, while readers inside or pending, or writers inside, are counted. */
  ghost predicate EntersCounted(s: Lock, a: Action, retest: bool)
    requires Enabled(s, a)
  {
    Apply(s, a, retest).admitted != s.admitted && (s.readCount > 0 || s.writeCount > 0)
  }

  /** A writer leaves the second wait loop with a count above zero. */
  ghost predicate LeavesSecondCounted(s: Lock, a: Action) {
    && a.WriterRetry? && a.t < |s.pc| && s.pc[a.t].SecondAwake?
    && s.tail < |s.ring| && s.ring[s.tail] == a.t && (s.readCount > 0 || s.writeCount > 0)
  }

  /** Only by leaving the second loop does a writer enter with a count above zero. */
  lemma StepEntry(s: Lock, a: Action, retest: bool)
    requires Enabled(s, a)
    ensures EntersCounted(s, a, retest) <==> LeavesSecondCounted(s, a)
  {
    assert |s.admitted + [a.t]| == |s.admitted| + 1;
  }

  ghost predicate EntriesUncounted(ss: seq<Lock>, n: nat)
    requires n < |ss|
  {
    forall i | 0 <= i < n :: GoodEntry(ss[i], ss[i + 1])
  }

  ghost predicate GoodEntry(s: Lock, s': Lock) {
    s'.admitted != s.admitted ==> s.readCount <= 0 && s.writeCount <= 0
  }

  ghost predicate NoneLeavesCounted(ss: seq<Lock>, acts: seq<Action>, n: nat)
    requires n <= |acts| && n < |ss|
  {
    forall i | 0 <= i < n :: !LeavesSecondCounted(ss[i], acts[i])
  }

  /** In a run writers enter only with no reader and no writer exactly when none leaves the second loop otherwise. */
  lemma {:induction false} RunEntry(ss: seq<Lock>, acts: seq<Action>, threads: nat, retest: bool, n: nat)
    requires IsRun(ss, acts, threads, retest) && n <= |acts|
    ensures EntriesUncounted(ss, n) <==> NoneLeavesCounted(ss, acts, n)
  {
    if n > 0 {
      RunEntry(ss, acts, threads, retest, n - 1);
      StepEntry(ss[n - 1], acts[n - 1], retest);
      assert EntriesUncounted(ss, n) <==> EntriesUncounted(ss, n - 1) && GoodEntry(ss[n - 1], ss[n]);
      assert NoneLeavesCounted(ss, acts, n)
             <==> NoneLeavesCounted(ss, acts, n - 1) && !LeavesSecondCounted(ss[n - 1], acts[n - 1]);
    }
  }

  /** Writers that never sleep in the second loop exclude everybody, and enter with no reader even pending. */
  lemma ExclusionWithoutSecondLoop(ss: seq<Lock>, acts: seq<Action>, threads: nat, retest: bool, n: nat)
    requires IsRun(ss, acts, threads, retest) && threads <= WRITER_RING_SIZE && n <= |acts|
    requires forall i, t | 0 <= i <= n && 0 <= t < |ss[i].pc| :: !ss[i].pc[t].SecondAsleep?
    ensures Exclusive(ss[n])
    ensures n < |acts| && ss[n + 1].admitted != ss[n].admitted ==> ss[n].readCount <= 0 && ss[n].writeCount <= 0
  {
    forall i | 0 <= i <= n ensures NoSecond(ss[i]) { NoSecondAwake(ss, acts, threads, retest, i); }
    RunExclusive(ss, acts, threads, retest, n);
    if n < |acts| { assert ss[n + 1] == Apply(ss[n], acts[n], retest); }
  }

  ghost predicate NoSecond(s: Lock) {
    forall t | 0 <= t < |s.pc| :: !s.pc[t].SecondAsleep? && !s.pc[t].SecondAwake?
  }

  /** Only who sleeps in the second loop wakes up in it. */
  lemma NoneWakesInSecond(s: Lock, a: Action, retest: bool)
    requires Enabled(s, a) && NoSecond(s)
    ensures forall t | 0 <= t < |s.pc| :: !Apply(s, a, retest).pc[t].SecondAwake?
  {
  }

  /** With both conditions in one test the second loop is never entered. */
  lemma NoneFallsAsleepInSecond(s: Lock, a: Action)
    requires Enabled(s, a) && NoSecond(s)
    ensures forall t | 0 <= t < |s.pc| :: !Apply(s, a, true).pc[t].SecondAsleep?
  {
  }

  lemma {:induction false} NoSecondAwake(ss: seq<Lock>, acts: seq<Action>, threads: nat, retest: bool, i: nat)
    requires IsRun(ss, acts, threads, retest) && i <= |acts|
    requires forall k, t | 0 <= k <= i && 0 <= t < |ss[k].pc| :: !ss[k].pc[t].SecondAsleep?
    ensures NoSecond(ss[i])
  {
    if i > 0 {
      NoSecondAwake(ss, acts, threads, retest, i - 1);
      NoneWakesInSecond(ss[i - 1], acts[i - 1], retest);
    }
  }

  lemma {:induction false} RetestSkipsSecondLoop(ss: seq<Lock>, acts: seq<Action>, threads: nat, i: nat)
    requires IsRun(ss, acts, threads, true) && i <= |acts|
    ensures NoSecond(ss[i])
  {
    if i > 0 {
      RetestSkipsSecondLoop(ss, acts, threads, i - 1);
      NoneFallsAsleepInSecond(ss[i - 1], acts[i - 1]);
      NoneWakesInSecond(ss[i - 1], acts[i - 1], true);
    }
  }

  /** Testing counts and turn together, as the design asks, gives exclusion in every run. */
  lemma ExclusionWithRetest(ss: seq<Lock>, acts: seq<Action>, threads: nat, n: nat)
    requires IsRun(ss, acts, threads, true) && threads <= WRITER_RING_SIZE && n <= |acts|
    ensures Exclusive(ss[n])
    ensures n < |acts| && ss[n + 1].admitted != ss[n].admitted ==> ss[n].readCount <= 0 && ss[n].writeCount <= 0
  {
    forall i | 0 <= i <= n ensures NoSecond(ss[i]) { RetestSkipsSecondLoop(ss, acts, threads, i); }
    ExclusionWithoutSecondLoop(ss, acts, threads, true, n);
  }

  /** A writer unlocking an exclusive lock never gets the error return. */
  lemma UnlockSucceeds(s: Lock, t: nat, woken: set<nat>)
    requires Inv(s) && Exclusive(s) && Enabled(s, WriteUnlock(t, woken))
    ensures s.writeCount == 1
  {
    CountPositive(s.pc, Writer, t);
  }

  // ----------------------------------------------------------- who enters, who wakes

  /** Thread i slept as a writer and no longer does. */
  ghost predicate WriterWoken(s: Lock, s': Lock, i: int) {
    0 <= i < |s.pc| == |s'.pc| && WriterSleeps(s.pc[i]) && !WriterSleeps(s'.pc[i]) && s'.pc[i] != Writing
  }

  /** The last reader to leave wakes a writer, if any sleeps. */
  lemma LastReaderWakesWriter(s: Lock, t: nat, woken: set<nat>, retest: bool)
    requires Enabled(s, ReadUnlock(t, woken)) && s.readCount == 1
    requires exists i :: 0 <= i < |s.pc| && WriterSleeps(s.pc[i])
    ensures exists i :: WriterWoken(s, Apply(s, ReadUnlock(t, woken), retest), i)
  {
    var i :| 0 <= i < |s.pc| && WriterSleeps(s.pc[i]);
    var s0 := At(s, t, Idle);
    assert WriterSleeps(s0.pc[i]);
    var k :| k in woken;
    assert WriterSleeps(s0.pc[k]);
    assert WriterWoken(s, Apply(s, ReadUnlock(t, woken), retest), k);
  }

  /** So does a writer that leaves the lock with no reader inside or waiting. */
  lemma LastWriterWakesWriter(s: Lock, t: nat, woken: set<nat>, retest: bool)
    requires Enabled(s, WriteUnlock(t, woken)) && s.writeCount == 1 && s.readCount <= 0
    requires exists i :: 0 <= i < |s.pc| && WriterSleeps(s.pc[i])
    ensures exists i :: WriterWoken(s, Apply(s, WriteUnlock(t, woken), retest), i)
  {
    var i :| 0 <= i < |s.pc| && WriterSleeps(s.pc[i]);
    var s0 := At(s, t, Idle);
    assert WriterSleeps(s0.pc[i]);
    var k :| k in woken;
    assert WriterSleeps(s0.pc[k]);
    assert WriterWoken(s, Apply(s, WriteUnlock(t, woken), retest), k);
  }

  /** With readers waiting it wakes all of them instead, and no writer. */
  lemma LastWriterWakesReaders(s: Lock, t: nat, woken: set<nat>, retest: bool)
    requires Enabled(s, WriteUnlock(t, woken)) && s.writeCount == 1 && s.readCount > 0
    ensures forall i | 0 <= i < |s.pc| && i != t ::
              Apply(s, WriteUnlock(t, woken), retest).pc[i] == if s.pc[i] == ReaderAsleep then ReaderAwake else s.pc[i]
  {
  }

  /** A reader that is not the last leaves without waking anybody. */
  lemma OtherReaderWakesNobody(s: Lock, t: nat, woken: set<nat>, retest: bool)
    requires Enabled(s, ReadUnlock(t, woken)) && s.readCount != 1
    ensures Apply(s, ReadUnlock(t, woken), retest).pc == s.pc[t := Idle]
  {
  }

  /** A reader, new or woken, gets in exactly when no writer is inside, and is counted either way. */
  lemma ReaderEntersIff(s: Lock, a: Action, retest: bool)
    requires Inv(s) && Enabled(s, a) && (a.ReadLock? || a.ReaderRetry?)
    ensures var s' := Apply(s, a, retest);
            && (s'.pc[a.t] == Reading <==> forall i | 0 <= i < |s.pc| :: s.pc[i] != Writing)
            && (s'.pc[a.t] == Reading || s'.pc[a.t] == ReaderAsleep)
            && Count(s'.pc, Reader) == Count(s.pc, Reader) + if a.ReadLock? then 1 else 0
  {
    OneMoves(s, a, retest);
    MoveCounts(s.pc, a.t, Apply(s, a, retest).pc[a.t]);
    WriterInside(s.pc);
  }

  lemma {:induction false} WriterInside(pc: seq<Pc>)
    ensures Count(pc, Writer) > 0 <==> exists i :: 0 <= i < |pc| && pc[i] == Writing
  {
    if i :| 0 <= i < |pc| && pc[i] == Writing { CountPositive(pc, Writer, i); }
    if pc != [] {
      var n := |pc| - 1;
      WriterInside(pc[..n]);
      if i :| 0 <= i < |pc[..n]| && pc[..n][i] == Writing { assert pc[i] == Writing; }
    }
  }

  /** Nobody reads, waits to read or writes, as far as the counts say. */
  predicate NoneCounted(s: Lock) {
    s.readCount <= 0 && s.writeCount <= 0
  }

  /** t is the writer that enrolled first of those that have not entered. */
  predicate IsNext(s: Lock, t: nat) {
    |s.admitted| < |s.enrolled| && s.enrolled[|s.admitted|] == t
  }

  lemma TailIsNext(s: Lock, t: nat)
    requires RingOK(s) && t < |s.pc| && s.pc[t].IsPending()
    ensures s.ring[s.tail] == t <==> IsNext(s, t)
  {
    var a := |s.admitted|;
    assert t in s.enrolled[a..];
    assert s.ring[a % WRITER_RING_SIZE] == s.enrolled[a];
  }

  /** A woken writer gets in exactly when it is next and, in the first loop, nobody is counted. */
  lemma WokenWriterEntersIff(s: Lock, t: nat)
    requires Inv(s) && Enabled(s, WriterRetry(t))
    ensures Apply(s, WriterRetry(t), false).pc[t]
         == if s.pc[t] == FirstAwake && !NoneCounted(s) then FirstAsleep
            else if IsNext(s, t) then Writing else SecondAsleep
  {
    TailIsNext(s, t);
  }

  /** A new writer gets in exactly when nobody is counted and no writer is pending. */
  lemma NewWriterEntersIff(s: Lock, t: nat)
    requires Inv(s) && Enabled(s, WriteLock(t))
    ensures Apply(s, WriteLock(t), false).pc[t]
         == if !NoneCounted(s) then FirstAsleep
            else if forall i | 0 <= i < |s.pc| :: !s.pc[i].IsPending() then Writing else SecondAsleep
  {
    var s1 := At(Enrol(s, t), t, FirstAsleep);
    EnrolRing(s, t);
    TailIsNext(s1, t);
    NextIfEmpty(s, t);
  }

  lemma NextIfEmpty(s: Lock, t: nat)
    requires RingOK(s) && t < |s.pc| && !s.pc[t].IsPending()
    ensures IsNext(At(Enrol(s, t), t, FirstAsleep), t) <==> forall i | 0 <= i < |s.pc| :: !s.pc[i].IsPending()
  {
    var a, e := |s.admitted|, |s.enrolled|;
    if a < e {
      assert s.pc[s.enrolled[a]].IsPending();
    } else {
      assert s.enrolled[a..] == [];
    }
  }

  // ------------------------------------------------------------- it can go wrong

  /** A run of two threads in which every signal wakes the one sleeper and nobody wakes by chance. */
  function BadRun(): seq<Action> {
    [ WriteLock(0),          // 0 is inside
      WriteLock(1),          // 1 waits for the counts
      WriteUnlock(0, {1}),   // the signal wakes 1
      WriteLock(0),          // but 0 is back first, and waits for its turn only
      WriterRetry(1),        // 1 is inside
      WriteUnlock(1, {0}),   // the signal wakes 0
      ReadLock(1),           // but 1 is back first, as a reader
      WriterRetry(0) ]       // and 0 enters all the same
  }

  /** The lock when of the writers 0, 1, 0 as many as e have enrolled and as many as a entered; p and q are at work. */
  function Stage(threads: nat, readCount: int, writeCount: int, e: nat, a: nat, p: Pc, q: Pc): Lock
    requires a <= e <= 3 && threads >= 2
  {
    Lock(readCount, writeCount, [0, if e > 1 then 1 else 0, 0, 0, 0, 0, 0, 0, 0, 0], e, a,
         TwoAtWork(threads, p, q), [0, 1, 0][..e], [0, 1, 0][..a])
  }

  function TwoAtWork(threads: nat, p: Pc, q: Pc): (pc: seq<Pc>)
    requires threads >= 2
    ensures |pc| == threads && pc[0] == p && pc[1] == q
  {
    [p, q] + seq(threads - 2, _ => Idle)
  }

  function BadStage(threads: nat, i: nat): Lock
    requires threads >= 2
  {
    if i == 0 then Stage(threads, 0, 0, 0, 0, Idle, Idle)
    else if i == 1 then Stage(threads, 0, 1, 1, 1, Writing, Idle)
    else if i == 2 then Stage(threads, 0, 1, 2, 1, Writing, FirstAsleep)
    else if i == 3 then Stage(threads, 0, 0, 2, 1, Idle, FirstAwake)
    else if i == 4 then Stage(threads, 0, 0, 3, 1, SecondAsleep, FirstAwake)
    else if i == 5 then Stage(threads, 0, 1, 3, 2, SecondAsleep, Writing)
    else if i == 6 then Stage(threads, 0, 0, 3, 2, SecondAwake, Idle)
    else if i == 7 then Stage(threads, 1, 0, 3, 2, SecondAwake, Reading)
    else Stage(threads, 1, 1, 3, 3, Writing, Reading)
  }

  function BadStages(threads: nat): (ss: seq<Lock>)
    requires threads >= 2
    ensures |ss| == 9 && forall i | 0 <= i < 9 :: ss[i] == BadStage(threads, i)
  {
    seq(9, i requires 0 <= i < 9 => BadStage(threads, i))
  }

  ghost predicate Follows(s: Lock, a: Action, s': Lock) {
    Enabled(s, a) && s' == Apply(s, a, false)
  }

  lemma OneOfTwoMoves(threads: nat, p: Pc, q: Pc, x: Pc)
    requires threads >= 2
    ensures TwoAtWork(threads, p, q)[0 := x] == TwoAtWork(threads, x, q)
    ensures TwoAtWork(threads, p, q)[1 := x] == TwoAtWork(threads, p, x)
  {
  }

  lemma BadWriters(threads: nat)
    requires threads >= 2
    ensures Follows(Stage(threads, 0, 0, 0, 0, Idle, Idle), WriteLock(0), Stage(threads, 0, 1, 1, 1, Writing, Idle))
    ensures Follows(Stage(threads, 0, 1, 1, 1, Writing, Idle), WriteLock(1),
                    Stage(threads, 0, 1, 2, 1, Writing, FirstAsleep))
  {
    OneOfTwoMoves(threads, Idle, Idle, Writing);
    OneOfTwoMoves(threads, Writing, Idle, FirstAsleep);
  }

  lemma BadFirstUnlock(threads: nat)
    requires threads >= 2
    ensures Follows(Stage(threads, 0, 1, 2, 1, Writing, FirstAsleep), WriteUnlock(0, {1}),
                    Stage(threads, 0, 0, 2, 1, Idle, FirstAwake))
  {
    OneOfTwoMoves(threads, Writing, FirstAsleep, Idle);
    assert 1 in {1} && WriterSleeps(TwoAtWork(threads, Idle, FirstAsleep)[1]);
  }

  lemma BadReturn(threads: nat)
    requires threads >= 2
    ensures Follows(Stage(threads, 0, 0, 2, 1, Idle, FirstAwake), WriteLock(0),
                    Stage(threads, 0, 0, 3, 1, SecondAsleep, FirstAwake))
    ensures Follows(Stage(threads, 0, 0, 3, 1, SecondAsleep, FirstAwake), WriterRetry(1),
                    Stage(threads, 0, 1, 3, 2, SecondAsleep, Writing))
  {
    OneOfTwoMoves(threads, Idle, FirstAwake, SecondAsleep);
    OneOfTwoMoves(threads, SecondAsleep, FirstAwake, Writing);
  }

  lemma BadSecondUnlock(threads: nat)
    requires threads >= 2
    ensures Follows(Stage(threads, 0, 1, 3, 2, SecondAsleep, Writing), WriteUnlock(1, {0}),
                    Stage(threads, 0, 0, 3, 2, SecondAwake, Idle))
  {
    OneOfTwoMoves(threads, SecondAsleep, Writing, Idle);
    assert 0 in {0} && WriterSleeps(TwoAtWork(threads, SecondAsleep, Idle)[0]);
  }

  lemma BadEntry(threads: nat)
    requires threads >= 2
    ensures Follows(Stage(threads, 0, 0, 3, 2, SecondAwake, Idle), ReadLock(1),
                    Stage(threads, 1, 0, 3, 2, SecondAwake, Reading))
    ensures Follows(Stage(threads, 1, 0, 3, 2, SecondAwake, Reading), WriterRetry(0),
                    Stage(threads, 1, 1, 3, 3, Writing, Reading))
  {
    OneOfTwoMoves(threads, SecondAwake, Idle, Reading);
    OneOfTwoMoves(threads, SecondAwake, Reading, Writing);
  }

  lemma BadStep(threads: nat, i: nat)
    requires threads >= 2 && i < 8
    ensures Follows(BadStage(threads, i), BadRun()[i], BadStage(threads, i + 1))
  {
    if i < 2 { BadWriters(threads); }
    else if i < 3 { BadFirstUnlock(threads); }
    else if i < 5 { BadReturn(threads); }
    else if i < 6 { BadSecondUnlock(threads); }
    else { BadEntry(threads); }
  }

  lemma FollowsIsRun(S: seq<Lock>, A: seq<Action>, threads: nat)
    requires |S| == 9 && |A| == 8 && S[0] == Init(threads) && forall i | 0 <= i < 8 :: Follows(S[i], A[i], S[i + 1])
    ensures IsRun(S, A, threads, false)
  {
    forall i | 0 <= i < |A| ensures Enabled(S[i], A[i]) && S[i + 1] == Apply(S[i], A[i], false) {
      assert Follows(S[i], A[i], S[i + 1]);
    }
  }

  /** Two threads suffice: a writer and a reader end up inside together. */
  lemma ExclusionCanFail(threads: nat)
    requires threads >= 2
    ensures IsRun(BadStages(threads), BadRun(), threads, false) && !Exclusive(BadStages(threads)[8])
  {
    var S, A := BadStages(threads), BadRun();
    assert S[0] == Init(threads);
    forall i | 0 <= i < 8 ensures Follows(S[i], A[i], S[i + 1]) { BadStep(threads, i); }
    FollowsIsRun(S, A, threads);
    BadEnd(TwoAtWork(threads, Writing, Reading), S[8]);
  }

  lemma BadEnd(pc: seq<Pc>, s: Lock)
    requires |pc| > 1 && pc[0] == Writing && pc[1] == Reading && s.pc == pc
    ensures !Exclusive(s)
  {
    CountPositive(pc, Writer, 0);
    assert pc[1].Reading?;
  }

  /** The lock as it is excludes in every run of so many threads. */
  ghost predicate AlwaysExclusive(threads: nat) {
    forall ss, acts, n | IsRun(ss, acts, threads, false) && 0 <= n <= |acts| :: Exclusive(ss[n])
  }

  /** It does so only for a thread on its own. */
  lemma ExclusiveIffAlone(threads: nat)
    ensures AlwaysExclusive(threads) <==> threads <= 1
  {
    if threads <= 1 {
      forall ss, acts, n | IsRun(ss, acts, threads, false) && 0 <= n <= |acts| ensures Exclusive(ss[n]) {
        RunThreads(ss, acts, threads, false, n);
        AloneIsExclusive(ss[n]);
      }
    } else {
      ExclusionCanFail(threads);
      var ss, acts := BadStages(threads), BadRun();
      assert |acts| == 8 && !Exclusive(ss[8]);
    }
  }

  lemma AloneIsExclusive(s: Lock)
    requires |s.pc| <= 1
    ensures Exclusive(s)
  {
    if s.pc != [] {
      assert s.pc[..0] == [];
      assert Count(s.pc, Writer) == if s.pc[0].Writing? then 1 else 0;
    }
  }
}
