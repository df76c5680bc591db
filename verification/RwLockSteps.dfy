/**
  The reader/writer lock as a machine of atomic steps.  Each step is one stretch of
  code run with the mutex held: from taking it to releasing it, where a condition wait
  releases it and a wakeup, signalled or spurious, has to take it again.
  */
module RwLockSteps {
  const WRITER_RING_SIZE := 10

  /** Where a thread is; Asleep is in a condition wait, Awake has been woken and wants the mutex. */
  datatype Pc =
    | Idle
    | ReaderAsleep | ReaderAwake | Reading
    | FirstAsleep | FirstAwake      // the wait loop on the counts
    | SecondAsleep | SecondAwake    // the wait loop on the writer ring
    | Writing
  {
    /** Counted in readCount: inside or waiting. */
    predicate IsReader() { ReaderAsleep? || ReaderAwake? || Reading? }

    predicate IsPending() { FirstAsleep? || FirstAwake? || SecondAsleep? || SecondAwake? }
  }

  /** The fields of the lock, each thread's place, and the orders in which writers enrolled and entered. */
  datatype Lock = Lock(
    readCount: int, writeCount: int,
    ring: seq<nat>, head: nat, tail: nat,
    pc: seq<Pc>,
    enrolled: seq<nat>, admitted: seq<nat>)

  function Init(threads: nat): Lock {
    Lock(0, 0, seq(WRITER_RING_SIZE, _ => 0), 0, 0, seq(threads, _ => Idle), [], [])
  }

  datatype Action =
    | ReadLock(t: nat)
    | ReaderRetry(t: nat)
    | ReadUnlock(t: nat, woken: set<nat>)
    | WriteLock(t: nat)
    | WriterRetry(t: nat)
    | WriteUnlock(t: nat, woken: set<nat>)
    | WakeUp(t: nat)

  // --------------------------------------------------------------- the steps

  function At(s: Lock, t: nat, p: Pc): Lock
    requires t < |s.pc|
  {
    s.(pc := s.pc[t := p])
  }

  /** The reader's loop test. */
  function TryRead(s: Lock, t: nat): Lock
    requires t < |s.pc|
  {
    At(s, t, if s.writeCount > 0 then ReaderAsleep else Reading)
  }

  /** A writer joins the queue. */
  function Enrol(s: Lock, t: nat): Lock
    requires t < |s.pc| && s.head < |s.ring|
  {
    s.(ring := s.ring[s.head := t], head := (s.head + 1) % WRITER_RING_SIZE, enrolled := s.enrolled + [t])
  }

  /** The writer's second loop test and, past it, the entry. */
  function TrySecond(s: Lock, t: nat): Lock
    requires t < |s.pc| && s.tail < |s.ring|
  {
    if s.ring[s.tail] != t then
      At(s, t, SecondAsleep)
    else
      At(s, t, Writing).(writeCount := s.writeCount + 1,
                         tail := (s.tail + 1) % WRITER_RING_SIZE,
                         admitted := s.admitted + [t])
  }

  /** The writer's tests from the first loop on; with retest both conditions are one loop test. */
  function TryWrite(s: Lock, t: nat, retest: bool): Lock
    requires t < |s.pc| && s.tail < |s.ring|
  {
    if s.readCount > 0 || s.writeCount > 0 || (retest && s.ring[s.tail] != t) then
      At(s, t, FirstAsleep)
    else
      TrySecond(s, t)
  }

  function Awake(p: Pc): Pc {
    match p
    case ReaderAsleep => ReaderAwake
    case FirstAsleep => FirstAwake
    case SecondAsleep => SecondAwake
    case _ => p
  }

  predicate WriterSleeps(p: Pc) { p.FirstAsleep? || p.SecondAsleep? }

  /** pthread_cond_signal on writers: wakes one of the sleepers or more, none only if there are none. */
  function SignalWriters(s: Lock, woken: set<nat>): Lock {
    s.(pc := seq(|s.pc|, i requires 0 <= i < |s.pc| => if i in woken then Awake(s.pc[i]) else s.pc[i]))
  }

  function BroadcastReaders(s: Lock): Lock {
    s.(pc := seq(|s.pc|, i requires 0 <= i < |s.pc| => if s.pc[i].ReaderAsleep? then ReaderAwake else s.pc[i]))
  }

  /** A possible outcome of a signal on the writers' condition. */
  ghost predicate CanWake(s: Lock, woken: set<nat>) {
    && (forall i | i in woken :: i < |s.pc| && WriterSleeps(s.pc[i]))
    && ((exists i :: 0 <= i < |s.pc| && WriterSleeps(s.pc[i])) ==> exists i :: i in woken)
  }

  ghost predicate Enabled(s: Lock, a: Action) {
    && a.t < |s.pc| && s.head < |s.ring| && s.tail < |s.ring|
    && match a {
         case ReadLock(t) => s.pc[t].Idle?
         case ReaderRetry(t) => s.pc[t].ReaderAwake?
         case ReadUnlock(t, woken) => s.pc[t].Reading? && CanWake(At(s, t, Idle), woken)
         case WriteLock(t) => s.pc[t].Idle?
         case WriterRetry(t) => s.pc[t].FirstAwake? || s.pc[t].SecondAwake?
         case WriteUnlock(t, woken) => s.pc[t].Writing? && CanWake(At(s, t, Idle), woken)
         case WakeUp(t) => s.pc[t].ReaderAsleep? || WriterSleeps(s.pc[t])
       }
  }

  /** The lock after step a; retest selects the writer loop the design document asks for. */
  function Apply(s: Lock, a: Action, retest: bool): Lock
    requires a.t < |s.pc| && s.head < |s.ring| && s.tail < |s.ring|
  {
    match a
    case ReadLock(t) =>
      TryRead(s.(readCount := s.readCount + 1), t)
    case ReaderRetry(t) =>
      TryRead(s, t)
    case ReadUnlock(t, woken) =>
      var s1 := At(s, t, Idle).(readCount := s.readCount - 1);
      if s1.readCount == 0 then SignalWriters(s1, woken) else s1
    case WriteLock(t) =>
      TryWrite(Enrol(s, t), t, retest)
    case WriterRetry(t) =>
      if s.pc[t].FirstAwake? then TryWrite(s, t, retest) else TrySecond(s, t)
    case WriteUnlock(t, woken) =>
      var s1 := At(s, t, Idle).(writeCount := s.writeCount - 1);
      if s1.writeCount != 0 then s1
      else if s1.readCount > 0 then BroadcastReaders(s1)
      else SignalWriters(s1, woken)
    case WakeUp(t) =>
      At(s, t, Awake(s.pc[t]))
  }

  // ------------------------------------------------------------------ counting

  datatype Kind = Reader | Writer

  predicate Is(k: Kind, p: Pc) {
    match k case Reader => p.IsReader() case Writer => p.Writing?
  }

  function Count(pc: seq<Pc>, k: Kind): nat {
    if pc == [] then 0 else Count(pc[..|pc| - 1], k) + if Is(k, pc[|pc| - 1]) then 1 else 0
  }

  /** The count after thread t has moved to p. */
  ghost predicate Moved(pc: seq<Pc>, t: nat, p: Pc, k: Kind)
    requires t < |pc|
  {
    Count(pc[t := p], k) == Count(pc, k) - (if Is(k, pc[t]) then 1 else 0) + if Is(k, p) then 1 else 0
  }

  lemma {:induction false} CountUpdate(pc: seq<Pc>, k: Kind, t: nat, p: Pc)
    requires t < |pc|
    ensures Moved(pc, t, p, k)
  {
    var n := |pc| - 1;
    if t < n {
      CountUpdate(pc[..n], k, t, p);
      assert pc[t := p][..n] == pc[..n][t := p];
    } else {
      assert pc[t := p][..n] == pc[..n];
    }
  }

  lemma {:induction false} CountSame(pc: seq<Pc>, qc: seq<Pc>, k: Kind)
    requires |pc| == |qc| && forall i | 0 <= i < |pc| :: Is(k, pc[i]) == Is(k, qc[i])
    ensures Count(pc, k) == Count(qc, k)
  {
    if pc != [] { CountSame(pc[..|pc| - 1], qc[..|qc| - 1], k); }
  }

  lemma {:induction false} CountPositive(pc: seq<Pc>, k: Kind, t: nat)
    requires t < |pc| && Is(k, pc[t])
    ensures Count(pc, k) > 0
  {
    if t < |pc| - 1 { CountPositive(pc[..|pc| - 1], k, t); }
  }

  /** Distinct numbers below n are at most n. */
  lemma {:induction false} Pigeonhole(xs: seq<nat>, n: nat)
    requires forall i | 0 <= i < |xs| :: xs[i] < n
    requires forall i, j | 0 <= i < j < |xs| :: xs[i] != xs[j]
    ensures |xs| <= n
  {
    if xs != [] {
      assert xs[0] < n;
      if k :| 0 <= k < |xs| && xs[k] == n - 1 {
        Pigeonhole(xs[..k] + xs[k + 1..], n - 1);
      } else {
        Pigeonhole(xs, n - 1);
      }
    }
  }

  // ----------------------------------------------------------------- invariant

  /** The queue of writers: enrolled but not yet admitted, and their cells of the ring. */
  ghost predicate RingOK(s: Lock) {
    var a, e := |s.admitted|, |s.enrolled|;
    && |s.ring| == WRITER_RING_SIZE && a <= e
    && s.head == e % WRITER_RING_SIZE && s.tail == a % WRITER_RING_SIZE
    && s.admitted == s.enrolled[..a]
    && (forall i | a <= i < e :: s.enrolled[i] < |s.pc| && s.pc[s.enrolled[i]].IsPending())
    && (forall i, j | a <= i < j < e :: s.enrolled[i] != s.enrolled[j])
    && (forall t | 0 <= t < |s.pc| && s.pc[t].IsPending() :: t in s.enrolled[a..])
    && (forall i | a <= i < e :: s.ring[i % WRITER_RING_SIZE] == s.enrolled[i])
  }

  ghost predicate CountsOK(s: Lock) {
    && s.readCount == Count(s.pc, Reader)
    && s.writeCount == Count(s.pc, Writer)
  }

  /** With no writer inside, every reader in the wait loop has been notified. */
  ghost predicate ReadersNotified(s: Lock) {
    s.writeCount == 0 ==> forall t | 0 <= t < |s.pc| :: !s.pc[t].ReaderAsleep?
  }

  ghost predicate Inv(s: Lock) {
    |s.pc| <= WRITER_RING_SIZE && RingOK(s) && CountsOK(s) && ReadersNotified(s)
  }

  lemma InitInv(threads: nat)
    requires threads <= WRITER_RING_SIZE
    ensures Inv(Init(threads))
  {
    NobodyInside(threads, Reader);
    NobodyInside(threads, Writer);
  }

  lemma {:induction false} NobodyInside(threads: nat, k: Kind)
    ensures Count(Init(threads).pc, k) == 0
  {
    if threads > 0 {
      NobodyInside(threads - 1, k);
      assert Init(threads).pc[..threads - 1] == Init(threads - 1).pc;
    }
  }

  // ------------------------------------------- the writer ring under each step

  /** Steps that move no thread in or out of the queue keep the ring. */
  lemma RingSame(s: Lock, s': Lock)
    requires RingOK(s) && s'.ring == s.ring && s'.head == s.head && s'.tail == s.tail
    requires s'.enrolled == s.enrolled && s'.admitted == s.admitted && |s'.pc| == |s.pc|
    requires forall t | 0 <= t < |s.pc| :: s'.pc[t].IsPending() == s.pc[t].IsPending()
    ensures RingOK(s')
  {
  }

  /** With t not in it, the queue leaves a cell of the ring unused. */
  lemma QueueFits(s: Lock, t: nat)
    requires RingOK(s) && t < |s.pc| <= WRITER_RING_SIZE && !s.pc[t].IsPending()
    ensures |s.enrolled| - |s.admitted| < WRITER_RING_SIZE
  {
    var a := |s.admitted|;
    var queue := s.enrolled[a..] + [t];
    forall i | 0 <= i < |queue| ensures queue[i] == if a + i < |s.enrolled| then s.enrolled[a + i] else t {}
    Pigeonhole(queue, |s.pc|);
  }

  lemma NextCell(e: nat)
    ensures (e % WRITER_RING_SIZE + 1) % WRITER_RING_SIZE == (e + 1) % WRITER_RING_SIZE
  {
  }

  lemma CellsDiffer(i: nat, e: nat)
    requires i < e < i + WRITER_RING_SIZE
    ensures i % WRITER_RING_SIZE != e % WRITER_RING_SIZE
  {
  }

  /** Enrolling overwrites no pending cell. */
  lemma EnrolCells(s: Lock, t: nat)
    requires RingOK(s) && t < |s.pc| <= WRITER_RING_SIZE && !s.pc[t].IsPending()
    ensures var s' := Enrol(s, t);
            forall i | |s.admitted| <= i < |s'.enrolled| :: s'.ring[i % WRITER_RING_SIZE] == s'.enrolled[i]
  {
    QueueFits(s, t);
    var e, s' := |s.enrolled|, Enrol(s, t);
    forall i | |s.admitted| <= i < e + 1 ensures s'.ring[i % WRITER_RING_SIZE] == s'.enrolled[i] {
      if i < e {
        CellsDiffer(i, e);
        assert s.ring[i % WRITER_RING_SIZE] == s.enrolled[i];
      }
    }
  }

  lemma EnrolRing(s: Lock, t: nat)
    requires RingOK(s) && t < |s.pc| <= WRITER_RING_SIZE && !s.pc[t].IsPending()
    ensures RingOK(At(Enrol(s, t), t, FirstAsleep))
  {
    EnrolCells(s, t);
    NextCell(|s.enrolled|);
    EnrolQueue(s, t);
  }

  lemma EnrolQueue(s: Lock, t: nat)
    requires RingOK(s) && t < |s.pc| && !s.pc[t].IsPending()
    ensures var s' := At(Enrol(s, t), t, FirstAsleep);
            && s'.admitted == s'.enrolled[..|s.admitted|]
            && forall u | 0 <= u < |s.pc| && s'.pc[u].IsPending() :: u in s'.enrolled[|s.admitted|..]
  {
    var a, e, s' := |s.admitted|, |s.enrolled|, At(Enrol(s, t), t, FirstAsleep);
    assert s'.enrolled[a..] == s.enrolled[a..] + [t];
  }

  /** Entry is by the writer that enrolled first of those pending. */
  lemma EnterRing(s: Lock, t: nat)
    requires RingOK(s) && t < |s.pc| && s.pc[t].IsPending() && s.ring[s.tail] == t
    ensures |s.admitted| < |s.enrolled| && s.enrolled[|s.admitted|] == t
    ensures RingOK(TrySecond(s, t))
  {
    var a := |s.admitted|;
    FirstInQueue(s, t);
    assert s.enrolled[..a + 1] == s.enrolled[..a] + [t];
    StillQueued(s, t);
    NextCell(a);
  }

  /** The other pending writers are in the rest of the queue. */
  lemma StillQueued(s: Lock, t: nat)
    requires RingOK(s) && t < |s.pc| && |s.admitted| < |s.enrolled| && s.enrolled[|s.admitted|] == t
    ensures forall u | 0 <= u < |s.pc| && s.pc[u].IsPending() && u != t :: u in s.enrolled[|s.admitted| + 1..]
  {
    var a := |s.admitted|;
    assert s.enrolled[a..] == [t] + s.enrolled[a + 1..];
  }

  lemma FirstInQueue(s: Lock, t: nat)
    requires RingOK(s) && t < |s.pc| && s.pc[t].IsPending() && s.ring[s.tail] == t
    ensures |s.admitted| < |s.enrolled| && s.enrolled[|s.admitted|] == t
  {
    var a := |s.admitted|;
    assert t in s.enrolled[a..];
    assert s.ring[a % WRITER_RING_SIZE] == s.enrolled[a];
  }

  lemma TrySecondRing(s: Lock, t: nat)
    requires RingOK(s) && t < |s.pc| && s.pc[t].IsPending()
    ensures RingOK(TrySecond(s, t))
  {
    if s.ring[s.tail] == t { EnterRing(s, t); } else { RingSame(s, TrySecond(s, t)); }
  }

  lemma TryWriteRing(s: Lock, t: nat, retest: bool)
    requires RingOK(s) && t < |s.pc| && s.pc[t].IsPending()
    ensures RingOK(TryWrite(s, t, retest))
  {
    if TryWrite(s, t, retest).pc[t].FirstAsleep? {
      RingSame(s, TryWrite(s, t, retest));
    } else {
      TrySecondRing(s, t);
    }
  }

  lemma WriteLockRing(s: Lock, t: nat, retest: bool)
    requires RingOK(s) && t < |s.pc| <= WRITER_RING_SIZE && !s.pc[t].IsPending()
    ensures RingOK(TryWrite(Enrol(s, t), t, retest))
  {
    EnrolRing(s, t);
    TryWriteRing(At(Enrol(s, t), t, FirstAsleep), t, retest);
    TryWriteForgets(Enrol(s, t), t, FirstAsleep, retest);
  }

  /** The writer's tests do not depend on where it was before. */
  lemma TryWriteForgets(s: Lock, t: nat, p: Pc, retest: bool)
    requires t < |s.pc| && s.tail < |s.ring|
    ensures TryWrite(At(s, t, p), t, retest) == TryWrite(s, t, retest)
  {
    assert s.pc[t := p][t := FirstAsleep] == s.pc[t := FirstAsleep];
    assert s.pc[t := p][t := SecondAsleep] == s.pc[t := SecondAsleep];
    assert s.pc[t := p][t := Writing] == s.pc[t := Writing];
  }

  lemma StepRing(s: Lock, a: Action, retest: bool)
    requires RingOK(s) && |s.pc| <= WRITER_RING_SIZE && Enabled(s, a)
    ensures RingOK(Apply(s, a, retest))
  {
    match a
    case WriteLock(t) => WriteLockRing(s, t, retest);
    case WriterRetry(t) => RetryRing(s, t, retest);
    case _ => OtherRing(s, a, retest);
  }

  lemma RetryRing(s: Lock, t: nat, retest: bool)
    requires RingOK(s) && Enabled(s, WriterRetry(t))
    ensures RingOK(Apply(s, WriterRetry(t), retest))
  {
    if s.pc[t].FirstAwake? { TryWriteRing(s, t, retest); } else { TrySecondRing(s, t); }
  }

  lemma OtherRing(s: Lock, a: Action, retest: bool)
    requires RingOK(s) && Enabled(s, a) && !a.WriteLock? && !a.WriterRetry?
    ensures RingOK(Apply(s, a, retest))
  {
    OtherPending(s, a, retest);
    RingSame(s, Apply(s, a, retest));
  }

  lemma OtherPending(s: Lock, a: Action, retest: bool)
    requires Enabled(s, a) && !a.WriteLock? && !a.WriterRetry?
    ensures var s' := Apply(s, a, retest);
            && s'.ring == s.ring && s'.head == s.head && s'.tail == s.tail
            && s'.enrolled == s.enrolled && s'.admitted == s.admitted && |s'.pc| == |s.pc|
            && forall t | 0 <= t < |s.pc| :: s'.pc[t].IsPending() == s.pc[t].IsPending()
  {
  }

  // --------------------------------------------------- the counts under each step

  lemma MoveCounts(pc: seq<Pc>, t: nat, p: Pc)
    requires t < |pc|
    ensures Moved(pc, t, p, Reader) && Moved(pc, t, p, Writer)
  {
    CountUpdate(pc, Reader, t, p);
    CountUpdate(pc, Writer, t, p);
  }

  lemma WakeCounts(pc: seq<Pc>, qc: seq<Pc>)
    requires |pc| == |qc| && forall i | 0 <= i < |pc| :: qc[i] == pc[i] || qc[i] == Awake(pc[i])
    ensures forall k :: Count(qc, k) == Count(pc, k)
  {
    forall k: Kind ensures Count(qc, k) == Count(pc, k) { CountSame(pc, qc, k); }
  }

  lemma StepCounts(s: Lock, a: Action, retest: bool)
    requires CountsOK(s) && Enabled(s, a)
    ensures CountsOK(Apply(s, a, retest))
  {
    var s' := Apply(s, a, retest);
    if a.ReadUnlock? || a.WriteUnlock? {
      UnlockCounts(s, a, retest);
    } else {
      OneMoves(s, a, retest);
      MoveCounts(s.pc, a.t, s'.pc[a.t]);
    }
  }

  lemma UnlockCounts(s: Lock, a: Action, retest: bool)
    requires CountsOK(s) && Enabled(s, a) && (a.ReadUnlock? || a.WriteUnlock?)
    ensures CountsOK(Apply(s, a, retest))
  {
    MoveCounts(s.pc, a.t, Idle);
    WakeCounts(s.pc[a.t := Idle], Apply(s, a, retest).pc);
  }

  /** Steps other than an unlock move only the thread that takes them. */
  lemma OneMoves(s: Lock, a: Action, retest: bool)
    requires Enabled(s, a) && !a.ReadUnlock? && !a.WriteUnlock?
    ensures |Apply(s, a, retest).pc| == |s.pc|
    ensures Apply(s, a, retest).pc == s.pc[a.t := Apply(s, a, retest).pc[a.t]]
  {
  }

  lemma StepNotified(s: Lock, a: Action, retest: bool)
    requires CountsOK(s) && ReadersNotified(s) && Enabled(s, a)
    ensures ReadersNotified(Apply(s, a, retest))
  {
    var s' := Apply(s, a, retest);
    if s'.writeCount == 0 {
      forall t | 0 <= t < |s.pc| ensures !s'.pc[t].ReaderAsleep? {
        if a.WriteUnlock? && s.pc[t].ReaderAsleep? {
          MoveCounts(s.pc, a.t, Idle);
          CountPositive(s.pc[a.t := Idle], Reader, t);
        }
      }
    }
  }

  lemma StepThreads(s: Lock, a: Action, retest: bool)
    requires Enabled(s, a)
    ensures |Apply(s, a, retest).pc| == |s.pc|
  {
  }

  lemma StepInv(s: Lock, a: Action, retest: bool)
    requires Inv(s) && Enabled(s, a)
    ensures Inv(Apply(s, a, retest))
  {
    StepThreads(s, a, retest);
    StepRing(s, a, retest);
    StepCounts(s, a, retest);
    StepNotified(s, a, retest);
  }
}
