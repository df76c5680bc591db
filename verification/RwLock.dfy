/**
  The lock's fields and the code between taking the mutex and releasing it, one method
  for each stretch.  A method that returns waits == true has gone to sleep in a
  condition wait and released the mutex; waking up is a step of its own.
  */
module RwLock {
  import opened RwLockSteps

  class RwLock {
    var readCount: int
    var writeCount: int
    const writerRing: array<nat>
    var head: nat
    var tail: nat
    ghost var pc: seq<Pc>
    ghost var enrolled: seq<nat>
    ghost var admitted: seq<nat>

    ghost predicate Valid()
      reads this, writerRing
    {
      writerRing.Length == WRITER_RING_SIZE && head < WRITER_RING_SIZE && tail < WRITER_RING_SIZE
    }

    ghost function State(): Lock
      reads this, writerRing
    {
      Lock(readCount, writeCount, writerRing[..], head, tail, pc, enrolled, admitted)
    }

    constructor (ghost threads: nat)
      ensures Valid() && State() == Init(threads)
    {
      readCount, writeCount, head, tail := 0, 0, 0, 0;
      writerRing := new nat[WRITER_RING_SIZE](_ => 0);
      pc, enrolled, admitted := seq(threads, _ => Idle), [], [];
    }

    // ------------------------------------------------------------------ readers

    /** The first stretch of rwlock_read_lock. */
    method ReadLock(t: nat) returns (waits: bool)
      requires Valid() && Enabled(State(), Action.ReadLock(t))
      modifies this
      ensures Valid() && State() == Apply(old(State()), Action.ReadLock(t), false)
      ensures waits == pc[t].ReaderAsleep?
    {
      readCount := readCount + 1;
      waits := ReaderTest(t);
    }

    /** The loop test of rwlock_read_lock, run at first and after every wakeup. */
    method ReaderTest(t: nat) returns (waits: bool)
      requires Valid() && t < |pc|
      modifies `pc
      ensures State() == TryRead(old(State()), t) && waits == pc[t].ReaderAsleep?
    {
      waits := writeCount > 0;
      pc := pc[t := if writeCount > 0 then ReaderAsleep else Reading];
    }

    method ReaderRetry(t: nat) returns (waits: bool)
      requires Valid() && Enabled(State(), Action.ReaderRetry(t))
      modifies `pc
      ensures Valid() && State() == Apply(old(State()), Action.ReaderRetry(t), false)
      ensures waits == pc[t].ReaderAsleep?
    {
      waits := ReaderTest(t);
    }

    method ReadUnlock(t: nat, ghost woken: set<nat>)
      requires Valid() && Enabled(State(), Action.ReadUnlock(t, woken))
      modifies this
      ensures Valid() && State() == Apply(old(State()), Action.ReadUnlock(t, woken), false)
    {
      readCount := readCount - 1;
      pc := pc[t := Idle];
      if readCount == 0 {
        SignalWriters(woken);
      }
    }

    // ------------------------------------------------------------------ writers

    /** The first stretch of rwlock_write_lock. */
    method WriteLock(t: nat) returns (waits: bool)
      requires Valid() && Enabled(State(), Action.WriteLock(t))
      modifies this, writerRing
      ensures Valid() && State() == Apply(old(State()), Action.WriteLock(t), false)
      ensures waits == !pc[t].Writing?
    {
      writerRing[head] := t;
      head := (head + 1) % WRITER_RING_SIZE;
      enrolled := enrolled + [t];
      waits := FirstTest(t);
    }

    /** From the first loop test of rwlock_write_lock on. */
    method FirstTest(t: nat) returns (waits: bool)
      requires Valid() && t < |pc|
      modifies `pc, `writeCount, `tail, `admitted
      ensures Valid() && State() == TryWrite(old(State()), t, false) && waits == !pc[t].Writing?
    {
      if readCount > 0 || writeCount > 0 {
        pc := pc[t := FirstAsleep];
        return true;
      }
      waits := SecondTest(t);
    }

    /** From the second loop test of rwlock_write_lock on. */
    method SecondTest(t: nat) returns (waits: bool)
      requires Valid() && t < |pc|
      modifies `pc, `writeCount, `tail, `admitted
      ensures Valid() && State() == TrySecond(old(State()), t) && waits == !pc[t].Writing?
    {
      if writerRing[tail] != t {
        pc := pc[t := SecondAsleep];
        return true;
      }
      writeCount := writeCount + 1;
      tail := (tail + 1) % WRITER_RING_SIZE;
      pc := pc[t := Writing];
      admitted := admitted + [t];
      return false;
    }

    /** What a woken writer does once it has the mutex; first tells which of the two waits it was in. */
    method WriterRetry(t: nat, first: bool) returns (waits: bool)
      requires Valid() && Enabled(State(), Action.WriterRetry(t)) && first == pc[t].FirstAwake?
      modifies `pc, `writeCount, `tail, `admitted
      ensures Valid() && State() == Apply(old(State()), Action.WriterRetry(t), false)
      ensures waits == !pc[t].Writing?
    {
      if first {
        waits := FirstTest(t);
      } else {
        waits := SecondTest(t);
      }
    }

    /** Returns 0, or -1 when another writer is still inside. */
    method WriteUnlock(t: nat, ghost woken: set<nat>) returns (ret: int)
      requires Valid() && Enabled(State(), Action.WriteUnlock(t, woken))
      modifies this
      ensures Valid() && State() == Apply(old(State()), Action.WriteUnlock(t, woken), false)
      ensures ret == if old(writeCount) == 1 then 0 else -1
    {
      writeCount := writeCount - 1;
      pc := pc[t := Idle];
      if writeCount == 0 {
        if readCount > 0 {
          BroadcastReaders();
        } else {
          SignalWriters(woken);
        }
      } else {
        return -1;
      }
      return 0;
    }

    // -------------------------------------------------------- condition variables

    ghost method SignalWriters(woken: set<nat>)
      modifies `pc
      ensures State() == RwLockSteps.SignalWriters(old(State()), woken)
    {
      pc := RwLockSteps.SignalWriters(State(), woken).pc;
    }

    ghost method BroadcastReaders()
      modifies `pc
      ensures State() == RwLockSteps.BroadcastReaders(old(State()))
    {
      pc := RwLockSteps.BroadcastReaders(State()).pc;
    }
  }
}
