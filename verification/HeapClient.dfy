/**
  An arbitrary program on top of the boundary-tag allocator.  It keeps the pointers
  that malloc gave it, and its calls name them by position.
  */
module HeapClient {
  import opened HeapLayout
  import opened HeapTags
  import opened HeapSpec
  import opened Regions
  import opened BoundaryTagHeap
  import HeapTheorems

  /** Malloc, free of pointer k, or a store into unit off of the region at pointer k. */
  datatype Call = Request(size: nat) | Release(k: nat) | Write(k: nat, off: nat, v: Cell)

  lemma ValidIsWellFormed(h: HeapMgr)
    requires h.Valid()
    ensures WellFormed(h.State())
  {
  }

  method DoRequest(h: HeapMgr, held: seq<Held>, size: nat) returns (held': seq<Held>, ghost e: HeapTheorems.Event)
    requires h.Valid() && Holding(InUse(h.L), held)
    modifies h, h.mem
    ensures h.Valid() && Holding(InUse(h.L), held') && HeapTheorems.Step(old(h.State()), e, h.State())
  {
    ghost var s := h.State();
    ValidIsWellFormed(h);
    var p := h.Malloc(size);
    held', e := held, HeapTheorems.Malloc(size, p);
    HeapTheorems.MallocAddsOneChunk(s, size, h.State(), p);
    if p != NULL {
      held' := held + [Held(p, SizeToUnits(size))];
      OneMoreHeld(InUse(s.L), held, p - 1, h.L[p - 1].units, SizeToUnits(size));
    }
  }

  /** A position out of range frees NULL. */
  method DoRelease(h: HeapMgr, held: seq<Held>, k: nat) returns (held': seq<Held>, ghost e: HeapTheorems.Event)
    requires h.Valid() && Holding(InUse(h.L), held)
    modifies h, h.mem
    ensures h.Valid() && Holding(InUse(h.L), held') && HeapTheorems.Step(old(h.State()), e, h.State())
  {
    ghost var s := h.State();
    ValidIsWellFormed(h);
    var p := if k < |held| then held[k].p else NULL;
    assert k < |held| ==> Backed(InUse(h.L), held[k]);
    h.Free(p);
    held', e := held, HeapTheorems.Free(p);
    if p != NULL {
      HeapTheorems.FreeRemovesOneChunk(s.L, s.start, s.brk, p - 1, h.L);
      held' := held[..k] + held[k + 1..];
      OneLessHeld(InUse(s.L), held, k);
    }
  }

  /** The program's own store. */
  method DoWrite(h: HeapMgr, a: int, v: Cell, ghost c: int) returns (ghost e: HeapTheorems.Event)
    requires h.Valid() && DataCell(h.L, c, a)
    modifies h.mem
    ensures h.Valid() && HeapTheorems.Step(old(h.State()), e, h.State())
  {
    ghost var s := h.State();
    ValidIsWellFormed(h);
    assert Tagged(h.mem[..], c, h.L[c]);
    h.mem[a] := v;
    e := HeapTheorems.Store(a, v);
    assert h.State() == s.(mem := s.mem[a := v]);
    HeapTheorems.StoreKeepsHeap(s, a, v, h.State());
  }

  /** One call; a store outside what the program asked for is not made, and then done is false. */
  method Perform(h: HeapMgr, held: seq<Held>, c: Call)
    returns (held': seq<Held>, done: bool, ghost e: HeapTheorems.Event)
    requires h.Valid() && Holding(InUse(h.L), held)
    modifies h, h.mem
    ensures h.Valid() && Holding(InUse(h.L), held')
    ensures if done then HeapTheorems.Step(old(h.State()), e, h.State()) else h.State() == old(h.State())
  {
    held', done, e := held, true, HeapTheorems.Free(NULL);
    match c
    case Request(size) => held', e := DoRequest(h, held, size);
    case Release(k) => held', e := DoRelease(h, held, k);
    case Write(k, off, v) =>
      done := k < |held| && off < held[k].size;
      if done {
        assert Backed(InUse(h.L), held[k]);
        e := DoWrite(h, held[k].p + off, v, held[k].p - 1);
      }
  }

  /** Any program: what happens is a run, and at its end the program holds exactly the chunks in use. */
  method RunProgram(h: HeapMgr, calls: seq<Call>, held0: seq<Held>)
    returns (held: seq<Held>, ghost ss: seq<Heap>, ghost es: seq<HeapTheorems.Event>)
    requires h.Valid() && Holding(InUse(h.L), held0)
    modifies h, h.mem
    ensures h.Valid() && Holding(InUse(h.L), held)
    ensures HeapTheorems.IsRun(ss, es) && ss[0] == old(h.State()) && ss[|es|] == h.State()
    ensures forall i | 0 <= i < |ss| :: WellFormed(ss[i])
  {
    ValidIsWellFormed(h);
    held, ss, es := held0, [h.State()], [];
    for n := 0 to |calls|
      invariant h.Valid() && Holding(InUse(h.L), held)
      invariant HeapTheorems.IsRun(ss, es) && ss[0] == old(h.State()) && ss[|es|] == h.State()
    {
      var done;
      ghost var e;
      held, done, e := Perform(h, held, calls[n]);
      if done {
        HeapTheorems.OneStepMore(ss, es, e, h.State());
        ss, es := ss + [h.State()], es + [e];
      }
    }
    forall i | 0 <= i < |ss| ensures WellFormed(ss[i]) { HeapTheorems.RunKeepsHeap(ss, es, i); }
  }
}
