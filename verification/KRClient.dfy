/**
  An arbitrary program on top of the K&R allocator, on a system that grants memory
  upwards from where it left off, until it runs out.
  */
module KRClient {
  import opened KRRing
  import opened Regions
  import opened KRHeap
  import KRTheorems

  /** Malloc, free of pointer k, or a store into unit off of the region at pointer k. */
  datatype Call = Request(nbytes: nat) | Release(k: nat) | Write(k: nat, off: nat, v: Header)

  /** The sentinel and everything obtained so far lie below the break. */
  ghost predicate Below(h: KRHeapMgr, brk: int)
    reads h
  {
    h.base < brk && forall a | a in h.got :: a < brk
  }

  ghost predicate Ready(h: KRHeapMgr, brk: int, held: seq<Held>)
    reads h, h.mem
  {
    h.Valid() && Below(h, brk) && Holding(Live(h.B), held)
  }

  ghost predicate Stepped(s: Arena, e: KRTheorems.Event, h: KRHeapMgr)
    reads h, h.mem
  {
    KRTheorems.Step(s, e, h.State(), h.base)
  }

  /**
    A malloc of n units, and where the break is then.  It moves past the memory on offer
    even when malloc has no need of it: the rest is for others to take.
    */
  method Ask(h: KRHeapMgr, brk: int, nbytes: nat) returns (p: int, brk': int, n: nat, ghost e: KRTheorems.Event)
    requires h.Valid() && Below(h, brk)
    modifies h, h.mem
    ensures h.Valid() && Below(h, brk') && Stepped(old(h.State()), e, h)
    ensures p == NULL ==> Live(h.B) == old(Live(h.B))
    ensures p != NULL ==> p - 1 !in old(Live(h.B)) && Live(h.B) == old(Live(h.B))[p - 1 := n]
  {
    ghost var s := h.State();
    n := NUnits(nbytes);
    var more := if n < NALLOC then NALLOC else n;
    var grant := if brk + more <= h.mem.Length then brk else NULL;
    p := h.Malloc(nbytes, grant);
    brk', e := brk + more, KRTheorems.Malloc(n, grant, p);
    KRTheorems.MallocObtains(s, h.base, n, grant, h.State(), p);
    KRTheorems.MallocAddsLive(s, h.base, n, grant, h.State(), p);
  }

  method DoRequest(h: KRHeapMgr, brk: int, held: seq<Held>, nbytes: nat)
    returns (brk': int, held': seq<Held>, ghost e: KRTheorems.Event)
    requires Ready(h, brk, held)
    modifies h, h.mem
    ensures Ready(h, brk', held') && Stepped(old(h.State()), e, h)
  {
    ghost var live := Live(h.B);
    var p, n;
    p, brk', n, e := Ask(h, brk, nbytes);
    held' := held;
    if p != NULL {
      held' := held + [Held(p, n)];
      OneMoreHeld(live, held, p - 1, n, n);
    }
  }

  method DoRelease(h: KRHeapMgr, brk: int, held: seq<Held>, k: nat)
    returns (held': seq<Held>, ghost e: KRTheorems.Event)
    requires Ready(h, brk, held) && k < |held|
    modifies h, h.mem
    ensures Ready(h, brk, held') && Stepped(old(h.State()), e, h)
  {
    ghost var s := h.State();
    assert Backed(Live(h.B), held[k]);
    h.Free(held[k].p);
    e := KRTheorems.Free(held[k].p);
    held' := held[..k] + held[k + 1..];
    OneLessHeld(Live(s.B), held, k);
  }

  /** The program's own store. */
  method DoWrite(h: KRHeapMgr, brk: int, held: seq<Held>, a: int, v: Header, ghost c: int)
    returns (ghost e: KRTheorems.Event)
    requires Ready(h, brk, held) && KRTheorems.DataCell(h.B, c, a)
    modifies h.mem
    ensures Ready(h, brk, held) && Stepped(old(h.State()), e, h)
  {
    ghost var s := h.State();
    KRTheorems.StoreKeepsArena(s, h.base, c, a, v);
    h.mem[a] := v;
    e := KRTheorems.Store(a, v);
    assert h.State() == s.(mem := s.mem[a := v]);
  }

  /** One call; what the program may not do is not done, and then done is false. */
  method Perform(h: KRHeapMgr, brk: int, held: seq<Held>, c: Call)
    returns (brk': int, held': seq<Held>, done: bool, ghost e: KRTheorems.Event)
    requires Ready(h, brk, held)
    modifies h, h.mem
    ensures Ready(h, brk', held')
    ensures if done then Stepped(old(h.State()), e, h) else h.State() == old(h.State())
  {
    brk', held', done, e := brk, held, true, KRTheorems.Free(NULL);
    match c
    case Request(nbytes) => brk', held', e := DoRequest(h, brk, held, nbytes);
    case Release(k) =>
      done := k < |held|;
      if done { held', e := DoRelease(h, brk, held, k); }
    case Write(k, off, v) =>
      done := k < |held| && off + 1 < held[k].size;
      if done {
        assert Backed(Live(h.B), held[k]);
        e := DoWrite(h, brk, held, held[k].p + off, v, held[k].p - 1);
      }
  }

  /** Any program: what happens is a run, and at its end the program holds exactly the live blocks. */
  method RunProgram(h: KRHeapMgr, calls: seq<Call>, brk0: int, held0: seq<Held>)
    returns (brk: int, held: seq<Held>, ghost ss: seq<Arena>, ghost es: seq<KRTheorems.Event>)
    requires Ready(h, brk0, held0)
    modifies h, h.mem
    ensures Ready(h, brk, held)
    ensures KRTheorems.IsRun(ss, es, h.base) && ss[0] == old(h.State()) && ss[|es|] == h.State()
    ensures forall i | 0 <= i < |ss| :: WellFormed(ss[i], h.base)
  {
    brk, held, ss, es := brk0, held0, [h.State()], [];
    for n := 0 to |calls|
      invariant Ready(h, brk, held)
      invariant KRTheorems.IsRun(ss, es, h.base) && ss[0] == old(h.State()) && ss[|es|] == h.State()
    {
      var done;
      ghost var e;
      brk, held, done, e := Perform(h, brk, held, calls[n]);
      if done {
        KRTheorems.OneStepMore(ss, es, h.base, e, h.State());
        ss, es := ss + [h.State()], es + [e];
      }
    }
    forall i | 0 <= i < |ss| ensures WellFormed(ss[i], h.base) { KRTheorems.RunKeepsArena(ss, es, h.base, i); }
  }
}
