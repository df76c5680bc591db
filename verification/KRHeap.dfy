/**
  The K&R allocator itself: one array of header-sized cells, the rover freep, and
  loops that go round the ring.
  */
module KRHeap {
  import opened KRRing

  const HEADER_SIZE := 16

  /** Units for nbytes of data and the header in front of them. */
  function NUnits(nbytes: nat): (n: nat)
    ensures (n - 1) * 16 >= nbytes
    ensures (n - 1) * 16 < nbytes + 16
  {
    (nbytes + HEADER_SIZE - 1) / HEADER_SIZE + 1
  }

  class KRHeapMgr {
    const mem: array<Header>
    const base: int
    var freep: int
    ghost var B: Blocks
    ghost var got: set<int>

    ghost function State(): Arena
      reads this, mem
    {
      Arena(mem[..], freep, B, got)
    }

    ghost predicate Valid()
      reads this, mem
    {
      WellFormed(State(), base)
    }

    constructor (memory: array<Header>, sentinel: int)
      requires NULL < sentinel < memory.Length
      ensures Valid() && mem == memory && base == sentinel && freep == NULL
    {
      mem, base, freep := memory, sentinel, NULL;
      B, got := map[], {};
    }

    /** The loop test of Free holds exactly when bp goes between p and its successor. */
    lemma BetweenIsSucc(bp: int, p: int)
      requires Valid() && freep != NULL && bp in B && !B[bp].free && InRing(B, p)
      ensures 0 <= p < mem.Length && InRing(B, mem[p].ptr) && IsSucc(B, p, mem[p].ptr)
      ensures (bp > p && bp < mem[p].ptr) || (p >= mem[p].ptr && (bp > p || bp < mem[p].ptr))
              <==> IsSucc(SetFree(B, bp, true), p, bp)
    {
      assert LinkOK(mem[..], B, p);
      ghost var K, s := SetFree(B, bp, true), mem[p].ptr;
      assert s in K && K[s].free && p in K && K[p].free;
      forall k | k in K && K[k].free ensures k == bp || (k in B && B[k].free) {}
    }

    /** The loop of Free: from the rover to the ring block that bp belongs after. */
    method FindPlace(bp: int) returns (p: int)
      requires Valid() && freep != NULL && bp in B && !B[bp].free
      ensures InRing(B, p) && IsSucc(SetFree(B, bp, true), p, bp)
    {
      ghost var t := RingPredecessor(B, base, mem.Length, bp);
      p := freep;
      BetweenIsSucc(bp, p);
      while !(bp > p && bp < mem[p].ptr)
        invariant InRing(B, p) && 0 <= p < mem.Length
        decreases Remaining(B, t, p)
      {
        BetweenIsSucc(bp, p);
        if p >= mem[p].ptr && (bp > p || bp < mem[p].ptr) {
          break;
        }
        Advance(B, t, p, mem[p].ptr);
        p := mem[p].ptr;
        BetweenIsSucc(bp, p);
      }
      BetweenIsSucc(bp, p);
    }

    method Free(ap: int)
      requires Valid() && freep != NULL
      requires ap - 1 in B && !B[ap - 1].free
      modifies this, mem
      ensures Valid() && FreeStep(old(State()), ap - 1, State())
      ensures Live(B) == Live(old(B)) - {ap - 1}
    {
      var bp := ap - 1;
      var p := FindPlace(bp);
      ghost var m0 := mem[..];
      BetweenIsSucc(bp, p);
      UpperNeighbour(B, base, mem.Length, p, bp, mem[p].ptr);
      ReleaseHolds(m0, B, base, mem.Length, p, bp);
      ReleaseBlocks(B, base, mem.Length, p, bp);
      ReleaseCovered(B, got, p, bp);
      assert LinkOK(m0, B, bp) && LinkOK(m0, B, p) && LinkOK(m0, B, mem[p].ptr);
      LinkIn(bp, p);
      LiveDataKept(m0, mem[..], B, base, mem.Length, bp, p, p);
      B := Release(B, p, bp);
      freep := p;
    }

    /** The writes of Free. */
    method LinkIn(bp: int, p: int)
      requires 0 <= p < mem.Length && 0 <= bp < mem.Length && 0 <= mem[p].ptr < mem.Length
      requires p != bp && mem[p].ptr != bp && (bp + mem[bp].size == mem[p].ptr ==> mem[p].ptr != p)
      modifies mem
      ensures mem[..] == old(FreedMem(mem[..], p, bp))
    {
      if bp + mem[bp].size == mem[p].ptr {
        mem[bp] := mem[bp].(size := mem[bp].size + mem[mem[p].ptr].size);
        mem[bp] := mem[bp].(ptr := mem[mem[p].ptr].ptr);
      } else {
        mem[bp] := mem[bp].(ptr := mem[p].ptr);
      }
      if p + mem[p].size == bp {
        mem[p] := mem[p].(size := mem[p].size + mem[bp].size);
        mem[p] := mem[p].(ptr := mem[bp].ptr);
      } else {
        mem[p] := mem[p].(ptr := bp);
      }
    }

    /** The header of a fresh block, which counts as live until it is freed onto the ring. */
    method AddBlock(up: int, nu: nat)
      requires Valid() && freep != NULL && 1 <= nu && Grantable(got, base, mem.Length, up, nu)
      modifies `B, `got, mem
      ensures Valid() && mem[..] == old(mem[..][up := mem[up].(size := nu)])
      ensures up !in old(B) && B == old(B)[up := Block(nu, false)] && got == old(got) + Cells(up, nu)
      ensures DataKept(Live(old(B)), old(mem[..]), mem[..])
    {
      AddLive(mem[..], B, got, base, up, nu);
      mem[up] := mem[up].(size := nu);
      B := B[up := Block(nu, false)];
      got := got + Cells(up, nu);
    }

    ghost predicate HasFit(n: nat)
      reads this
    {
      exists k :: InRing(B, k) && n <= B[k].size
    }

    /** Asks the system for at least nu units; grant is its answer. Returns the rover, or NULL. */
    method MoreCore(nu: nat, grant: int) returns (p: int)
      requires Valid() && freep != NULL && 1 <= nu && NoFit(B, nu)
      requires grant != NULL ==> Grantable(got, base, mem.Length, grant, CoreUnits(nu))
      modifies this, mem
      ensures Valid() && |State().mem| == |old(State()).mem|
      ensures grant == NULL ==> p == NULL && State() == old(State())
      ensures grant != NULL ==> p == freep != NULL && GotCore(old(State()), nu, grant, State()) && HasFit(nu)
      ensures Live(B) == Live(old(B)) && DataKept(Live(old(B)), old(mem[..]), mem[..])
    {
      var nu' := nu;
      if nu < NALLOC {
        nu' := NALLOC;
      }
      if grant == NULL {
        return NULL;
      }
      FreeBlock(grant, nu');
      return freep;
    }

    /** The end of MoreCore: the region granted gets a header and is freed. */
    method FreeBlock(up: int, nu: nat)
      requires Valid() && freep != NULL && 1 <= nu && Grantable(got, base, mem.Length, up, nu)
      modifies this, mem
      ensures Valid() && |State().mem| == |old(State()).mem| && got == old(got) + Cells(up, nu)
      ensures InRing(old(B), freep) && freep != up && IsSucc(old(B)[up := Block(nu, true)], freep, up)
      ensures B == WithCore(old(B), up, nu, freep) && HasFit(nu)
      ensures Live(B) == Live(old(B)) && DataKept(Live(old(B)), old(mem[..]), mem[..])
    {
      AddBlock(up, nu);
      ghost var m1, B1 := mem[..], B;
      assert SetFree(B, up, true) == old(B)[up := Block(nu, true)];
      assert Live(B) - {up} == Live(old(B));
      Free(up + 1);
      ReleaseBlocks(B1, base, mem.Length, freep, up);
      DataKeptTrans(Live(old(B)), Live(B), old(mem[..]), m1, mem[..]);
    }

    /** The writes of Malloc for a block b of at least n units whose ring predecessor is prev. */
    method TakeBlock(prev: int, b: int, n: nat) returns (c: int)
      requires Valid() && freep != NULL && 1 <= n
      requires InRing(B, b) && InRing(B, prev) && IsSucc(B, prev, b) && n <= B[b].size
      modifies this, mem
      ensures Valid() && freep == prev && got == old(got) && |State().mem| == |old(State()).mem|
      ensures B == Take(old(B), b, n) && c == TakenAt(old(B), b, n)
      ensures DataKept(Live(old(B)), old(mem[..]), mem[..])
    {
      ghost var m0 := mem[..];
      TakeHolds(m0, B, base, mem.Length, prev, b, n);
      TakeBlocks(B, base, mem.Length, b, n);
      TakeCovered(B, got, b, n);
      c := b;
      if mem[b].size == n {
        mem[prev] := mem[prev].(ptr := mem[b].ptr);
      } else {
        mem[b] := mem[b].(size := mem[b].size - n);
        c := c + mem[b].size;
        mem[c] := mem[c].(size := n);
      }
      freep := prev;
      assert mem[..] == TakenMem(m0, prev, b, n);
      LiveDataKept(m0, mem[..], B, base, mem.Length, prev, b, TakenAt(B, b, n));
      assert Live(B) - {prev} == Live(B);
      B := Take(B, b, n);
    }

    /** The same for the first block from the rover on that is large enough; the answer is the data address. */
    method TakeFit(prev: int, b: int, n: nat) returns (r: int)
      requires Valid() && freep != NULL && 1 <= n && NextFit(B, freep, n, b, prev)
      modifies this, mem
      ensures Valid() && freep != NULL && got == old(got) && |State().mem| == |old(State()).mem|
      ensures TookFrom(old(B), old(freep), n, b, State(), r)
      ensures DataKept(Live(old(B)), old(mem[..]), mem[..])
    {
      var c := TakeBlock(prev, b, n);
      return c + 1;
    }

    /** The head of Malloc: an empty ring gets the sentinel. */
    method Start() returns (prevp: int)
      requires Valid()
      modifies this, mem
      ensures Valid() && prevp == freep && freep != NULL
      ensures StartStep(old(State()), base, State())
      ensures Live(B) == Live(old(B))
    {
      prevp := freep;
      if prevp == NULL {
        mem[base] := mem[base].(ptr := base);
        freep, prevp := base, base;
        mem[base] := mem[base].(size := 0);
        B := map[base := Block(0, true)];
        forall h ensures LinkOK(mem[..], B, h) {}
      }
    }

    /** The loop of Malloc. */
    method Scan(start: int, nunits: nat, grant: int) returns (r: int)
      requires Valid() && start == freep != NULL && 1 <= nunits
      requires grant != NULL ==> Grantable(got, base, mem.Length, grant, CoreUnits(nunits))
      modifies this, mem
      ensures Valid() && Served(old(State()), nunits, grant, State(), r)
      ensures |State().mem| == |old(State()).mem|
      ensures DataKept(Live(old(B)), old(mem[..]), mem[..])
    {
      var prevp := start;
      assert LinkOK(mem[..], B, prevp);
      var p := mem[prevp].ptr;
      RoundTrip(B, freep, p);
      ghost var grown, s := false, State();
      while true
        invariant Valid() && freep != NULL && mem.Length == |s.mem|
        invariant InRing(B, prevp) && InRing(B, p) && IsSucc(B, prevp, p)
        invariant forall k | k in B && B[k].free && Passed(freep, k, p) :: B[k].size < nunits
        invariant if grown then GotCore(s, nunits, grant, State()) && HasFit(nunits) else State() == s
        invariant Live(B) == Live(s.B) && DataKept(Live(B), s.mem, mem[..])
        decreases if grown then 0 else 1, Remaining(B, freep, p)
      {
        assert LinkOK(mem[..], B, p);
        if mem[p].size >= nunits {
          ghost var u := State();
          r := TakeFit(prevp, p, nunits);
          DataKeptTrans(Live(s.B), Live(s.B), s.mem, u.mem, mem[..]);
          return r;
        }
        if p == freep {
          RoundTrip(B, freep, mem[p].ptr);
          assert NoFit(B, nunits);
          p := MoreCore(nunits, grant);
          if p == NULL {
            return NULL;
          }
          grown := true;
          assert LinkOK(mem[..], B, p);
          RoundTrip(B, freep, mem[p].ptr);
        } else {
          Advance(B, freep, p, mem[p].ptr);
        }
        prevp := p;
        p := mem[p].ptr;
        assert LinkOK(mem[..], B, prevp);
      }
    }

    method Malloc(nbytes: nat, grant: int) returns (r: int)
      requires Valid()
      requires grant != NULL ==> Grantable(got, base, mem.Length, grant, CoreUnits(NUnits(nbytes)))
      modifies this, mem
      ensures Valid()
      ensures MallocStep(old(State()), base, NUnits(nbytes), grant, State(), r)
    {
      var nunits := NUnits(nbytes);
      var prevp := Start();
      ghost var s1 := State();
      r := Scan(prevp, nunits, grant);
      assert Served(s1, nunits, grant, State(), r);
    }
  }
}
