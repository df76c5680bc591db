/**
  The boundary-tag allocator.  Memory is one array of CHUNK_UNIT cells, indexed by
  address; the system break moves up through it and sbrk fails at its end.
  */
module BoundaryTagHeap {
  import opened HeapLayout
  import opened HeapTags
  import opened HeapSpec

  class HeapMgr {
    const mem: array<Cell>
    var brk: int
    var freeHead: int
    var heapStart: int
    var heapEnd: int
    var isInit: bool
    ghost var L: Layout

    ghost predicate Inv()
      reads this, mem
    {
      Holds(mem[..], L, heapStart, heapEnd)
    }

    ghost predicate HeadOK()
      reads this
    {
      IsFreeAfter(L, NULL, freeHead)
    }

    ghost predicate Valid()
      reads this, mem
    {
      && 0 < brk <= mem.Length
      && (isInit ==> Inv() && HeadOK() && Coalesced(L) && heapEnd == brk)
      && (!isInit ==> freeHead == heapStart == heapEnd == NULL && L == map[])
    }

    ghost function State(): Heap
      reads this, mem
    {
      Heap(mem[..], isInit, heapStart, brk, freeHead, L)
    }

    constructor (memory: array<Cell>, break_: int)
      requires 0 < break_ <= memory.Length
      ensures Valid() && mem == memory && brk == break_ && !isInit
    {
      mem := memory;
      brk := break_;
      freeHead, heapStart, heapEnd, isInit := NULL, NULL, NULL, false;
      L := map[];
    }

    // ------------------------------------------------------- address arithmetic

    function FooterFromHeader(c: int): int
      requires 0 <= c < mem.Length
      reads mem
    {
      c + mem[c].units + 1
    }

    function NextAdjacent(c: int): int
      requires 0 <= c < mem.Length
      reads this, mem
    {
      var n := c + mem[c].units + 2;
      if n >= heapEnd then NULL else n
    }

    function PrevAdjacent(c: int): int
      requires 0 <= c - 1 < mem.Length
      reads this, mem
    {
      var n := c - 1;
      if n < heapStart then NULL else n - mem[n].units - 1
    }

    // ------------------------------------------------------------ list surgery

    /** Stores v in the back link of chunk k, the next field of its footer. */
    method SetBackLink(k: int, v: int)
      requires Inv() && k in L
      modifies mem
      ensures Inv() && Within(Footer(L, k), Next(L, k), old(mem[..]), mem[..])
      ensures forall h | h in L :: mem[h] == old(mem[h])
      ensures DataKept(InUse(L), old(mem[..]), mem[..])
    {
      assert Tagged(mem[..], k, L[k]);
      var f := FooterFromHeader(k);
      mem[f] := mem[f].(next := v);
      BackLinkHolds(old(mem[..]), mem[..], L, heapStart, heapEnd, k);
    }

    /** Two back link writes in a row; a write for NULL is left out, as the code does. */
    method SetBackLinks(j: int, u: int, k: int, v: int)
      requires Inv() && j in L && (k == NULL || k in L)
      modifies mem
      ensures Inv() && (forall h | h in L :: mem[h] == old(mem[h]))
      ensures DataKept(InUse(L), old(mem[..]), mem[..])
    {
      SetBackLink(j, u);
      if k != NULL {
        ghost var m1 := mem[..];
        SetBackLink(k, v);
        DataKeptTrans(InUse(L), InUse(L), old(mem[..]), m1, mem[..]);
      }
    }

    method MergeChunk(c1: int, c2: int) returns (c: int)
      requires Inv() && FreeAt(L, c1) && FreeAt(L, c2) && Next(L, c1) == c2
      modifies mem, `L
      ensures Inv() && L == Merge(old(L), c1, c2) && c == c1
      ensures InUse(L) == InUse(old(L))
      ensures DataKept(InUse(L), old(mem[..]), mem[..])
    {
      ghost var m0 := mem[..];
      assert LinkOK(m0, L, c1) && LinkOK(m0, L, c2);
      assert Tagged(m0, c1, L[c1]) && Tagged(m0, c2, L[c2]);
      assert c1 < c2 && NextAdjacent(c1) == c2;
      assert m0[c1].next == c2 by { assert Apart(L, c1, m0[c1].next); }
      var newUnit := mem[c1].units + mem[c2].units + 2;
      mem[c1] := mem[c1].(units := newUnit);
      var f := FooterFromHeader(c2);
      mem[f] := mem[f].(units := newUnit);
      mem[c1] := mem[c1].(next := mem[c2].next);
      ghost var m1 := mem[..];
      MergeHolds(m0, m1, L, heapStart, heapEnd, c1, c2);
      MergeInUse(L, c1, c2);
      L := Merge(L, c1, c2);
      assert FooterFromHeader(c2) == FooterFromHeader(c1) == Footer(L, c1);
      SetBackLink(c1, mem[FooterFromHeader(c1)].next);
      DataKeptTrans(InUse(L), InUse(L), m0, m1, mem[..]);
      ghost var m2 := mem[..];
      if mem[c2].next != NULL {
        assert LinkOK(m2, L, c1);
        SetBackLink(mem[c2].next, c1);
        DataKeptTrans(InUse(L), InUse(L), m0, m2, mem[..]);
      }
      c := c1;
    }

    /** The size and status writes of SplitChunk: two tags for the front part c, two for the tail c2. */
    method CutTail(c: int, units: nat) returns (c2: int)
      requires 0 <= c < mem.Length && c + mem[c].units + 2 <= heapEnd <= mem.Length
      requires mem[c].units > units + 2 && 1 <= units
      modifies mem
      ensures c2 == c + old(mem[c]).units - units
      ensures Cut(old(mem[..]), mem[..], c, old(mem[c].units), units)
    {
      var allUnits := mem[c].units;
      mem[c] := mem[c].(units := allUnits - units - 2);
      var cFooter := FooterFromHeader(c);
      mem[cFooter] := mem[cFooter].(units := allUnits - units - 2);

      c2 := NextAdjacent(c);
      mem[c2] := mem[c2].(units := units);
      var f := FooterFromHeader(c2);
      mem[f] := mem[f].(units := units);
      mem[c2] := mem[c2].(status := CHUNK_IN_USE);

      mem[c2] := mem[c2].(next := mem[c].next);
    }

    method SplitChunk(c: int, units: nat) returns (c2: int)
      requires Inv() && FreeAt(L, c) && L[c].units > units + 2 && 1 <= units
      modifies mem, `L
      ensures Inv() && L == Split(old(L), c, units) && c2 == c + old(L)[c].units - units
      ensures DataKept(InUse(old(L)), old(mem[..]), mem[..])
    {
      ghost var m0 := mem[..];
      assert Tagged(m0, c, L[c]);
      c2 := CutTail(c, units);
      ghost var m1 := mem[..];
      SplitTiles(L, heapStart, heapEnd, c, units);
      SplitInUse(L, c, units);
      SplitHolds(m0, m1, L, heapStart, heapEnd, c, units);
      L := Split(L, c, units);
      assert FooterFromHeader(c2) == Footer(L, c2);
      SetBackLinks(c, mem[FooterFromHeader(c2)].next, c2, c);
      DataKeptTrans(InUse(old(L)), InUse(L), m0, m1, mem[..]);
    }

    /** The writes of InsertChunk before the merge: status, next field and the two back links. */
    method LinkBelowHead(c: int)
      requires Inv() && HeadOK() && c in L && !L[c].free && IsFreeBefore(L, c, NULL)
      modifies mem, `L
      ensures Inv() && L == SetFree(old(L), c, true)
      ensures DataKept(InUse(L), old(mem[..]), mem[..])
      ensures mem[c].next == freeHead
    {
      ghost var m0 := mem[..];
      assert Tagged(m0, c, L[c]);
      mem[c] := mem[c].(status := CHUNK_FREE);
      mem[c] := mem[c].(next := freeHead);
      ghost var m1 := mem[..];
      SetFreeHolds(m0, m1, L, heapStart, heapEnd, NULL, c);
      L := SetFree(L, c, true);
      SetBackLinks(c, NULL, freeHead, c);
      DataKeptTrans(InUse(L), InUse(L), m0, m1, mem[..]);
    }

    method InsertChunk(c: int)
      requires Inv() && HeadOK() && c in L && !L[c].free && IsFreeBefore(L, c, NULL)
      modifies mem, `L, `freeHead
      ensures Inv() && HeadOK() && L == Release(old(L), NULL, c)
      ensures DataKept(InUse(L), old(mem[..]), mem[..])
    {
      InsertedBelowHead(L, heapStart, heapEnd, c, freeHead);
      LinkBelowHead(c);
      if freeHead == NULL {
        freeHead := c;
      } else {
        ghost var K, m1 := L, mem[..];
        assert Tagged(m1, c, L[c]) && Apart(L, c, freeHead);
        if NextAdjacent(c) == freeHead {
          var _ := MergeChunk(c, freeHead);
          DataKeptLess(InUse(L), InUse(K), old(mem[..]), m1);
          DataKeptTrans(InUse(L), InUse(L), old(mem[..]), m1, mem[..]);
        }
        freeHead := c;
      }
    }

    /** The first link writes of InsertChunkAfter: the successor of e becomes that of c. */
    method LinkToSuccessor(e: int, c: int)
      requires Inv() && FreeAt(L, e) && c in L && !L[c].free && IsFreeBefore(L, c, e)
      modifies mem
      ensures Inv() && DataKept(InUse(L), old(mem[..]), mem[..])
      ensures IsFreeAfter(L, c, mem[c].next)
    {
      ghost var m0 := mem[..];
      assert Tagged(m0, c, L[c]) && Tagged(m0, e, L[e]) && LinkOK(m0, L, e);
      mem[c] := mem[c].(next := mem[e].next);
      ghost var m1 := mem[..];
      UsedNextHolds(m0, m1, L, heapStart, heapEnd, c, m0[e].next);
      if mem[e].next != NULL {
        SetBackLink(mem[e].next, c);
        DataKeptTrans(InUse(L), InUse(L), m0, m1, mem[..]);
      }
    }

    /** The remaining writes of InsertChunkAfter before the merges. */
    method WriteLinks(e: int, c: int)
      requires 0 <= e < c < mem.Length && c < c + mem[c].units + 1 < mem.Length
      modifies mem
      ensures mem[..] == old(mem[..][e := mem[e].(next := c)]
                                    [c := mem[c].(status := CHUNK_FREE)]
                                    [c + mem[c].units + 1 := mem[c + mem[c].units + 1].(next := e)])
    {
      mem[e] := mem[e].(next := c);
      var f := FooterFromHeader(c);
      mem[f] := mem[f].(next := e);
      mem[c] := mem[c].(status := CHUNK_FREE);
    }

    method EnterAfter(e: int, c: int)
      requires Inv() && HeadOK() && c in L && !L[c].free && e != NULL && IsFreeBefore(L, c, e)
      modifies mem, `L
      ensures Inv() && HeadOK() && L == SetFree(old(L), c, true)
      ensures DataKept(InUse(L), old(mem[..]), mem[..])
    {
      LinkToSuccessor(e, c);
      ghost var m1 := mem[..];
      assert Tagged(m1, c, L[c]) && Tagged(m1, e, L[e]);
      WriteLinks(e, c);
      EnterHolds(m1, mem[..], L, heapStart, heapEnd, e, c);
      DataKeptEntering(L, c, old(mem[..]), m1, mem[..]);
      L := SetFree(L, c, true);
    }

    /** The second merge of InsertChunkAfter: c absorbs its upper neighbour if that is free. */
    method MergeWithNext(c: int) returns (r: int)
      requires Inv() && HeadOK() && FreeAt(L, c)
      modifies mem, `L
      ensures Inv() && HeadOK() && L == MergeUp(old(L), c) && r == c
      ensures InUse(L) == InUse(old(L))
      ensures DataKept(InUse(L), old(mem[..]), mem[..])
    {
      assert Tagged(mem[..], c, L[c]) && HasNext(L, heapEnd, c);
      r := c;
      var n := NextAdjacent(c);
      if n != NULL {
        assert Tagged(mem[..], n, L[n]);
        if mem[n].status == CHUNK_FREE {
          r := MergeChunk(c, n);
        }
      }
    }

    method InsertChunkAfter(e: int, c: int) returns (r: int)
      requires Inv() && HeadOK() && c in L && !L[c].free && e != NULL && IsFreeBefore(L, c, e)
      modifies mem, `L
      ensures Inv() && HeadOK() && L == Release(old(L), e, c)
      ensures r == Survivor(old(L), e, c)
      ensures DataKept(InUse(L), old(mem[..]), mem[..])
    {
      EnterAfter(e, c);
      ghost var m1, K1 := mem[..], L;
      r := MergeWithPrev(e, c);
      ghost var m2 := mem[..];
      r := MergeWithNext(r);
      DataKeptTrans(InUse(K1), InUse(K1), m1, m2, mem[..]);
      DataKeptTrans(InUse(K1), InUse(K1), old(mem[..]), m1, mem[..]);
    }

    /** The first merge of InsertChunkAfter: the free predecessor e absorbs c if c is right above it. */
    method MergeWithPrev(e: int, c: int) returns (r: int)
      requires Inv() && HeadOK() && FreeAt(L, c) && FreeAt(L, e)
      modifies mem, `L
      ensures Inv() && HeadOK() && FreeAt(L, r) && InUse(L) == InUse(old(L))
      ensures if Next(old(L), e) == c then L == Merge(old(L), e, c) && r == e else L == old(L) && r == c
      ensures DataKept(InUse(L), old(mem[..]), mem[..])
    {
      assert Tagged(mem[..], e, L[e]) && Tagged(mem[..], c, L[c]) && HasNext(L, heapEnd, c);
      r := c;
      if NextAdjacent(e) == c {
        r := MergeChunk(e, c);
      }
    }

    /** The writes of RemoveChunkFromList to memory. */
    method WriteUnlink(prev: int, c: int, next: int)
      requires Tiles(L, heapStart, heapEnd) && Tags(mem[..], L) && FreeAt(L, c) && Tagged(mem[..], c, L[c])
      requires prev != NULL ==> FreeAt(L, prev) && prev < c
      requires next == mem[c].next && (next != NULL ==> FreeAt(L, next) && c < next)
      modifies mem
      ensures mem[..] == old(Unlinked(mem[..], L, prev, c))
    {
      assert prev != NULL ==> Tagged(mem[..], prev, L[prev]);
      assert next != NULL ==> Tagged(mem[..], next, L[next]);
      assert Apart(L, prev, c) && Apart(L, c, next);
      if prev != NULL {
        mem[prev] := mem[prev].(next := next);
      }
      if next != NULL {
        var f := FooterFromHeader(next);
        mem[f] := mem[f].(next := prev);
      }
      mem[c] := mem[c].(next := NULL);
      var f := FooterFromHeader(c);
      mem[f] := mem[f].(next := NULL);
      mem[c] := mem[c].(status := CHUNK_IN_USE);
    }

    method RemoveChunkFromList(prev: int, c: int)
      requires Inv() && HeadOK() && FreeAt(L, c) && IsFreeBefore(L, c, prev)
      modifies mem, `L, `freeHead
      ensures Inv() && HeadOK() && L == SetFree(old(L), c, false)
      ensures DataKept(InUse(old(L)), old(mem[..]), mem[..])
    {
      ghost var m0 := mem[..];
      assert Tagged(m0, c, L[c]) && LinkOK(m0, L, c);
      var next := mem[c].next;
      if prev == NULL {
        freeHead := next;
      }
      HeadAfterLeaving(L, freeHead, old(freeHead), prev, c, next);
      LeaveHolds(m0, L, heapStart, heapEnd, prev, c);
      WriteUnlink(prev, c, next);
      L := SetFree(L, c, false);
    }

    /** The head of the list once c is in use: unchanged, or the successor of c when that was first. */
    static lemma HeadAfterLeaving(L: Layout, head: int, head0: int, prev: int, c: int, next: int)
      requires (forall h | h in L :: NULL < h) && FreeAt(L, c) && IsFreeBefore(L, c, prev)
      requires IsFreeAfter(L, NULL, head0) && IsFreeAfter(L, c, next) && head == if prev == NULL then next else head0
      ensures IsFreeAfter(SetFree(L, c, false), NULL, head)
    {
    }

    // --------------------------------------------------------- malloc and free

    /** Moves the break up by n units; fails when memory is exhausted. */
    method Sbrk(n: nat) returns (a: int)
      requires 0 <= brk <= mem.Length
      modifies `brk
      ensures if old(brk) + n <= mem.Length then a == old(brk) && brk == old(brk) + n else a == -1 && brk == old(brk)
    {
      if brk + n > mem.Length { return -1; }
      a := brk;
      brk := brk + n;
    }

    /** The tags of a fresh chunk of units data units at c. */
    method WriteFreshTags(c: int, units: nat)
      requires 0 <= c && c + units + 2 <= mem.Length
      modifies mem
      ensures Only(c, c + units + 1, old(mem[..]), mem[..])
      ensures mem[c] == Cell(NULL, units, CHUNK_IN_USE) && mem[c + units + 1].units == units
    {
      var cFooter := c + units + 1;
      mem[c] := mem[c].(units := units);
      mem[cFooter] := mem[cFooter].(units := units);
      mem[c] := mem[c].(next := NULL);
      mem[cFooter] := mem[cFooter].(next := NULL);
      mem[c] := mem[c].(status := CHUNK_IN_USE);
    }

    /** Takes the cells up to the break into the heap as one chunk in use. */
    method AddFreshChunk(c: int, units: nat)
      requires Inv() && c == heapEnd && 1 <= units && brk == c + units + 2 <= mem.Length
      modifies mem, `L, `heapEnd
      ensures Inv() && heapEnd == brk && L == Extend(old(L), c, units)
      ensures DataKept(InUse(old(L)), old(mem[..]), mem[..])
    {
      heapEnd := brk;
      WriteFreshTags(c, units);
      ExtendHolds(old(mem[..]), mem[..], L, heapStart, c, units);
      L := Extend(L, c, units);
    }

    /** Makes the cells up to the break a chunk and puts it on the free list. */
    method JoinFresh(prev: int, c: int, units: nat) returns (r: int)
      requires Inv() && HeadOK() && Coalesced(L) && c == heapEnd && IsFreeBefore(L, c, prev)
      requires 1 <= units && brk == c + units + 2 <= mem.Length
      modifies mem, `L, `freeHead, `heapEnd
      ensures Inv() && HeadOK() && heapEnd == brk
      ensures L == Grow(old(L), c, units, prev) && r == GrownAt(old(L), c, prev)
      ensures DataKept(InUse(old(L)), old(mem[..]), mem[..])
    {
      ghost var m0, L0 := mem[..], L;
      GrowTiles(L, heapStart, c, units, prev);
      AddFreshChunk(c, units);
      ghost var m1 := mem[..];
      r := EnterFresh(prev, c);
      DataKeptTrans(InUse(L0), InUse(L), m0, m1, mem[..]);
    }

    /** The insertion at the end of AllocateMoreMemory. */
    method EnterFresh(prev: int, c: int) returns (r: int)
      requires Inv() && HeadOK() && c in L && !L[c].free && IsFreeBefore(L, c, prev)
      requires forall k | k in L :: k <= c
      modifies mem, `L, `freeHead
      ensures Inv() && HeadOK() && L == Release(old(L), prev, c) && r == Survivor(old(L), prev, c)
      ensures DataKept(InUse(L), old(mem[..]), mem[..])
    {
      r := c;
      if freeHead == NULL {
        InsertChunk(c);
      } else {
        r := InsertChunkAfter(prev, c);
      }
    }

    method AllocateMoreMemory(prev: int, units: nat) returns (c: int)
      requires Inv() && HeadOK() && Coalesced(L) && heapEnd == brk
      requires IsFreeBefore(L, heapEnd, prev)
      modifies mem, `L, `freeHead, `brk, `heapEnd
      ensures Inv() && HeadOK() && heapEnd == brk
      ensures old(brk) + FreshUnits(units) + 2 > mem.Length ==>
                c == NULL && L == old(L) && brk == old(brk) && mem[..] == old(mem[..])
      ensures old(brk) + FreshUnits(units) + 2 <= mem.Length ==>
                && L == Grow(old(L), old(brk), FreshUnits(units), prev) && c == GrownAt(old(L), old(brk), prev)
                && brk == old(brk) + FreshUnits(units) + 2
      ensures DataKept(InUse(old(L)), old(mem[..]), mem[..])
    {
      var units' := units;
      if units < MEMALLOC_MIN {
        units' := MEMALLOC_MIN;
      }
      c := Sbrk(units' + 2);
      if c == -1 {
        return NULL;
      }
      c := JoinFresh(prev, c, units');
    }

    /** The tail of Malloc, entered with a free chunk c that is large enough. */
    method TakeChunk(prev: int, c: int, units: nat) returns (r: int)
      requires Inv() && HeadOK() && Coalesced(L) && FreeAt(L, c) && 1 <= units <= L[c].units && IsFreeBefore(L, c, prev)
      modifies mem, `L, `freeHead
      ensures Inv() && HeadOK() && Coalesced(L)
      ensures L == Take(old(L), c, units) && r == TakenAt(old(L), c, units)
      ensures DataKept(InUse(old(L)), old(mem[..]), mem[..])
    {
      TakeTiles(L, heapStart, heapEnd, c, units);
      assert Tagged(mem[..], c, L[c]);
      r := c;
      if mem[c].units > units + 2 {
        r := SplitChunk(c, units);
      } else {
        RemoveChunkFromList(prev, c);
      }
    }

    /** The first half of Malloc: c is the first free chunk that is large enough. */
    method MallocFit(prev: int, c: int, units: nat) returns (p: int)
      requires Valid() && isInit && FreeAt(L, c) && 1 <= units <= L[c].units
      requires IsFirstFit(L, units, c) && IsFreeBefore(L, c, prev)
      modifies mem, `L, `freeHead
      ensures Valid() && MallocSpec(old(L), old(brk), mem.Length, units, L, brk, p)
      ensures DataKept(InUse(old(L)), old(mem[..]), mem[..])
    {
      var taken := TakeChunk(prev, c, units);
      assert TookFrom(old(L), units, c, L, taken + 1);
      return taken + 1;
    }

    /** The second half of Malloc: no free chunk fits, so the heap must grow. */
    method MallocFresh(prev0: int, pprev: int, units: nat) returns (p: int)
      requires Valid() && isInit && 1 <= units && NoFit(L, units)
      requires IsFreeBefore(L, heapEnd, prev0) && (prev0 != NULL ==> IsFreeBefore(L, prev0, pprev))
      modifies mem, `L, `freeHead, `brk, `heapEnd
      ensures Valid() && MallocSpec(old(L), old(brk), mem.Length, units, L, brk, p)
      ensures DataKept(InUse(old(L)), old(mem[..]), mem[..])
    {
      GrowTiles(L, heapStart, heapEnd, FreshUnits(units), prev0);
      GrownPrev(L, heapStart, heapEnd, FreshUnits(units), prev0, pprev);
      var prev := prev0;
      var c := AllocateMoreMemory(prev, units);
      if c == NULL {
        return NULL;
      }
      if c == prev {
        prev := pprev;
      }
      ghost var m2 := mem[..];
      c := TakeChunk(prev, c, units);
      assert GrewFor(old(L), old(brk), units, prev0, L, c + 1);
      DataKeptTrans(InUse(old(L)), InUse(old(L)), old(mem[..]), m2, mem[..]);
      return c + 1;
    }

    method Malloc(size: nat) returns (p: int)
      requires Valid()
      modifies this, mem
      ensures Valid()
      ensures MallocStep(old(State()), size, State(), p)
    {
      if size <= 0 {
        return NULL;
      }
      if !isInit {
        heapStart, heapEnd := brk, brk;
        isInit := true;
      }
      p := Serve(SizeToUnits(size));
    }

    /** The loop of Malloc and what follows it. */
    method Serve(units: nat) returns (p: int)
      requires Valid() && isInit && 1 <= units
      modifies mem, `L, `freeHead, `brk, `heapEnd
      ensures Valid() && MallocSpec(old(L), old(brk), mem.Length, units, L, brk, p)
      ensures DataKept(InUse(old(L)), old(mem[..]), mem[..])
    {
      var pprev, prev := NULL, NULL;
      var c := freeHead;
      while c != NULL
        invariant c == NULL || FreeAt(L, c)
        invariant IsFreeBefore(L, if c == NULL then heapEnd else c, prev)
        invariant prev != NULL ==> IsFreeBefore(L, prev, pprev)
        invariant forall k | k in L && L[k].free && k <= prev :: L[k].units < units
        decreases if c == NULL then 0 else heapEnd - c
      {
        assert Tagged(mem[..], c, L[c]) && LinkOK(mem[..], L, c);
        if mem[c].units >= units {
          p := MallocFit(prev, c, units);
          return p;
        }
        pprev := prev;
        prev := c;
        c := mem[c].next;
      }
      assert NoFit(L, units);
      p := MallocFresh(prev, pprev, units);
    }

    /** The walk of Free: from c down over footers to the first free chunk. */
    method FindPrevByFooters(c: int) returns (prev: int)
      requires Inv() && c in L && !L[c].free
      ensures IsFreeBefore(L, c, prev)
    {
      ghost var m := mem[..];
      prev := c;
      assert Tagged(m, prev, L[prev]);
      while mem[prev].status != CHUNK_FREE
        invariant prev in L && prev <= c && Tagged(m, prev, L[prev])
        invariant forall k | k in L && L[k].free && k < c :: k <= prev
        decreases prev
      {
        StepDown(prev);
        prev := PrevAdjacent(prev);
        if prev == NULL { break; }
      }
    }

    /** One step of the walk lands on the chunk just below, or falls off the bottom of the heap. */
    lemma StepDown(h: int)
      requires Inv() && h in L
      ensures 0 < h < mem.Length
      ensures PrevAdjacent(h) == NULL ==> h == heapStart
      ensures PrevAdjacent(h) != NULL ==>
                IsPrev(L, PrevAdjacent(h), h) && Tagged(mem[..], PrevAdjacent(h), L[PrevAdjacent(h)])
      ensures forall k | k in L && k < h :: PrevAdjacent(h) != NULL && k <= PrevAdjacent(h)
    {
      assert Tagged(mem[..], h, L[h]) && HasPrev(L, heapStart, h);
      if h != heapStart {
        var p :| IsPrev(L, p, h);
        assert Tagged(mem[..], p, L[p]);
        forall k | k in L && k < h ensures k <= p { assert Apart(L, p, k); }
      }
    }

    /** The walk of the reference allocator: up the free list to the first chunk above c. */
    method FindPrevByList(c: int) returns (prev: int)
      requires Inv() && HeadOK() && c in L && !L[c].free
      ensures IsFreeBefore(L, c, prev)
    {
      prev := NULL;
      var w := freeHead;
      while w != NULL
        invariant w == NULL || FreeAt(L, w)
        invariant IsFreeBefore(L, if w == NULL then heapEnd else w, prev)
        invariant prev < c
        decreases if w == NULL then 0 else heapEnd - w
      {
        assert Tagged(mem[..], w, L[w]) && LinkOK(mem[..], L, w);
        if c < w { break; }
        prev := w;
        w := mem[w].next;
      }
    }

    /** Both walks find the same chunk, or none. */
    method FindPrevBothWays(c: int) returns (byFooters: int, byList: int)
      requires Inv() && HeadOK() && c in L && !L[c].free
      ensures byFooters == byList && IsFreeBefore(L, c, byFooters)
    {
      byFooters := FindPrevByFooters(c);
      byList := FindPrevByList(c);
      forall h | h in L ensures NULL < h { assert Tagged(mem[..], h, L[h]); }
      FreeBeforeUnique(L, c, byFooters, byList);
    }

    method Free(p: int)
      requires Valid()
      requires p != NULL ==> p - 1 in InUse(L)
      modifies this, mem
      ensures Valid()
      ensures FreeStep(old(State()), p, State())
    {
      if p == NULL {
        return;
      }
      var c := p - 1;
      var prev := FindPrevByFooters(c);
      ReleaseTiles(L, heapStart, heapEnd, prev, c);
      if prev == NULL {
        InsertChunk(c);
      } else {
        var _ := InsertChunkAfter(prev, c);
      }
      assert ReleasedFrom(old(L), prev, c, L);
    }

    /** The allocator's own consistency check: over sound tags and links, it tells whether all neighbours are merged. */
    method CheckHeapValidity() returns (ok: bool)
      requires Inv() && HeadOK()
      ensures ok <==> Coalesced(L)
    {
      ghost var m := mem[..];
      if heapStart == NULL || heapEnd == NULL { return false; }
      if heapStart == heapEnd {
        return freeHead == NULL;
      }
      var w := heapStart;
      while w != NULL && w < heapEnd
        invariant w != NULL ==> w in L
        decreases if w == NULL then 0 else heapEnd - w
      {
        assert Tagged(m, w, L[w]) && HasNext(L, heapEnd, w);
        if !ChunkIsValid(w) { return false; }
        w := NextAdjacent(w);
      }
      ok := CheckFreeList();
    }

    /** The second loop of the check. */
    method CheckFreeList() returns (ok: bool)
      requires Inv() && HeadOK()
      ensures ok <==> Coalesced(L)
    {
      ghost var m := mem[..];
      var w := freeHead;
      while w != NULL
        invariant w != NULL ==> FreeAt(L, w)
        invariant forall h | FreeAt(L, h) && (w == NULL || h < w) :: !FreeAt(L, Next(L, h))
        decreases if w == NULL then 0 else heapEnd - w
      {
        assert Tagged(m, w, L[w]) && LinkOK(m, L, w) && HasNext(L, heapEnd, w);
        if mem[w].status != CHUNK_FREE { return false; }
        if !ChunkIsValid(w) { return false; }
        var n := NextAdjacent(w);
        if n != NULL && n == mem[w].next { return false; }
        NotFreeNext(L, heapStart, heapEnd, w, mem[w].next);
        w := mem[w].next;
      }
      return true;
    }

    /** The chunk right above free chunk w is free only if it is the free successor of w. */
    static lemma NotFreeNext(L: Layout, start: int, end: int, w: int, n: int)
      requires Tiles(L, start, end) && FreeAt(L, w) && IsFreeAfter(L, w, n) && Next(L, w) != n
      ensures !FreeAt(L, Next(L, w))
      ensures forall h | FreeAt(L, h) && h > w && (n == NULL || h < n) :: false
    {
      assert Apart(L, w, n);
    }

    predicate ChunkIsValid(c: int)
      requires 0 <= c < mem.Length
      reads this, mem
    {
      heapStart <= c < heapEnd && mem[c].units != 0
    }
  }
}
