/**
  What the allocator guarantees over several calls and over whole runs.
  */
module HeapTheorems {
  import opened HeapLayout
  import opened HeapTags
  import opened HeapSpec
  import opened Regions

  // ------------------------------------------------------------- single heaps

  /** The list from head is the free chunks above a in increasing address order, ended by NULL. */
  ghost predicate ListsFree(m: seq<Cell>, L: Layout, a: int, head: int, s: seq<int>) {
    && (forall i | 0 <= i < |s| :: FreeAt(L, s[i]) && a < s[i] && 0 <= s[i] < |m|)
    && (forall i, j | 0 <= i < j < |s| :: s[i] < s[j])
    && (forall k | FreeAt(L, k) && a < k :: k in s)
    && head == (if s == [] then NULL else s[0])
    && (forall i | 0 <= i < |s| :: m[s[i]].next == if i + 1 < |s| then s[i + 1] else NULL)
  }

  /** The list reached from n, the lowest free chunk above a, covers every free chunk above a. */
  lemma {:induction false} ListFrom(m: seq<Cell>, L: Layout, start: int, end: int, a: int, n: int) returns (s: seq<int>)
    requires Holds(m, L, start, end) && IsFreeAfter(L, a, n)
    ensures ListsFree(m, L, a, n, s)
    decreases if n == NULL then 0 else end - n
  {
    if n == NULL {
      s := [];
    } else {
      assert LinkOK(m, L, n);
      var t := ListFrom(m, L, start, end, n, m[n].next);
      s := [n] + t;
      ListedBelow(m, L, a, n, t);
    }
  }

  lemma {:induction false} ListedBelow(m: seq<Cell>, L: Layout, a: int, n: int, t: seq<int>)
    requires 0 <= n < |m| && n != NULL && IsFreeAfter(L, a, n) && ListsFree(m, L, n, m[n].next, t)
    ensures ListsFree(m, L, a, n, [n] + t)
  {
    var s := [n] + t;
    assert s[0] == n && forall i | 1 <= i < |s| :: s[i] == t[i - 1];
    forall k | FreeAt(L, k) && a < k ensures k in s { ListedOrFirst(m, L, a, n, t, k); }
  }

  lemma {:induction false} ListedOrFirst(m: seq<Cell>, L: Layout, a: int, n: int, t: seq<int>, k: int)
    requires 0 <= n < |m| && n != NULL && IsFreeAfter(L, a, n) && ListsFree(m, L, n, m[n].next, t)
    requires FreeAt(L, k) && a < k
    ensures k in [n] + t
  {
    if k != n { assert k in t; }
  }

  lemma FreeListInOrder(h: Heap) returns (s: seq<int>)
    requires WellFormed(h)
    ensures ListsFree(h.mem, h.L, NULL, h.head, s)
    ensures forall k | FreeAt(h.L, k) :: k > NULL
  {
    if h.isInit {
      s := ListFrom(h.mem, h.L, h.start, h.brk, NULL, h.head);
    } else {
      s := [];
    }
  }

  /** Regions of two different chunks in use, tags included, do not meet. */
  lemma RegionsDisjoint(h: Heap, c: int, d: int)
    requires WellFormed(h) && c in InUse(h.L) && d in InUse(h.L) && c != d
    ensures Next(h.L, c) <= d || Next(h.L, d) <= c
    ensures h.start <= c && Next(h.L, c) <= h.brk
  {
    TagsApart(h.L, h.start, h.brk, c, d);
  }

  /** Bounds and chunks in use fix the layout, the list head and every next field in the list. */
  lemma HeapIsCanonical(s: Heap, t: Heap)
    requires WellFormed(s) && WellFormed(t) && s.isInit && t.isInit
    requires s.start == t.start && s.brk == t.brk && InUse(s.L) == InUse(t.L)
    ensures s.L == t.L && s.head == t.head
    ensures forall k | FreeAt(s.L, k) :: 0 <= k < |s.mem| && k < |t.mem| && s.mem[k].next == t.mem[k].next
  {
    CanonicalLayout(s.L, t.L, s.start, s.brk);
    FreeAfterUnique(s.L, NULL, s.head, t.head);
    forall k | FreeAt(s.L, k)
      ensures 0 <= k < |s.mem| && k < |t.mem| && s.mem[k].next == t.mem[k].next
    {
      assert LinkOK(s.mem, s.L, k) && LinkOK(t.mem, t.L, k);
      FreeAfterUnique(s.L, k, s.mem[k].next, t.mem[k].next);
    }
  }

  /** A store by the program into a chunk it holds leaves the allocator's state intact. */
  lemma StoreKeepsHeap(s: Heap, a: int, v: Cell, t: Heap)
    requires WellFormed(s) && StoreStep(s, a, v, t)
    ensures WellFormed(t)
  {
    var h :| DataCell(s.L, h, a);
    forall k | k in s.L ensures t.mem[k] == s.mem[k] && Tagged(t.mem, k, s.L[k]) {
      assert Tagged(s.mem, k, s.L[k]);
      TagsApart(s.L, s.start, s.brk, h, k);
    }
    forall k ensures LinkOK(t.mem, s.L, k) { assert LinkOK(s.mem, s.L, k); }
  }

  // ------------------------------------------------------------- single calls

  /** The chunk in use that a malloc of n units at data address p adds to L. */
  ghost predicate AddsChunk(L: Layout, n: nat, K: Layout, c: int) {
    && c in K && n <= K[c].units <= n + 2
    && c !in InUse(L) && InUse(K) == InUse(L)[c := K[c].units]
  }

  lemma TookAdds(L: Layout, start: int, end: int, n: nat, h: int, K: Layout, p: int)
    requires Tiles(L, start, end) && Coalesced(L)
    requires TookFrom(L, n, h, K, p) && 1 <= n <= L[h].units
    ensures AddsChunk(L, n, K, p - 1)
  {
    TakeTiles(L, start, end, h, n);
  }

  lemma GrewAdds(L: Layout, start: int, end: int, n: nat, e: int, K: Layout, p: int)
    requires Tiles(L, start, end) && Coalesced(L) && GrewFor(L, end, n, e, K, p) && 1 <= n
    ensures AddsChunk(L, n, K, p - 1)
  {
    var u := FreshUnits(n);
    GrowTiles(L, start, end, u, e);
    TookAdds(Grow(L, end, u, e), start, end + u + 2, n, GrownAt(L, end, e), K, p);
  }

  /** Malloc adds exactly one chunk in use, of the requested size or at most two units more. */
  lemma MallocAddsOneChunk(s: Heap, size: nat, t: Heap, p: int)
    requires WellFormed(s) && MallocStep(s, size, t, p)
    ensures p == NULL ==> t.L == s.L && t.brk == s.brk
    ensures p != NULL ==> AddsChunk(s.L, SizeToUnits(size), t.L, p - 1)
  {
    if size > 0 && p != NULL {
      var n := SizeToUnits(size);
      assert Tiles(s.L, t.start, s.brk);
      if h :| TookFrom(s.L, n, h, t.L, p) && IsFirstFit(s.L, n, h) {
        TookAdds(s.L, t.start, s.brk, n, h, t.L, p);
      } else {
        var e :| GrewFor(s.L, s.brk, n, e, t.L, p);
        GrewAdds(s.L, t.start, s.brk, n, e, t.L, p);
      }
    }
  }

  /** No free chunk holds n units. */
  ghost predicate NoneHolds(L: Layout, n: nat) {
    forall k | FreeAt(L, k) :: L[k].units < n
  }

  /** Malloc fails exactly for size 0, or when no free chunk is large enough and the system is out of memory. */
  lemma MallocFailsIff(s: Heap, size: nat, t: Heap, p: int)
    requires WellFormed(s) && MallocStep(s, size, t, p)
    ensures var n := (size + 15) / 16;
            p == NULL <==> size == 0 || (NoneHolds(s.L, n) && s.brk + (if n < 1024 then 1024 else n) + 2 > |s.mem|)
  {
    if size > 0 {
      var n := SizeToUnits(size);
      assert forall k | FreeAt(s.L, k) :: k in s.L && s.L[k].free;
      if p != NULL {
        MallocAddsOneChunk(s, size, t, p);
      } else {
        NullMeansNoMemory(s, t.start, n, t);
      }
    }
  }

  lemma NullMeansNoMemory(s: Heap, start: int, n: nat, t: Heap)
    requires Tiles(s.L, start, s.brk) && Coalesced(s.L) && 1 <= n
    requires MallocSpec(s.L, s.brk, |s.mem|, n, t.L, t.brk, NULL)
    ensures NoFit(s.L, n) && s.brk + FreshUnits(n) + 2 > |s.mem|
  {
    if h :| TookFrom(s.L, n, h, t.L, NULL) && IsFirstFit(s.L, n, h) && t.brk == s.brk {
      TakeTiles(s.L, start, s.brk, h, n);
    } else if e :| GrewFor(s.L, s.brk, n, e, t.L, NULL) {
      var u := FreshUnits(n);
      GrowTiles(s.L, start, s.brk, u, e);
      TakeTiles(Grow(s.L, s.brk, u, e), start, s.brk + u + 2, GrownAt(s.L, s.brk, e), n);
    }
  }

  /** When the heap does not grow, the region is the upper end of the lowest free chunk that is large enough. */
  lemma MallocIsFirstFit(s: Heap, size: nat, t: Heap, p: int) returns (h: int)
    requires WellFormed(s) && MallocStep(s, size, t, p) && p != NULL && t.brk == s.brk
    ensures var n := (size + 15) / 16;
            && FreeAt(s.L, h) && n <= s.L[h].units && (forall k | FreeAt(s.L, k) && k < h :: s.L[k].units < n)
            && h <= p - 1 && p - 1 in t.L && Next(t.L, p - 1) == Next(s.L, h)
  {
    var n := SizeToUnits(size);
    h :| TookFrom(s.L, n, h, t.L, p) && IsFirstFit(s.L, n, h);
    TakeTiles(s.L, t.start, s.brk, h, n);
  }

  /** It asks for more memory only when no free chunk is large enough, and then for 1024 units at least and two tags. */
  lemma MallocGrowsBy(s: Heap, size: nat, t: Heap, p: int)
    requires WellFormed(s) && MallocStep(s, size, t, p) && t.brk != s.brk
    ensures var n := (size + 15) / 16;
            NoneHolds(s.L, n) && t.brk == s.brk + (if n < 1024 then 1024 else n) + 2 && t.brk >= s.brk + 1026
  {
    assert forall k | FreeAt(s.L, k) :: k in s.L && s.L[k].free;
  }

  lemma FreeRemovesOneChunk(L: Layout, start: int, end: int, c: int, K: Layout)
    requires Tiles(L, start, end) && Coalesced(L) && FreeSpec(L, c, K)
    ensures Tiles(K, start, end) && Coalesced(K)
    ensures c in InUse(L) && InUse(K) == InUse(L) - {c}
  {
    var e :| ReleasedFrom(L, e, c, K);
    ReleaseTiles(L, start, end, e, c);
  }

  /** Malloc followed by free of its result leaves the chunks in use as they were. */
  lemma MallocFreeInUse(s: Heap, size: nat, t: Heap, p: int, u: Heap)
    requires WellFormed(s) && MallocStep(s, size, t, p) && p != NULL && FreeStep(t, p, u)
    ensures InUse(u.L) == InUse(s.L)
  {
    MallocAddsOneChunk(s, size, t, p);
    FreeRemovesOneChunk(t.L, t.start, t.brk, p - 1, u.L);
  }

  /** Freeing what malloc just returned restores layout and list when the heap did not grow. */
  lemma MallocThenFree(s: Heap, size: nat, t: Heap, p: int, u: Heap)
    requires WellFormed(s) && s.isInit && MallocStep(s, size, t, p) && p != NULL && FreeStep(t, p, u)
    requires u.brk == s.brk
    ensures u.L == s.L && u.head == s.head
    ensures forall k | FreeAt(s.L, k) :: 0 <= k < |s.mem| && k < |u.mem| && u.mem[k].next == s.mem[k].next
  {
    MallocFreeInUse(s, size, t, p, u);
    HeapIsCanonical(s, u);
  }

  /** When the heap grew, what is left is the old heap with the new space joined to its last chunk if free. */
  lemma MallocThenFreeGrown(s: Heap, size: nat, t: Heap, p: int, u: Heap) returns (e: int)
    requires WellFormed(s) && MallocStep(s, size, t, p) && p != NULL && FreeStep(t, p, u)
    requires u.brk != s.brk
    ensures u.brk == s.brk + FreshUnits(SizeToUnits(size)) + 2 && IsFreeBefore(s.L, s.brk, e)
    ensures GrewFor(s.L, s.brk, SizeToUnits(size), e, t.L, p)
    ensures u.L == Grow(s.L, s.brk, FreshUnits(SizeToUnits(size)), e)
  {
    StartsTile(s, size, t, p, u);
    e := CanonicalAfterGrowth(s.L, u.start, s.brk, |s.mem|, SizeToUnits(size), t.L, u.brk, p, u.L);
  }

  /** The heap before malloc tiles from where the heap after free starts, also when malloc started it. */
  lemma StartsTile(s: Heap, size: nat, t: Heap, p: int, u: Heap)
    requires WellFormed(s) && MallocStep(s, size, t, p) && p != NULL && FreeStep(t, p, u)
    ensures Tiles(s.L, u.start, s.brk) && Coalesced(s.L) && Tiles(u.L, u.start, u.brk) && Coalesced(u.L)
    ensures InUse(u.L) == InUse(s.L)
    ensures MallocSpec(s.L, s.brk, |s.mem|, SizeToUnits(size), t.L, u.brk, p)
  {
    MallocFreeInUse(s, size, t, p, u);
  }

  lemma CanonicalAfterGrowth(
    L: Layout, start: int, end: int, limit: int, n: nat, K: Layout, end': int, p: int, U: Layout) returns (e: int)
    requires Tiles(L, start, end) && Coalesced(L)
    requires MallocSpec(L, end, limit, n, K, end', p) && end' != end
    requires Tiles(U, start, end') && Coalesced(U) && InUse(U) == InUse(L)
    ensures end' == end + FreshUnits(n) + 2 && IsFreeBefore(L, end, e)
    ensures GrewFor(L, end, n, e, K, p) && U == Grow(L, end, FreshUnits(n), e)
  {
    e := HowItGrew(L, end, limit, n, K, end', p);
    CanonicalGrown(L, start, end, FreshUnits(n), e, U);
  }

  lemma HowItGrew(L: Layout, end: int, limit: int, n: nat, K: Layout, end': int, p: int) returns (e: int)
    requires MallocSpec(L, end, limit, n, K, end', p) && end' != end
    ensures end' == end + FreshUnits(n) + 2
    ensures IsFreeBefore(L, end, e) && GrewFor(L, end, n, e, K, p)
  {
    e :| GrewFor(L, end, n, e, K, p);
  }

  lemma CanonicalGrown(L: Layout, start: int, end: int, u: nat, e: int, K: Layout)
    requires Tiles(L, start, end) && Coalesced(L) && IsFreeBefore(L, end, e) && 1 <= u
    requires Tiles(K, start, end + u + 2) && Coalesced(K) && InUse(K) == InUse(L)
    ensures K == Grow(L, end, u, e)
  {
    GrowTiles(L, start, end, u, e);
    CanonicalLayout(K, Grow(L, end, u, e), start, end + u + 2);
  }

  // ---------------------------------------------------------- runs of frees

  /** The heaps met while freeing the regions of the chunks cs one after the other. */
  ghost predicate FreeRun(hs: seq<Heap>, cs: seq<int>) {
    && |hs| == |cs| + 1 && WellFormed(hs[0]) && hs[0].isInit
    && forall i | 0 <= i < |cs| :: FreeStep(hs[i], cs[i] + 1, hs[i + 1])
  }

  lemma {:induction false} FreeRunRemoves(hs: seq<Heap>, cs: seq<int>)
    requires FreeRun(hs, cs)
    ensures var s, t := hs[0], hs[|cs|];
            && WellFormed(t) && t.isInit && t.start == s.start && t.brk == s.brk
            && InUse(t.L) == InUse(s.L) - Elems(cs)
    decreases |cs|
  {
    if cs == [] {
      assert Elems(cs) == {};
    } else {
      var n := |cs| - 1;
      FreeRunShorter(hs, cs);
      FreeRunRemoves(hs[..|cs|], cs[..n]);
      FreeRemoves(hs[n], cs[n], hs[n + 1]);
      LastElem(InUse(hs[0].L), cs);
    }
  }

  lemma FreeRunShorter(hs: seq<Heap>, cs: seq<int>)
    requires FreeRun(hs, cs) && cs != []
    ensures FreeRun(hs[..|cs|], cs[..|cs| - 1]) && hs[..|cs|][|cs| - 1] == hs[|cs| - 1] && hs[..|cs|][0] == hs[0]
    ensures FreeStep(hs[|cs| - 1], cs[|cs| - 1] + 1, hs[|cs|])
  {
  }

  /** As for a single chunk; free of NULL removes none. */
  lemma FreeRemoves(s: Heap, c: int, t: Heap)
    requires WellFormed(s) && s.isInit && FreeStep(s, c + 1, t)
    ensures WellFormed(t) && t.isInit && t.start == s.start && t.brk == s.brk
    ensures InUse(t.L) == InUse(s.L) - {c}
  {
    forall k | k in s.L ensures NULL < k { assert Tagged(s.mem, k, s.L[k]); }
    if c + 1 != NULL { FreeRemovesOneChunk(s.L, s.start, s.brk, c, t.L); }
  }

  /** The order in which regions are freed does not matter: layout, list head and next list come out the same. */
  lemma FreesCommute(hs: seq<Heap>, cs: seq<int>, ks: seq<Heap>, ds: seq<int>)
    requires FreeRun(hs, cs) && FreeRun(ks, ds) && Elems(cs) == Elems(ds)
    requires hs[0].start == ks[0].start && hs[0].brk == ks[0].brk && InUse(hs[0].L) == InUse(ks[0].L)
    ensures var s, t := hs[|cs|], ks[|ds|];
            && s.L == t.L && s.head == t.head && s.start == t.start && s.brk == t.brk
            && forall k | FreeAt(s.L, k) :: 0 <= k < |s.mem| && k < |t.mem| && s.mem[k].next == t.mem[k].next
  {
    FreeRunRemoves(hs, cs);
    FreeRunRemoves(ks, ds);
    HeapIsCanonical(hs[|cs|], ks[|ds|]);
  }

  /** Freeing every region in use leaves one free chunk that spans the heap and is alone in the list. */
  lemma FreeingAllLeavesOneChunk(hs: seq<Heap>, cs: seq<int>)
    requires FreeRun(hs, cs) && hs[0].start < hs[0].brk && InUse(hs[0].L).Keys <= Elems(cs)
    ensures var s, t := hs[0], hs[|cs|];
            && t.start == s.start && t.brk == s.brk && t.L == map[s.start := Chunk(s.brk - s.start - 2, true)]
            && t.head == s.start && 0 <= s.start < |t.mem| && t.mem[s.start].next == NULL
  {
    FreeRunRemoves(hs, cs);
    assert InUse(hs[0].L) - Elems(cs) == map[];
    var t := hs[|cs|];
    AllFreeIsOneChunk(t.L, t.start, t.brk);
    assert FreeAt(t.L, t.start) && LinkOK(t.mem, t.L, t.start);
  }

  // --------------------------------------------------------------- whole runs

  datatype Event = Malloc(size: nat, p: int) | Free(p: int) | Store(a: int, v: Cell)

  ghost predicate Step(s: Heap, e: Event, t: Heap) {
    match e
    case Malloc(size, p) => MallocStep(s, size, t, p)
    case Free(p) => FreeStep(s, p, t)
    case Store(a, v) => StoreStep(s, a, v, t)
  }

  /** A program run: calls of malloc and free, and stores into regions the program holds. */
  ghost predicate IsRun(ss: seq<Heap>, es: seq<Event>) {
    && |ss| == |es| + 1 && WellFormed(ss[0])
    && forall i | 0 <= i < |es| :: Step(ss[i], es[i], ss[i + 1])
  }

  lemma OneStepMore(ss: seq<Heap>, es: seq<Event>, e: Event, t: Heap)
    requires IsRun(ss, es) && Step(ss[|es|], e, t)
    ensures IsRun(ss + [t], es + [e])
  {
    var ss', es' := ss + [t], es + [e];
    forall i | 0 <= i < |es'| ensures Step(ss'[i], es'[i], ss'[i + 1]) {
      if i < |es| { assert Step(ss[i], es[i], ss[i + 1]); }
    }
  }

  lemma {:induction false} RunKeepsHeap(ss: seq<Heap>, es: seq<Event>, i: nat)
    requires IsRun(ss, es) && i <= |es|
    ensures WellFormed(ss[i])
  {
    if i > 0 {
      RunKeepsHeap(ss, es, i - 1);
      if es[i - 1].Store? {
        StoreKeepsHeap(ss[i - 1], es[i - 1].a, es[i - 1].v, ss[i]);
      } else {
        assert Step(ss[i - 1], es[i - 1], ss[i]);
      }
    }
  }

  /** e neither frees the chunk at c nor is the program's own store into its u data cells. */
  ghost predicate LeavesAlone(e: Event, c: int, u: nat) {
    match e
    case Malloc(_, _) => true
    case Free(p) => p != c + 1
    case Store(a, _) => !(c < a <= c + u)
  }

  lemma StepKeepsLive(s: Heap, e: Event, t: Heap, c: int)
    requires WellFormed(s) && Step(s, e, t) && c in InUse(s.L) && LeavesAlone(e, c, s.L[c].units)
    ensures c in InUse(t.L) && t.L[c].units == s.L[c].units
    ensures |t.mem| == |s.mem| && SameCells(s.mem, t.mem, c + 1, c + 1 + s.L[c].units)
  {
    match e
    case Malloc(size, p) => MallocKeepsLive(s, size, t, p, c);
    case Free(p) => FreeKeepsLive(s, p, t, c);
    case Store(a, v) =>
  }

  lemma MallocKeepsLive(s: Heap, size: nat, t: Heap, p: int, c: int)
    requires WellFormed(s) && MallocStep(s, size, t, p) && c in InUse(s.L)
    ensures c in InUse(t.L) && t.L[c].units == s.L[c].units
    ensures |t.mem| == |s.mem| && SameCells(s.mem, t.mem, c + 1, c + 1 + s.L[c].units)
  {
    MallocAddsOneChunk(s, size, t, p);
    MallocSparesData(s, size, t, p);
    assert InUse(s.L)[c] == s.L[c].units;
  }

  lemma MallocSparesData(s: Heap, size: nat, t: Heap, p: int)
    requires MallocStep(s, size, t, p)
    ensures DataKept(InUse(s.L), s.mem, t.mem) && (size == 0 ==> p == NULL)
  {
  }

  lemma FreeKeepsLive(s: Heap, p: int, t: Heap, c: int)
    requires WellFormed(s) && FreeStep(s, p, t) && c in InUse(s.L) && p != c + 1
    ensures c in InUse(t.L) && t.L[c].units == s.L[c].units
    ensures |t.mem| == |s.mem| && SameCells(s.mem, t.mem, c + 1, c + 1 + s.L[c].units)
  {
    if p != NULL {
      FreeRemovesOneChunk(s.L, s.start, s.brk, p - 1, t.L);
      assert c in InUse(s.L) - {p - 1};
    }
  }

  /** From malloc to free a region keeps its place, its size and the program's data, whatever else happens. */
  lemma {:induction false} LiveRegionKept(ss: seq<Heap>, es: seq<Event>, i: nat, j: nat, c: int)
    requires IsRun(ss, es) && i <= j <= |es|
    requires c in InUse(ss[i].L)
    requires forall k | i <= k < j :: LeavesAlone(es[k], c, ss[i].L[c].units)
    ensures c in InUse(ss[j].L) && ss[j].L[c].units == ss[i].L[c].units
    ensures |ss[j].mem| == |ss[i].mem|
    ensures SameCells(ss[i].mem, ss[j].mem, c + 1, c + 1 + ss[i].L[c].units)
    decreases j - i
  {
    if i < j {
      LiveRegionKept(ss, es, i, j - 1, c);
      RunKeepsHeap(ss, es, j - 1);
      StepKeepsLive(ss[j - 1], es[j - 1], ss[j], c);
    }
  }

  /** Cell by cell: no data cell of the region changes. */
  lemma LiveCellKept(ss: seq<Heap>, es: seq<Event>, i: nat, j: nat, c: int, a: int)
    requires IsRun(ss, es) && i <= j <= |es|
    requires c in InUse(ss[i].L) && c < a <= c + ss[i].L[c].units
    requires forall k | i <= k < j :: LeavesAlone(es[k], c, ss[i].L[c].units)
    ensures 0 <= a < |ss[i].mem| && a < |ss[j].mem| && ss[j].mem[a] == ss[i].mem[a]
  {
    LiveRegionKept(ss, es, i, j, c);
    RunKeepsHeap(ss, es, i);
    assert Tagged(ss[i].mem, c, ss[i].L[c]);
  }
}
