/**
  The heap seen as a tiling of the address range [start, end) by chunks.
  Addresses count CHUNK_UNITs.  A chunk of u units at header address h owns the
  header cell h, the data cells h+1 .. h+u and the footer cell h+u+1.
  */
module HeapLayout {
  const NULL := 0

  datatype Chunk = Chunk(units: nat, free: bool)

  type Layout = map<int, Chunk>

  /** The address just past chunk h. */
  function Next(L: Layout, h: int): int
    requires h in L
  {
    h + L[h].units + 2
  }

  ghost predicate IsPrev(L: Layout, p: int, h: int) {
    p in L && Next(L, p) == h
  }

  ghost predicate HasPrev(L: Layout, start: int, h: int) {
    h == start || exists p :: IsPrev(L, p, h)
  }

  ghost predicate HasNext(L: Layout, end: int, h: int) {
    h in L ==> Next(L, h) == end || Next(L, h) in L
  }

  ghost predicate Apart(L: Layout, h: int, k: int) {
    h in L && k in L && h < k ==> Next(L, h) <= k
  }

  /** The chunks tile [start, end) exactly, each with at least one data unit. */
  ghost predicate Tiles(L: Layout, start: int, end: int) {
    && NULL < start <= end
    && (start < end ==> start in L)
    && (forall h | h in L :: start <= h && 1 <= L[h].units && Next(L, h) <= end)
    && (forall h {:trigger HasNext(L, end, h)} :: HasNext(L, end, h))
    && (forall h {:trigger HasPrev(L, start, h)} | h in L :: HasPrev(L, start, h))
    && (forall h, k {:trigger Apart(L, h, k)} :: Apart(L, h, k))
  }

  ghost predicate FreeAt(L: Layout, h: int) {
    h in L && L[h].free
  }

  /** No two neighbouring chunks are both free. */
  ghost predicate Coalesced(L: Layout) {
    forall h {:trigger FreeAt(L, h)} | FreeAt(L, h) :: !FreeAt(L, Next(L, h))
  }

  /** n is the lowest free chunk above address a, or NULL when there is none. */
  ghost predicate IsFreeAfter(L: Layout, a: int, n: int) {
    if n == NULL then
      forall k | k in L && L[k].free :: k <= a
    else
      FreeAt(L, n) && a < n && forall k | k in L && L[k].free && a < k :: n <= k
  }

  /** e is the highest free chunk below address a, or NULL when there is none. */
  ghost predicate IsFreeBefore(L: Layout, a: int, e: int) {
    if e == NULL then
      forall k | k in L && L[k].free :: a <= k
    else
      FreeAt(L, e) && e < a && forall k | k in L && L[k].free && k < a :: k <= e
  }

  /** The chunks in use, with their sizes. */
  function InUse(L: Layout): map<int, nat> {
    map h | h in L && !L[h].free :: L[h].units
  }

  // ---------------------------------------------------------------- updates

  function SetFree(L: Layout, c: int, free: bool): Layout
    requires c in L
  {
    L[c := L[c].(free := free)]
  }

  function Extend(L: Layout, end: int, units: nat): Layout {
    L[end := Chunk(units, false)]
  }

  function Merge(L: Layout, c1: int, c2: int): Layout
    requires c1 in L && c2 in L
  {
    (L - {c2})[c1 := Chunk(L[c1].units + L[c2].units + 2, true)]
  }

  function Split(L: Layout, c: int, units: nat): Layout
    requires c in L && L[c].units > units + 2
  {
    L[c := Chunk(L[c].units - units - 2, true)][c + L[c].units - units := Chunk(units, false)]
  }

  lemma MergeInUse(L: Layout, c1: int, c2: int)
    requires FreeAt(L, c1) && FreeAt(L, c2) && c1 != c2
    ensures InUse(Merge(L, c1, c2)) == InUse(L)
  {
  }

  lemma SplitInUse(L: Layout, c: int, units: nat)
    requires FreeAt(L, c) && L[c].units > units + 2 && c + L[c].units - units !in L
    ensures InUse(Split(L, c, units)) == InUse(L)[c + L[c].units - units := units]
  {
  }

  function MergeUp(L: Layout, c: int): Layout
    requires c in L
  {
    if Next(L, c) in L && L[Next(L, c)].free then Merge(L, c, Next(L, c)) else L
  }

  /** Freeing c, whose free predecessor is e, and merging it with both neighbours where they are free. */
  function Release(L: Layout, e: int, c: int): Layout
    requires c in L && (e == NULL || e in L)
  {
    var K := SetFree(L, c, true);
    if e != NULL && Next(L, e) == c then MergeUp(Merge(K, e, c), e) else MergeUp(K, c)
  }

  /** The header of the free chunk that swallows c. */
  function Survivor(L: Layout, e: int, c: int): int
    requires e == NULL || e in L
  {
    if e != NULL && Next(L, e) == c then e else c
  }

  lemma SetFreeTiles(L: Layout, start: int, end: int, c: int, free: bool)
    requires Tiles(L, start, end) && c in L
    ensures Tiles(SetFree(L, c, free), start, end)
  {
    var K := SetFree(L, c, free);
    forall h ensures HasNext(K, end, h) {
      assert HasNext(L, end, h);
    }
    forall h | h in K ensures HasPrev(K, start, h) {
      assert HasPrev(L, start, h);
      if h != start {
        var p :| IsPrev(L, p, h);
        assert IsPrev(K, p, h);
      }
    }
    forall h, k ensures Apart(K, h, k) {
      assert Apart(L, h, k);
    }
  }

  lemma ExtendTiles(L: Layout, start: int, end: int, units: nat)
    requires Tiles(L, start, end) && 1 <= units
    ensures Tiles(Extend(L, end, units), start, end + units + 2)
    ensures end !in L
  {
    ExtendBounds(L, start, end, units);
    ExtendNeighbours(L, start, end, units);
    ExtendApart(L, start, end, units);
  }

  lemma ExtendBounds(L: Layout, start: int, end: int, units: nat)
    requires Tiles(L, start, end) && 1 <= units
    ensures var K := Extend(L, end, units);
            && end !in L && start in K
            && forall h | h in K :: start <= h && 1 <= K[h].units && Next(K, h) <= end + units + 2
  {
  }

  lemma ExtendNeighbours(L: Layout, start: int, end: int, units: nat)
    requires Tiles(L, start, end)
    ensures forall h {:trigger HasNext(Extend(L, end, units), end + units + 2, h)} ::
              HasNext(Extend(L, end, units), end + units + 2, h)
    ensures forall h {:trigger HasPrev(Extend(L, end, units), start, h)} | h in Extend(L, end, units) ::
              HasPrev(Extend(L, end, units), start, h)
  {
    var K, end' := Extend(L, end, units), end + units + 2;
    forall h ensures HasNext(K, end', h) { assert HasNext(L, end, h); }
    forall h | h in K ensures HasPrev(K, start, h) { ExtendPrev(L, start, end, units, h); }
  }

  lemma ExtendApart(L: Layout, start: int, end: int, units: nat)
    requires Tiles(L, start, end)
    ensures forall h, k {:trigger Apart(Extend(L, end, units), h, k)} :: Apart(Extend(L, end, units), h, k)
  {
    forall h, k ensures Apart(Extend(L, end, units), h, k) { assert Apart(L, h, k); }
  }

  lemma ExtendPrev(L: Layout, start: int, end: int, units: nat, h: int)
    requires Tiles(L, start, end) && h in Extend(L, end, units)
    ensures HasPrev(Extend(L, end, units), start, h)
  {
    var K := Extend(L, end, units);
    if h == end && start < end {
      var p := LastChunk(L, start, end);
      assert IsPrev(K, p, h);
    } else if h != end {
      assert HasPrev(L, start, h);
      if h != start {
        var p :| IsPrev(L, p, h);
        assert IsPrev(K, p, h);
      }
    }
  }

  /** Some chunk ends at the end of a non-empty heap. */
  lemma LastChunk(L: Layout, start: int, end: int) returns (p: int)
    requires Tiles(L, start, end) && start < end
    ensures IsPrev(L, p, end)
  {
    p := start;
    while Next(L, p) != end
      invariant p in L
      decreases end - p
    {
      assert HasNext(L, end, p);
      p := Next(L, p);
    }
  }

  lemma MergeTiles(L: Layout, start: int, end: int, c1: int, c2: int)
    requires Tiles(L, start, end) && c1 in L && c2 in L && Next(L, c1) == c2
    ensures Tiles(Merge(L, c1, c2), start, end)
  {
    var K := Merge(L, c1, c2);
    forall h, k ensures Apart(K, h, k) {
      assert Apart(L, h, k) && Apart(L, c2, k);
    }
    forall h ensures HasNext(K, end, h) {
      assert HasNext(L, end, h) && HasNext(L, end, c2);
      assert Apart(L, h, c1) && Apart(L, c1, h);
    }
    forall h | h in K ensures HasPrev(K, start, h) {
      assert HasPrev(L, start, h);
      if h != start {
        var p :| IsPrev(L, p, h);
        assert IsPrev(K, if p == c2 then c1 else p, h);
      }
    }
  }

  lemma SplitTiles(L: Layout, start: int, end: int, c: int, units: nat)
    requires Tiles(L, start, end) && c in L && L[c].units > units + 2 && 1 <= units
    ensures Tiles(Split(L, c, units), start, end)
    ensures c + L[c].units - units !in L
  {
    var K, d := Split(L, c, units), c + L[c].units - units;
    assert d !in L by {
      assert Apart(L, c, d);
    }
    forall h, k ensures Apart(K, h, k) {
      assert Apart(L, h, k) && Apart(L, c, k) && Apart(L, h, c) && Apart(L, c, h);
    }
    forall h ensures HasNext(K, end, h) {
      assert HasNext(L, end, h);
      assert HasNext(L, end, c);
    }
    forall h | h in K ensures HasPrev(K, start, h) {
      if h == d {
        assert IsPrev(K, c, h);
      } else {
        assert HasPrev(L, start, h);
        if h != start {
          var p :| IsPrev(L, p, h);
          assert IsPrev(K, if p == c then d else p, h);
        }
      }
    }
  }

  lemma MergeUpTiles(L: Layout, start: int, end: int, c: int)
    requires Tiles(L, start, end) && FreeAt(L, c)
    ensures Tiles(MergeUp(L, c), start, end) && FreeAt(MergeUp(L, c), c)
    ensures InUse(MergeUp(L, c)) == InUse(L)
    ensures forall k | k < c :: k in MergeUp(L, c) <==> k in L
    ensures forall k | k < c && k in L :: MergeUp(L, c)[k] == L[k]
    ensures Next(L, c) <= Next(MergeUp(L, c), c)
  {
    var n := Next(L, c);
    if n in L && L[n].free { MergeTiles(L, start, end, c, n); }
  }

  lemma MergeUpCoalesced(L: Layout, start: int, end: int, c: int)
    requires Tiles(L, start, end) && FreeAt(L, c)
    requires forall h {:trigger FreeAt(L, h)} | FreeAt(L, h) && h != c :: !FreeAt(L, Next(L, h))
    ensures Coalesced(MergeUp(L, c))
  {
    var K, n := MergeUp(L, c), Next(L, c);
    forall h | FreeAt(K, h) ensures !FreeAt(K, Next(K, h)) {
      assert FreeAt(L, h) || h == c;
      if FreeAt(L, n) { assert Apart(L, c, h) && Apart(L, c, n); }
    }
  }

  /** Release leaves a coalesced tiling of the same range in which c alone is no longer in use. */
  lemma ReleaseTiles(L: Layout, start: int, end: int, e: int, c: int)
    requires Tiles(L, start, end) && Coalesced(L)
    requires c in L && !L[c].free && IsFreeBefore(L, c, e)
    ensures Tiles(Release(L, e, c), start, end) && Coalesced(Release(L, e, c))
    ensures InUse(Release(L, e, c)) == InUse(L) - {c}
    ensures var s := Survivor(L, e, c); FreeAt(Release(L, e, c), s) && s <= c && Next(L, c) <= Next(Release(L, e, c), s)
  {
    var K := SetFree(L, c, true);
    SetFreeTiles(L, start, end, c, true);
    assert InUse(K) == InUse(L) - {c};
    if e != NULL && Next(L, e) == c {
      var M := Merge(K, e, c);
      MergeTiles(K, start, end, e, c);
      assert InUse(M) == InUse(K);
      forall h | FreeAt(M, h) && h != e ensures !FreeAt(M, Next(M, h)) {
        assert FreeAt(L, h) && Next(L, h) == Next(M, h);
        assert Apart(L, h, e) && Apart(L, e, h);
      }
      MergeUpTiles(M, start, end, e);
      MergeUpCoalesced(M, start, end, e);
    } else {
      forall h | FreeAt(K, h) && h != c ensures !FreeAt(K, Next(K, h)) {
        assert FreeAt(L, h) && Next(L, h) == Next(K, h);
        if h < c { assert Apart(L, h, e); }
      }
      MergeUpTiles(K, start, end, c);
      MergeUpCoalesced(K, start, end, c);
    }
  }

  /** Below the lowest free chunk, the upper neighbour of c is free just when it is that chunk. */
  lemma InsertedBelowHead(L: Layout, start: int, end: int, c: int, head: int)
    requires Tiles(L, start, end)
    requires c in L && !L[c].free && IsFreeBefore(L, c, NULL) && IsFreeAfter(L, NULL, head)
    ensures var K := SetFree(L, c, true);
            Release(L, NULL, c) == if head != NULL && Next(L, c) == head then Merge(K, c, head) else K
    ensures IsFreeAfter(Release(L, NULL, c), NULL, c)
  {
    var n := Next(L, c);
    if FreeAt(L, n) { assert n == head by { assert Apart(L, c, head); } }
  }

  // ------------------------------------------------------ malloc on layouts

  const MEMALLOC_MIN := 1024

  /** The units of a fresh chunk obtained for a request of n units. */
  function FreshUnits(n: nat): nat {
    if n < MEMALLOC_MIN then MEMALLOC_MIN else n
  }

  ghost predicate NoFit(L: Layout, n: nat) {
    forall k | k in L && L[k].free :: L[k].units < n
  }

  /** h is the lowest free chunk of at least n units. */
  ghost predicate IsFirstFit(L: Layout, n: nat, h: int) {
    FreeAt(L, h) && n <= L[h].units && forall k | k in L && L[k].free && k < h :: L[k].units < n
  }

  /** Serving n units from free chunk h: its tail end when something worth keeping remains, else all of it. */
  function Take(L: Layout, h: int, n: nat): Layout
    requires h in L
  {
    if L[h].units > n + 2 then Split(L, h, n) else SetFree(L, h, false)
  }

  function TakenAt(L: Layout, h: int, n: nat): int
    requires h in L
  {
    if L[h].units > n + 2 then h + L[h].units - n else h
  }

  /** The heap grown by a chunk of u units at end, joined to the last free chunk e when that is adjacent. */
  function Grow(L: Layout, end: int, u: nat, e: int): Layout
    requires e == NULL || e in L
  {
    if e != NULL && Next(L, e) == end then L[e := Chunk(L[e].units + u + 2, true)] else L[end := Chunk(u, true)]
  }

  /** The last chunk of the grown heap. */
  function GrownAt(L: Layout, end: int, e: int): int
    requires e == NULL || e in L
  {
    if e != NULL && Next(L, e) == end then e else end
  }

  lemma TakeTiles(L: Layout, start: int, end: int, h: int, n: nat)
    requires Tiles(L, start, end) && Coalesced(L) && FreeAt(L, h) && 1 <= n <= L[h].units
    ensures Tiles(Take(L, h, n), start, end) && Coalesced(Take(L, h, n))
    ensures var K, c := Take(L, h, n), TakenAt(L, h, n);
            c in K && n <= K[c].units <= n + 2 && h <= c && Next(K, c) == Next(L, h)
    ensures var K, c := Take(L, h, n), TakenAt(L, h, n);
            c !in InUse(L) && InUse(K) == InUse(L)[c := K[c].units]
  {
    var K := Take(L, h, n);
    if L[h].units > n + 2 {
      SplitTiles(L, start, end, h, n);
      SplitInUse(L, h, n);
    } else {
      SetFreeTiles(L, start, end, h, false);
    }
    forall k | FreeAt(K, k) ensures !FreeAt(K, Next(K, k)) {
      assert FreeAt(L, k);
      assert Apart(L, k, h) && Apart(L, h, k);
    }
  }

  /** Entering the fresh chunk into the free list amounts to Grow. */
  lemma GrowTiles(L: Layout, start: int, end: int, u: nat, e: int)
    requires Tiles(L, start, end) && Coalesced(L) && 1 <= u && IsFreeBefore(L, end, e)
    ensures var E, G, g := Extend(L, end, u), Grow(L, end, u, e), GrownAt(L, end, e);
            && Tiles(E, start, end + u + 2) && IsFreeBefore(E, end, e) && !FreeAt(E, end)
            && Release(E, e, end) == G && Survivor(E, e, end) == g
            && Tiles(G, start, end + u + 2) && Coalesced(G) && InUse(G) == InUse(L)
            && FreeAt(G, g) && Next(G, g) == end + u + 2 && u <= G[g].units
  {
    ExtendTiles(L, start, end, u);
    var E := Extend(L, end, u);
    ExtendCoalesced(L, start, end, u);
    ReleaseTiles(E, start, end + u + 2, e, end);
    ReleaseIsGrow(L, start, end, u, e);
  }

  lemma ReleaseIsGrow(L: Layout, start: int, end: int, u: nat, e: int)
    requires Tiles(L, start, end) && IsFreeBefore(L, end, e)
    ensures var E := Extend(L, end, u);
            && IsFreeBefore(E, end, e) && !FreeAt(E, end)
            && Release(E, e, end) == Grow(L, end, u, e) && Survivor(E, e, end) == GrownAt(L, end, e)
  {
    assert end + u + 2 !in Extend(L, end, u);
  }

  lemma ExtendCoalesced(L: Layout, start: int, end: int, u: nat)
    requires Tiles(L, start, end) && Coalesced(L) && end !in L
    ensures Coalesced(Extend(L, end, u)) && InUse(Extend(L, end, u)) - {end} == InUse(L)
  {
    var E := Extend(L, end, u);
    forall h | FreeAt(E, h) ensures !FreeAt(E, Next(E, h)) { assert FreeAt(L, h); }
  }

  /** The free predecessor of the last chunk of a grown heap. */
  lemma GrownPrev(L: Layout, start: int, end: int, u: nat, e: int, ee: int)
    requires Tiles(L, start, end) && IsFreeBefore(L, end, e) && (e != NULL ==> IsFreeBefore(L, e, ee))
    ensures var G, g := Grow(L, end, u, e), GrownAt(L, end, e);
            IsFreeBefore(G, g, if g == e then ee else e)
  {
  }

  /** A malloc of n units: layout, end of heap and returned data address before and after. */
  ghost predicate MallocSpec(L: Layout, end: int, limit: int, n: nat, K: Layout, end': int, p: int) {
    || (exists h :: TookFrom(L, n, h, K, p) && IsFirstFit(L, n, h) && end' == end)
    || (NoFit(L, n) && end' == end + FreshUnits(n) + 2 <= limit && exists e :: GrewFor(L, end, n, e, K, p))
    || (NoFit(L, n) && end + FreshUnits(n) + 2 > limit && K == L && end' == end && p == NULL)
  }

  ghost predicate TookFrom(L: Layout, n: nat, h: int, K: Layout, p: int) {
    FreeAt(L, h) && K == Take(L, h, n) && p == TakenAt(L, h, n) + 1
  }

  ghost predicate GrewFor(L: Layout, end: int, n: nat, e: int, K: Layout, p: int) {
    IsFreeBefore(L, end, e) && TookFrom(Grow(L, end, FreshUnits(n), e), n, GrownAt(L, end, e), K, p)
  }

  /** A free of the chunk in use at c. */
  ghost predicate FreeSpec(L: Layout, c: int, K: Layout) {
    exists e :: ReleasedFrom(L, e, c, K)
  }

  ghost predicate ReleasedFrom(L: Layout, e: int, c: int, K: Layout) {
    c in L && !L[c].free && IsFreeBefore(L, c, e) && K == Release(L, e, c)
  }

  // ------------------------------------------------------------ canonicity

  lemma SameFreeChunk(L: Layout, K: Layout, start: int, end: int, h: int)
    requires Tiles(L, start, end) && Tiles(K, start, end)
    requires Coalesced(L) && Coalesced(K)
    requires InUse(L) == InUse(K)
    requires FreeAt(L, h)
    ensures h in K && K[h] == L[h]
  {
    // The chunk below h is in use, hence common to both layouts; so h starts a chunk of K.
    assert h in K by {
      assert HasPrev(L, start, h);
      if h != start {
        var p :| IsPrev(L, p, h);
        assert !FreeAt(L, p);
        assert p in InUse(L) && p in InUse(K);
        assert HasNext(K, end, p);
      }
    }
    assert h !in InUse(L);
    assert FreeAt(K, h);
    // Neither chunk can be the shorter one: the next chunk would be in use, so common to both.
    NotLonger(L, K, start, end, h);
    NotLonger(K, L, start, end, h);
  }

  lemma NotLonger(L: Layout, K: Layout, start: int, end: int, h: int)
    requires Tiles(L, start, end) && Tiles(K, start, end)
    requires Coalesced(L)
    requires InUse(L) == InUse(K)
    requires FreeAt(L, h) && FreeAt(K, h)
    ensures Next(K, h) <= Next(L, h)
  {
    var q := Next(L, h);
    assert HasNext(L, end, h);
    if q != end {
      assert !FreeAt(L, q);
      assert q in InUse(L) && q in InUse(K);
      assert Apart(K, h, q);
    }
  }

  /** The bounds and the chunks in use determine the whole coalesced layout. */
  lemma CanonicalLayout(L: Layout, K: Layout, start: int, end: int)
    requires Tiles(L, start, end) && Tiles(K, start, end)
    requires Coalesced(L) && Coalesced(K)
    requires InUse(L) == InUse(K)
    ensures L == K
  {
    forall h | h in L ensures h in K && K[h] == L[h] {
      if FreeAt(L, h) { SameFreeChunk(L, K, start, end, h); } else { assert h in InUse(L); assert h in InUse(K); }
    }
    forall h | h in K ensures h in L {
      if FreeAt(K, h) { SameFreeChunk(K, L, start, end, h); } else { assert h in InUse(K); assert h in InUse(L); }
    }
  }

  /** With nothing in use a non-empty heap is one free chunk spanning it. */
  lemma AllFreeIsOneChunk(L: Layout, start: int, end: int)
    requires Tiles(L, start, end) && Coalesced(L) && InUse(L) == map[] && start < end
    ensures L == map[start := Chunk(end - start - 2, true)]
  {
    forall h | h in L ensures L[h].free { assert h !in InUse(L); }
    assert FreeAt(L, start);
    assert HasNext(L, end, start);
    forall h | h in L ensures h == start {
      assert HasPrev(L, start, h);
      if h != start {
        var p :| IsPrev(L, p, h);
        assert FreeAt(L, p);
      }
    }
  }

  lemma FreeAfterUnique(L: Layout, a: int, m: int, n: int)
    requires forall h | h in L :: NULL < h
    requires IsFreeAfter(L, a, m) && IsFreeAfter(L, a, n)
    ensures m == n
  {
  }

  /** So two searches that both find the highest free chunk below a agree. */
  lemma FreeBeforeUnique(L: Layout, a: int, d: int, e: int)
    requires forall h | h in L :: NULL < h
    requires IsFreeBefore(L, a, d) && IsFreeBefore(L, a, e)
    ensures d == e
  {
  }
}
