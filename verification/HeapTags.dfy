/**
  How a layout is laid down in memory: header and footer cells, the status word
  and the address-ordered next list.  Everything here is about values; the code
  that writes the cells is in BoundaryTagHeap.
  */
module HeapTags {
  import opened HeapLayout
  import opened Regions

  const CHUNK_FREE := 0
  const CHUNK_IN_USE := 1

  /** One CHUNK_UNIT of memory, read as a struct Chunk.  User data may be any cell. */
  datatype Cell = Cell(next: int, units: int, status: int)

  ghost predicate Tagged(m: seq<Cell>, h: int, c: Chunk) {
    && 0 < h < h + c.units + 1 < |m|
    && m[h].units == c.units
    && m[h + c.units + 1].units == c.units
    && m[h].status == (if c.free then CHUNK_FREE else CHUNK_IN_USE)
  }

  /** Header and footer of every chunk carry its size, the header its status. */
  ghost predicate Tags(m: seq<Cell>, L: Layout) {
    forall h | h in L :: Tagged(m, h, L[h])
  }

  ghost predicate LinkOK(m: seq<Cell>, L: Layout, h: int) {
    FreeAt(L, h) ==> 0 <= h < |m| && IsFreeAfter(L, h, m[h].next)
  }

  /** The next field of every free chunk leads to the free chunk above it. */
  ghost predicate Links(m: seq<Cell>, L: Layout) {
    forall h {:trigger LinkOK(m, L, h)} :: LinkOK(m, L, h)
  }

  /** Memory m holds the layout L of [start, end), coalesced or not. */
  ghost predicate Holds(m: seq<Cell>, L: Layout, start: int, end: int) {
    Tiles(L, start, end) && end <= |m| && Tags(m, L) && Links(m, L)
  }

  /** The data cells of the chunks in live are the same in m and in n. */
  ghost predicate DataKept(live: map<int, nat>, m: seq<Cell>, n: seq<Cell>) {
    |m| == |n| && forall h | h in live :: SameCells(m, n, h + 1, h + 1 + live[h])
  }

  lemma DataKeptTrans(l: map<int, nat>, k: map<int, nat>, m0: seq<Cell>, m1: seq<Cell>, m2: seq<Cell>)
    requires DataKept(l, m0, m1) && DataKept(k, m1, m2)
    requires forall h | h in l :: h in k && k[h] == l[h]
    ensures DataKept(l, m0, m2)
  {
  }

  lemma DataKeptLess(l: map<int, nat>, k: map<int, nat>, m: seq<Cell>, n: seq<Cell>)
    requires DataKept(k, m, n)
    requires forall h | h in l :: h in k && k[h] == l[h]
    ensures DataKept(l, m, n)
  {
  }

  /** Data kept before and after c becomes free is kept throughout, but for that of c. */
  lemma DataKeptEntering(L: Layout, c: int, m0: seq<Cell>, m1: seq<Cell>, m2: seq<Cell>)
    requires c in L && DataKept(InUse(L), m0, m1) && DataKept(InUse(SetFree(L, c, true)), m1, m2)
    ensures DataKept(InUse(SetFree(L, c, true)), m0, m2)
  {
    DataKeptLess(InUse(SetFree(L, c, true)), InUse(L), m0, m1);
    DataKeptTrans(InUse(SetFree(L, c, true)), InUse(SetFree(L, c, true)), m0, m1, m2);
  }

  /** And while c leaves the free list. */
  lemma DataKeptLeaving(L: Layout, c: int, m0: seq<Cell>, m1: seq<Cell>, m2: seq<Cell>)
    requires c in L && DataKept(InUse(L), m0, m1) && DataKept(InUse(SetFree(L, c, false)), m1, m2)
    ensures L[c].free ==> DataKept(InUse(L), m0, m2)
  {
    if L[c].free { DataKeptTrans(InUse(L), InUse(SetFree(L, c, false)), m0, m1, m2); }
  }

  /** The footer of chunk h. */
  function Footer(L: Layout, h: int): int
    requires h in L
  {
    h + L[h].units + 1
  }

  /** Memory m1 differs from m0 at most in cells a and b. */
  ghost predicate Only(a: int, b: int, m0: seq<Cell>, m1: seq<Cell>) {
    |m0| == |m1| && forall i {:trigger m1[i]} | 0 <= i < |m0| && i != a && i != b :: m1[i] == m0[i]
  }

  /** Chunks do not overlap: tags of k are tags of no other chunk h, and lie outside its data. */
  lemma TagsApart(L: Layout, start: int, end: int, h: int, k: int)
    requires Tiles(L, start, end) && h in L && k in L
    ensures h != k ==> (Next(L, h) <= k || Next(L, k) <= h)
  {
    assert Apart(L, h, k) && Apart(L, k, h);
  }

  /** Memory m1 differs from m0 only inside [lo, hi). */
  ghost predicate Within(lo: int, hi: int, m0: seq<Cell>, m1: seq<Cell>) {
    |m0| == |m1| && forall i {:trigger m1[i]} | 0 <= i < |m0| && !(lo <= i < hi) :: m1[i] == m0[i]
  }

  /** Header, data and footer of chunk h are the same in both memories. */
  ghost predicate Kept(m0: seq<Cell>, m1: seq<Cell>, L: Layout, h: int)
    requires h in L && |m0| == |m1|
  {
    SameCells(m0, m1, h, Next(L, h))
  }

  /** Writes inside chunk k leave the other chunks alone. */
  lemma WriteInside(m0: seq<Cell>, m1: seq<Cell>, L: Layout, start: int, end: int, k: int)
    requires Tiles(L, start, end) && k in L && Within(k, Next(L, k), m0, m1)
    ensures forall h | h in L && h != k :: Kept(m0, m1, L, h)
  {
    forall h | h in L && h != k ensures Kept(m0, m1, L, h) { TagsApart(L, start, end, h, k); }
  }

  /** Live chunks left alone keep their data. */
  lemma KeptData(m0: seq<Cell>, m1: seq<Cell>, L: Layout)
    requires |m0| == |m1|
    requires forall h | h in L && !L[h].free :: Kept(m0, m1, L, h)
    ensures DataKept(InUse(L), m0, m1)
  {
  }

  /** The next field of a footer carries no information: nothing in Holds depends on it. */
  lemma BackLinkHolds(m0: seq<Cell>, m1: seq<Cell>, L: Layout, start: int, end: int, k: int)
    requires Holds(m0, L, start, end) && k in L
    requires Within(Footer(L, k), Next(L, k), m0, m1)
    requires m1[Footer(L, k)].units == L[k].units
    ensures Holds(m1, L, start, end)
    ensures forall h | h in L :: m1[h] == m0[h]
    ensures DataKept(InUse(L), m0, m1)
  {
    WriteInside(m0, m1, L, start, end, k);
    forall h | h in L ensures m1[h] == m0[h] && Tagged(m1, h, L[h]) {
      assert Tagged(m0, h, L[h]);
    }
    forall h ensures LinkOK(m1, L, h) { assert LinkOK(m0, L, h); }
  }

  lemma MergeHolds(m0: seq<Cell>, m1: seq<Cell>, L: Layout, start: int, end: int, c1: int, c2: int)
    requires Holds(m0, L, start, end)
    requires FreeAt(L, c1) && FreeAt(L, c2) && Next(L, c1) == c2 && m0[c1].next == c2
    requires Within(c1, Next(L, c2), m0, m1)
    requires m1[c1] == Cell(m0[c2].next, L[c1].units + L[c2].units + 2, CHUNK_FREE)
    requires m1[Footer(L, c2)].units == L[c1].units + L[c2].units + 2
    ensures Holds(m1, Merge(L, c1, c2), start, end)
    ensures DataKept(InUse(Merge(L, c1, c2)), m0, m1)
  {
    var K := Merge(L, c1, c2);
    MergeTiles(L, start, end, c1, c2);
    forall h | h in L && h != c1 && h != c2 ensures Kept(m0, m1, L, h) {
      TagsApart(L, start, end, h, c1);
      TagsApart(L, start, end, h, c2);
    }
    forall h | h in K ensures Tagged(m1, h, K[h]) {
      assert Tagged(m0, h, L[h]) && Tagged(m0, c2, L[c2]);
    }
    KeptData(m0, m1, K);
    MergedLinks(m0, m1, L, start, end, c1, c2);
  }

  lemma MergedLinks(m0: seq<Cell>, m1: seq<Cell>, L: Layout, start: int, end: int, c1: int, c2: int)
    requires Tiles(L, start, end) && end <= |m0| == |m1| && Links(m0, L)
    requires FreeAt(L, c1) && FreeAt(L, c2) && Next(L, c1) == c2 && m0[c1].next == c2
    requires m1[c1].next == m0[c2].next
    requires forall h | h in L && h != c1 && h != c2 :: Kept(m0, m1, L, h)
    ensures Links(m1, Merge(L, c1, c2))
  {
    var K := Merge(L, c1, c2);
    assert LinkOK(m0, L, c1) && LinkOK(m0, L, c2);
    forall h ensures LinkOK(m1, K, h) { assert LinkOK(m0, L, h); }
  }

  lemma HeaderWrites(m0: seq<Cell>, m1: seq<Cell>, L: Layout, start: int, end: int, c: int, e: int)
    requires Tiles(L, start, end) && Tags(m0, L) && c in L && e in L
    requires Only(c, e, m0, m1)
    requires m1[c].units == L[c].units && m1[e].units == L[e].units
    ensures forall h | h in L && h != c && h != e :: Tagged(m1, h, L[h])
    ensures m1[c].status == CHUNK_FREE ==> Tagged(m1, c, Chunk(L[c].units, true))
    ensures m1[c].status == CHUNK_IN_USE ==> Tagged(m1, c, Chunk(L[c].units, false))
    ensures m1[e].status == CHUNK_FREE ==> Tagged(m1, e, Chunk(L[e].units, true))
    ensures DataKept(InUse(L), m0, m1)
  {
    HeaderTags(m0, m1, L, start, end, c, e);
    HeaderData(m0, m1, L, start, end, c, e);
  }

  lemma HeaderTags(m0: seq<Cell>, m1: seq<Cell>, L: Layout, start: int, end: int, c: int, e: int)
    requires Tiles(L, start, end) && Tags(m0, L) && c in L && e in L
    requires Only(c, e, m0, m1)
    requires m1[c].units == L[c].units && m1[e].units == L[e].units
    ensures forall h | h in L && h != c && h != e :: Tagged(m1, h, L[h])
    ensures m1[c].status == CHUNK_FREE ==> Tagged(m1, c, Chunk(L[c].units, true))
    ensures m1[c].status == CHUNK_IN_USE ==> Tagged(m1, c, Chunk(L[c].units, false))
    ensures m1[e].status == CHUNK_FREE ==> Tagged(m1, e, Chunk(L[e].units, true))
  {
    FooterKept(m0, m1, L, start, end, c, e, c);
    FooterKept(m0, m1, L, start, end, c, e, e);
    forall h | h in L && h != c && h != e ensures Tagged(m1, h, L[h]) { FooterKept(m0, m1, L, start, end, c, e, h); }
  }

  lemma HeaderData(m0: seq<Cell>, m1: seq<Cell>, L: Layout, start: int, end: int, c: int, e: int)
    requires Tiles(L, start, end) && c in L && e in L && Only(c, e, m0, m1)
    ensures DataKept(InUse(L), m0, m1)
  {
    forall h | h in InUse(L) ensures SameCells(m0, m1, h + 1, h + 1 + L[h].units) {
      BehindHeaders(m0, m1, L, start, end, c, e, h);
    }
  }

  lemma FooterKept(m0: seq<Cell>, m1: seq<Cell>, L: Layout, start: int, end: int, c: int, e: int, h: int)
    requires Tiles(L, start, end) && Tags(m0, L) && c in L && e in L && h in L && Only(c, e, m0, m1)
    ensures Tagged(m0, h, L[h]) && m1[Footer(L, h)] == m0[Footer(L, h)]
  {
    assert Tagged(m0, h, L[h]);
    BehindHeaders(m0, m1, L, start, end, c, e, h);
  }

  /** Writes to headers c and e spare the data and the footer of h. */
  lemma BehindHeaders(m0: seq<Cell>, m1: seq<Cell>, L: Layout, start: int, end: int, c: int, e: int, h: int)
    requires Tiles(L, start, end) && c in L && e in L && h in L && Only(c, e, m0, m1)
    ensures SameCells(m0, m1, h + 1, Next(L, h))
  {
    TagsApart(L, start, end, h, c);
    TagsApart(L, start, end, h, e);
  }

  /** Entering c below its free predecessor e (if any) gives every free chunk its successor. */
  lemma LinkedIn(m0: seq<Cell>, m1: seq<Cell>, L: Layout, e: int, c: int, h: int)
    requires forall k | k in L :: NULL < k < |m0|
    requires c in L && !L[c].free && IsFreeBefore(L, c, e)
    requires |m1| == |m0| && IsFreeAfter(L, c, m1[c].next) && LinkOK(m0, L, h)
    requires e != NULL ==> e < |m0| && m1[e].next == c
    requires h != c && h != e && 0 <= h < |m0| ==> m1[h] == m0[h]
    ensures LinkOK(m1, SetFree(L, c, true), h)
  {
  }

  lemma LinkedOut(m0: seq<Cell>, m1: seq<Cell>, L: Layout, e: int, c: int, h: int)
    requires forall k | k in L :: NULL < k < |m0|
    requires FreeAt(L, c) && IsFreeBefore(L, c, e)
    requires IsFreeAfter(L, c, m0[c].next) && LinkOK(m0, L, h)
    requires |m1| == |m0|
    requires e != NULL ==> e < |m0| && m1[e].next == m0[c].next
    requires h != c && h != e && 0 <= h < |m0| ==> m1[h] == m0[h]
    ensures LinkOK(m1, SetFree(L, c, false), h)
  {
  }

  lemma SetFreeTags(m0: seq<Cell>, m1: seq<Cell>, L: Layout, start: int, end: int, e: int, c: int)
    requires Tiles(L, start, end) && Tags(m0, L)
    requires c in L && !L[c].free && (e == NULL || FreeAt(L, e))
    requires if e == NULL then Only(c, c, m0, m1)
             else Only(c, e, m0, m1) && m1[e] == m0[e].(next := c)
    requires m1[c] == Cell(m1[c].next, L[c].units, CHUNK_FREE)
    ensures Tags(m1, SetFree(L, c, true))
    ensures DataKept(InUse(SetFree(L, c, true)), m0, m1)
  {
    HeaderWrites(m0, m1, L, start, end, c, if e == NULL then c else e);
    DataKeptLess(InUse(SetFree(L, c, true)), InUse(L), m0, m1);
  }

  lemma SetFreeHolds(m0: seq<Cell>, m1: seq<Cell>, L: Layout, start: int, end: int, e: int, c: int)
    requires Holds(m0, L, start, end)
    requires c in L && !L[c].free && IsFreeBefore(L, c, e)
    requires |m1| == |m0| && IsFreeAfter(L, c, m1[c].next)
    requires if e == NULL then Only(c, c, m0, m1)
             else Only(c, e, m0, m1) && m1[e] == m0[e].(next := c)
    requires m1[c] == Cell(m1[c].next, L[c].units, CHUNK_FREE)
    ensures Holds(m1, SetFree(L, c, true), start, end)
    ensures DataKept(InUse(SetFree(L, c, true)), m0, m1)
  {
    var K := SetFree(L, c, true);
    SetFreeTiles(L, start, end, c, true);
    SetFreeTags(m0, m1, L, start, end, e, c);
    forall h ensures LinkOK(m1, K, h) {
      assert LinkOK(m0, L, h);
      LinkedIn(m0, m1, L, e, c, h);
    }
  }

  /** As SetFreeHolds, with the back link of c written too. */
  lemma EnterHolds(m0: seq<Cell>, m1: seq<Cell>, L: Layout, start: int, end: int, e: int, c: int)
    requires Holds(m0, L, start, end)
    requires c in L && !L[c].free && e != NULL && IsFreeBefore(L, c, e)
    requires IsFreeAfter(L, c, m0[c].next)
    requires m1 == m0[e := m0[e].(next := c)]
                     [c := m0[c].(status := CHUNK_FREE)]
                     [Footer(L, c) := m0[Footer(L, c)].(next := e)]
    ensures Holds(m1, SetFree(L, c, true), start, end)
    ensures DataKept(InUse(SetFree(L, c, true)), m0, m1)
  {
    var K := SetFree(L, c, true);
    var m := m0[e := m0[e].(next := c)][c := m0[c].(status := CHUNK_FREE)];
    assert Tagged(m0, c, L[c]) && Tagged(m0, e, L[e]);
    SetFreeHolds(m0, m, L, start, end, e, c);
    assert Tagged(m, c, K[c]);
    BackLinkHolds(m, m1, K, start, end, c);
    DataKeptTrans(InUse(K), InUse(K), m0, m, m1);
  }

  lemma SetUsedHolds(m0: seq<Cell>, m1: seq<Cell>, L: Layout, start: int, end: int, e: int, c: int)
    requires Holds(m0, L, start, end)
    requires FreeAt(L, c) && IsFreeBefore(L, c, e)
    requires if e == NULL then Only(c, c, m0, m1)
             else Only(c, e, m0, m1) && m1[e] == m0[e].(next := m0[c].next)
    requires m1[c] == Cell(NULL, L[c].units, CHUNK_IN_USE)
    ensures Holds(m1, SetFree(L, c, false), start, end)
    ensures DataKept(InUse(L), m0, m1)
  {
    var K := SetFree(L, c, false);
    SetFreeTiles(L, start, end, c, false);
    HeaderWrites(m0, m1, L, start, end, c, if e == NULL then c else e);
    assert LinkOK(m0, L, c);
    forall h ensures LinkOK(m1, K, h) {
      assert LinkOK(m0, L, h);
      LinkedOut(m0, m1, L, e, c, h);
    }
  }

  /** The cells written when c leaves the free list: its neighbours' links and its own header and footer. */
  ghost function Unlinked(m: seq<Cell>, L: Layout, e: int, c: int): seq<Cell>
    requires c in L && Tags(m, L) && Tagged(m, c, L[c])
    requires e == NULL || FreeAt(L, e)
    requires m[c].next == NULL || FreeAt(L, m[c].next)
  {
    assert m[c].next != NULL ==> Tagged(m, m[c].next, L[m[c].next]);
    BackLinks(HeadersUnlinked(m, L, e, c), L, m[c].next, e, c)
  }

  /** The second half: the back links of the neighbour n above and of c. */
  ghost function BackLinks(m: seq<Cell>, L: Layout, n: int, e: int, c: int): seq<Cell>
    requires c in L && (n == NULL || n in L)
    requires 0 <= Footer(L, c) < |m| && (n != NULL ==> 0 <= Footer(L, n) < |m|)
  {
    var m3 := if n == NULL then m else m[Footer(L, n) := m[Footer(L, n)].(next := e)];
    m3[Footer(L, c) := m3[Footer(L, c)].(next := NULL)]
  }

  lemma LeaveHolds(m0: seq<Cell>, L: Layout, start: int, end: int, e: int, c: int)
    requires Holds(m0, L, start, end)
    requires FreeAt(L, c) && IsFreeBefore(L, c, e) && Tagged(m0, c, L[c]) && IsFreeAfter(L, c, m0[c].next)
    ensures Holds(Unlinked(m0, L, e, c), SetFree(L, c, false), start, end)
    ensures DataKept(InUse(L), m0, Unlinked(m0, L, e, c))
  {
    var K, n := SetFree(L, c, false), m0[c].next;
    var m2 := HeadersUnlinked(m0, L, e, c);
    HeadersUnlinkedHolds(m0, L, start, end, e, c);
    UnlinkedIs(m0, L, e, c);
    TwoBackLinks(m2, K, start, end, n, e, c);
    DataKeptLeaving(L, c, m0, m2, BackLinks(m2, K, n, e, c));
  }

  /** Both halves as seen from the layout in which c is in use. */
  lemma UnlinkedIs(m: seq<Cell>, L: Layout, e: int, c: int)
    requires FreeAt(L, c) && Tags(m, L) && Tagged(m, c, L[c])
    requires (e == NULL || FreeAt(L, e)) && (m[c].next == NULL || FreeAt(L, m[c].next))
    ensures var K, m2, n := SetFree(L, c, false), HeadersUnlinked(m, L, e, c), m[c].next;
            && 0 <= Footer(K, c) < |m2| && (n != NULL ==> 0 <= Footer(K, n) < |m2|)
            && Unlinked(m, L, e, c) == BackLinks(m2, K, n, e, c)
  {
    assert m[c].next != NULL ==> Tagged(m, m[c].next, L[m[c].next]);
  }

  /** The first half: the neighbour below and c's header. */
  ghost function HeadersUnlinked(m: seq<Cell>, L: Layout, e: int, c: int): seq<Cell>
    requires c in L && Tags(m, L) && Tagged(m, c, L[c])
    requires e == NULL || FreeAt(L, e)
  {
    assert e != NULL ==> Tagged(m, e, L[e]);
    var m1 := if e == NULL then m else m[e := m[e].(next := m[c].next)];
    m1[c := Cell(NULL, L[c].units, CHUNK_IN_USE)]
  }

  lemma HeadersUnlinkedHolds(m0: seq<Cell>, L: Layout, start: int, end: int, e: int, c: int)
    requires Holds(m0, L, start, end)
    requires FreeAt(L, c) && IsFreeBefore(L, c, e) && Tagged(m0, c, L[c])
    ensures var m2 := HeadersUnlinked(m0, L, e, c);
            Holds(m2, SetFree(L, c, false), start, end) && DataKept(InUse(L), m0, m2)
  {
    assert e != NULL ==> Tagged(m0, e, L[e]);
    SetUsedHolds(m0, HeadersUnlinked(m0, L, e, c), L, start, end, e, c);
  }

  lemma TwoBackLinks(m: seq<Cell>, K: Layout, start: int, end: int, n: int, e: int, c: int)
    requires Holds(m, K, start, end) && c in K && (n == NULL || n in K)
    requires 0 <= Footer(K, c) < |m| && (n != NULL ==> 0 <= Footer(K, n) < |m|)
    ensures var m4 := BackLinks(m, K, n, e, c); Holds(m4, K, start, end) && DataKept(InUse(K), m, m4)
  {
    var m3 := m;
    if n != NULL {
      assert Tagged(m, n, K[n]);
      m3 := m[Footer(K, n) := m[Footer(K, n)].(next := e)];
      BackLinkHolds(m, m3, K, start, end, n);
    }
    assert Tagged(m3, c, K[c]);
    var m4 := m3[Footer(K, c) := m3[Footer(K, c)].(next := NULL)];
    BackLinkHolds(m3, m4, K, start, end, c);
    DataKeptTrans(InUse(K), InUse(K), m, m3, m4);
  }

  /** The next field of a chunk in use means nothing. */
  lemma UsedNextHolds(m0: seq<Cell>, m1: seq<Cell>, L: Layout, start: int, end: int, c: int, v: int)
    requires Holds(m0, L, start, end) && c in L && !L[c].free
    requires 0 <= c < |m0| && m1 == m0[c := m0[c].(next := v)]
    ensures Holds(m1, L, start, end)
    ensures DataKept(InUse(L), m0, m1)
  {
    HeaderWrites(m0, m1, L, start, end, c, c);
    forall h ensures LinkOK(m1, L, h) { assert LinkOK(m0, L, h); }
  }

  /** What CutTail writes when it splits chunk c of size all: the tags of both parts. */
  ghost predicate Cut(m0: seq<Cell>, m1: seq<Cell>, c: int, all: nat, units: nat)
    requires all > units + 2 && 0 <= c && c + all + 1 < |m0|
  {
    var c2 := c + all - units;
    && |m1| == |m0|
    && (forall i {:trigger m1[i]} | 0 <= i < |m0| && i != c && i != c2 - 1 && i != c2 && i != c2 + units + 1 ::
          m1[i] == m0[i])
    && m1[c] == m0[c].(units := all - units - 2)
    && m1[c2 - 1].units == all - units - 2
    && m1[c2].units == units && m1[c2].status == CHUNK_IN_USE
    && m1[c2 + units + 1].units == units
  }

  lemma SplitTags(m0: seq<Cell>, m1: seq<Cell>, L: Layout, start: int, end: int, c: int, units: nat)
    requires Tiles(L, start, end) && end <= |m0| && Tags(m0, L)
    requires FreeAt(L, c) && L[c].units > units + 2 && 1 <= units
    requires Cut(m0, m1, c, L[c].units, units)
    ensures Tags(m1, Split(L, c, units))
    ensures forall h | h in L && h != c :: Kept(m0, m1, L, h)
  {
    assert Within(c, Next(L, c), m0, m1);
    WriteInside(m0, m1, L, start, end, c);
    var K, c2 := Split(L, c, units), c + L[c].units - units;
    assert Tagged(m0, c, L[c]);
    forall h | h in K ensures Tagged(m1, h, K[h]) {
      if h != c && h != c2 { assert Tagged(m0, h, L[h]); }
    }
  }

  lemma SplitLinks(m0: seq<Cell>, m1: seq<Cell>, L: Layout, c: int, units: nat)
    requires |m0| == |m1| && Links(m0, L)
    requires FreeAt(L, c) && L[c].units > units + 2 && c + L[c].units - units !in L
    requires 0 <= c < |m0| && m1[c].next == m0[c].next
    requires forall h | h in L && h != c :: Kept(m0, m1, L, h)
    ensures Links(m1, Split(L, c, units))
  {
    forall h ensures LinkOK(m1, Split(L, c, units), h) {
      assert LinkOK(m0, L, h);
    }
  }

  lemma SplitHolds(m0: seq<Cell>, m1: seq<Cell>, L: Layout, start: int, end: int, c: int, units: nat)
    requires Holds(m0, L, start, end)
    requires FreeAt(L, c) && L[c].units > units + 2 && 1 <= units
    requires Cut(m0, m1, c, L[c].units, units)
    ensures Holds(m1, Split(L, c, units), start, end)
    ensures DataKept(InUse(L), m0, m1)
  {
    SplitTiles(L, start, end, c, units);
    SplitTags(m0, m1, L, start, end, c, units);
    KeptData(m0, m1, L);
    SplitLinks(m0, m1, L, c, units);
  }

  lemma ExtendHolds(m0: seq<Cell>, m1: seq<Cell>, L: Layout, start: int, end: int, units: nat)
    requires Holds(m0, L, start, end)
    requires 1 <= units && end + units + 2 <= |m0|
    requires Only(end, end + units + 1, m0, m1)
    requires m1[end] == Cell(NULL, units, CHUNK_IN_USE)
    requires m1[end + units + 1].units == units
    ensures Holds(m1, Extend(L, end, units), start, end + units + 2)
    ensures DataKept(InUse(L), m0, m1)
  {
    var K := Extend(L, end, units);
    ExtendTiles(L, start, end, units);
    forall h ensures LinkOK(m1, K, h) { assert LinkOK(m0, L, h); }
  }
}
