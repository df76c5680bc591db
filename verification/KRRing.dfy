/**
  The K&R allocator's arena: blocks with a size, the free ones linked into a
  circular, address-ordered ring that also holds the zero-size sentinel base.
  Addresses count headers; a block of size s at h owns the cells h .. h+s-1, the
  first of which is its header.
  */
module KRRing {
  import opened Regions

  const NULL := 0

  /** The status is not stored in memory: free just means on the ring. */
  datatype Block = Block(size: nat, free: bool)

  type Blocks = map<int, Block>

  /** One header-sized cell of memory. */
  datatype Header = Header(ptr: int, size: int)

  ghost predicate InRing(B: Blocks, h: int) {
    h in B && B[h].free
  }

  function End(B: Blocks, h: int): int
    requires h in B
  {
    h + B[h].size
  }

  ghost predicate Apart(B: Blocks, h: int, k: int) {
    h in B && k in B && h < k ==> End(B, h) <= k
  }

  /** n follows h on the address-ordered ring, going round from the highest block to the lowest. */
  ghost predicate IsSucc(B: Blocks, h: int, n: int) {
    InRing(B, n) &&
    if h < n then forall k | k in B && B[k].free && h < k :: n <= k
    else forall k | k in B && B[k].free :: n <= k <= h
  }

  /** Disjoint non-empty blocks inside memory, and the sentinel, which touches none of them from above. */
  ghost predicate Separate(B: Blocks, base: int, limit: int) {
    && InRing(B, base) && B[base].size == 0
    && (forall h | h in B ::
          NULL < h < limit && End(B, h) <= limit && (h != base ==> B[h].size >= 1 && End(B, h) != base))
    && (forall h, k {:trigger Apart(B, h, k)} :: Apart(B, h, k))
  }

  /** No free block ends where another free block starts. */
  ghost predicate Joined(B: Blocks, base: int) {
    forall h {:trigger InRing(B, h)} | InRing(B, h) && h != base :: !InRing(B, End(B, h))
  }

  ghost predicate LinkOK(m: seq<Header>, B: Blocks, h: int) {
    h in B ==> 0 <= h < |m| && m[h].size == B[h].size && (B[h].free ==> IsSucc(B, h, m[h].ptr))
  }

  /** Memory holds the size of every block and the successor of every free one. */
  ghost predicate Holds(m: seq<Header>, B: Blocks) {
    forall h {:trigger LinkOK(m, B, h)} :: LinkOK(m, B, h)
  }

  ghost predicate Covers(B: Blocks, h: int, a: int) {
    h in B && h <= a < End(B, h)
  }

  /** The blocks cover exactly the cells got from the system. */
  ghost predicate Covered(B: Blocks, got: set<int>) {
    && (forall h, a {:trigger Covers(B, h, a)} | Covers(B, h, a) :: a in got)
    && (forall a | a in got :: exists h :: Covers(B, h, a))
  }

  function Live(B: Blocks): map<int, nat> {
    map h | h in B && !B[h].free :: B[h].size
  }

  /** The cells of blocks in live, headers apart, are the same in both memories. */
  ghost predicate DataKept(live: map<int, nat>, m: seq<Header>, n: seq<Header>) {
    |m| == |n| && forall h | h in live :: SameCells(m, n, h + 1, h + live[h])
  }

  // ---------------------------------------------------------------- updates

  function SetFree(B: Blocks, h: int, free: bool): Blocks
    requires h in B
  {
    B[h := B[h].(free := free)]
  }

  function Join(B: Blocks, x: int, y: int): Blocks
    requires x in B && y in B
  {
    (B - {y})[x := Block(B[x].size + B[y].size, true)]
  }

  /** Cutting n units off the high end of free block b. */
  function Cut(B: Blocks, b: int, n: nat): Blocks
    requires b in B && n < B[b].size
  {
    B[b := Block(B[b].size - n, true)][End(B, b) - n := Block(n, false)]
  }

  /** Freeing live block b, whose ring predecessor is t: t, b and the block above b join where they touch. */
  function Release(B: Blocks, t: int, b: int): Blocks
    requires b in B && !B[b].free && t in B
  {
    var K, u := SetFree(B, b, true), End(B, b);
    var J := if End(B, t) == b then Join(K, t, b) else K;
    if u in B && B[u].free then Join(J, if End(B, t) == b then t else b, u) else J
  }

  /** The two header cells that freeing b after t writes. */
  function FreedMem(m: seq<Header>, t: int, b: int): seq<Header>
    requires 0 <= t < |m| && 0 <= b < |m| && 0 <= m[t].ptr < |m|
  {
    var s := m[t].ptr;
    var h := if b + m[b].size == s then Header(m[s].ptr, m[b].size + m[s].size) else Header(s, m[b].size);
    if t + m[t].size == b then m[b := h][t := Header(h.ptr, m[t].size + h.size)] else m[b := h][t := m[t].(ptr := b)]
  }

  /** k lies strictly between f and p, going round the ring upwards from f. */
  predicate Passed(f: int, k: int, p: int) {
    if f < p then f < k < p else k > f || k < p
  }

  function Remaining(B: Blocks, f: int, p: int): set<int> {
    set k | k in B && B[k].free && !Passed(f, k, p)
  }

  const NALLOC := 1024

  function CoreUnits(n: nat): nat {
    if n < NALLOC then NALLOC else n
  }

  /** Serving n units from free block b: all of it when it fits exactly, else its high end. */
  function Take(B: Blocks, b: int, n: nat): Blocks
    requires b in B && n <= B[b].size
  {
    if B[b].size == n then SetFree(B, b, false) else Cut(B, b, n)
  }

  function TakenAt(B: Blocks, b: int, n: nat): int
    requires b in B
  {
    End(B, b) - n
  }

  ghost predicate NoFit(B: Blocks, n: nat) {
    forall k | k in B && B[k].free :: B[k].size < n
  }

  /** b is the first block of at least n units going round the ring from f, and prev its ring predecessor. */
  ghost predicate NextFit(B: Blocks, f: int, n: nat, b: int, prev: int) {
    && InRing(B, b) && InRing(B, prev) && IsSucc(B, prev, b) && n <= B[b].size
    && forall k | k in B && B[k].free && Passed(f, k, b) :: B[k].size < n
  }

  /** Where the system may place n more cells: outside everything got so far, and not just below the sentinel. */
  ghost predicate Grantable(got: set<int>, base: int, limit: int, a: int, n: nat) {
    && NULL < a && a + n <= limit && (base < a || a + n < base)
    && forall i | a <= i < a + n :: i !in got
  }

  ghost function Cells(a: int, n: nat): (c: set<int>)
    ensures forall i :: i in c <==> a <= i < a + n
  {
    if n == 0 then {} else Cells(a, n - 1) + {a + n - 1}
  }

  // -------------------------------------------------------- single-step lemmas

  lemma JoinSeparate(B: Blocks, base: int, limit: int, x: int, y: int)
    requires Separate(B, base, limit) && InRing(B, x) && InRing(B, y)
    requires End(B, x) == y && x != base
    ensures Separate(Join(B, x, y), base, limit)
  {
    var K := Join(B, x, y);
    assert y != base;
    forall h, k ensures Apart(K, h, k) {
      assert Apart(B, h, k) && Apart(B, y, k) && Apart(B, h, x) && Apart(B, x, k);
    }
  }

  lemma JoinHolds(m: seq<Header>, B: Blocks, x: int, y: int)
    requires Holds(m, B) && InRing(B, x) && InRing(B, y) && x < y && x < |m| && y < |m|
    requires 0 <= x && IsSucc(B, x, y)
    ensures Holds(m[x := Header(m[y].ptr, m[x].size + m[y].size)], Join(B, x, y))
  {
    var K, n := Join(B, x, y), m[x := Header(m[y].ptr, m[x].size + m[y].size)];
    assert LinkOK(m, B, x) && LinkOK(m, B, y);
    forall h ensures LinkOK(n, K, h) {
      assert LinkOK(m, B, h);
    }
  }

  lemma EnterHolds(m: seq<Header>, B: Blocks, t: int, b: int)
    requires Holds(m, B) && b in B && !B[b].free && InRing(B, t) && IsSucc(SetFree(B, b, true), t, b)
    requires 0 <= t < |m| && 0 <= b < |m|
    ensures Holds(m[b := m[b].(ptr := m[t].ptr)][t := m[t].(ptr := b)], SetFree(B, b, true))
  {
    var K, n := SetFree(B, b, true), m[b := m[b].(ptr := m[t].ptr)][t := m[t].(ptr := b)];
    assert LinkOK(m, B, t) && LinkOK(m, B, b);
    forall h ensures LinkOK(n, K, h) {
      assert LinkOK(m, B, h);
    }
  }

  /** What the ring predecessor t of b knows about the block right above b. */
  lemma UpperNeighbour(B: Blocks, base: int, limit: int, t: int, b: int, s: int)
    requires Separate(B, base, limit) && b in B && !B[b].free
    requires InRing(B, t) && IsSucc(SetFree(B, b, true), t, b) && IsSucc(B, t, s)
    ensures InRing(B, End(B, b)) <==> End(B, b) == s
    ensures InRing(B, End(B, b)) ==> s != base && s != t && t != b
    ensures End(B, t) == b ==> t != base
  {
    var u := End(B, b);
    var K := SetFree(B, b, true);
    if InRing(B, u) {
      assert u in K && s in K && K[u].free && K[s].free;
      assert Apart(B, b, s);
    }
  }

  lemma ReleaseHolds(m: seq<Header>, B: Blocks, base: int, limit: int, t: int, b: int)
    requires Separate(B, base, limit) && Holds(m, B)
    requires b in B && !B[b].free && InRing(B, t) && IsSucc(SetFree(B, b, true), t, b)
    ensures 0 <= t < |m| && 0 <= b < |m| && 0 <= m[t].ptr < |m|
    ensures Holds(FreedMem(m, t, b), Release(B, t, b))
  {
    assert LinkOK(m, B, t) && LinkOK(m, B, b) && LinkOK(m, B, m[t].ptr);
    var K, s := SetFree(B, b, true), m[t].ptr;
    var m1 := m[b := m[b].(ptr := s)][t := m[t].(ptr := b)];
    EnterHolds(m, B, t, b);
    UpperNeighbour(B, base, limit, t, b, s);
    if End(B, b) == s {
      assert LinkOK(m1, K, b) && LinkOK(m1, K, s);
      var U, m2 := Join(K, b, s), m1[b := Header(m1[s].ptr, m1[b].size + m1[s].size)];
      JoinHolds(m1, K, b, s);
      if End(B, t) == b {
        assert LinkOK(m2, U, t) && LinkOK(m2, U, b);
        JoinHolds(m2, U, t, b);
        assert Join(U, t, b) == Release(B, t, b);
        assert m2[t := Header(m2[b].ptr, m2[t].size + m2[b].size)] == FreedMem(m, t, b);
      } else {
        assert m2 == FreedMem(m, t, b);
      }
    } else if End(B, t) == b {
      assert LinkOK(m1, K, t) && LinkOK(m1, K, b);
      JoinHolds(m1, K, t, b);
      assert m1[t := Header(m1[b].ptr, m1[t].size + m1[b].size)] == FreedMem(m, t, b);
    } else {
      assert m1 == FreedMem(m, t, b);
    }
  }

  lemma ReleaseBlocks(B: Blocks, base: int, limit: int, t: int, b: int)
    requires Separate(B, base, limit) && Joined(B, base)
    requires b in B && !B[b].free && InRing(B, t) && IsSucc(SetFree(B, b, true), t, b)
    ensures Separate(Release(B, t, b), base, limit) && Joined(Release(B, t, b), base)
    ensures InRing(Release(B, t, b), t) && (InRing(B, End(B, b)) ==> End(B, b) != t)
    ensures var c := if End(B, t) == b then t else b;
            InRing(Release(B, t, b), c) && B[b].size <= Release(B, t, b)[c].size
    ensures Live(Release(B, t, b)) == Live(B) - {b}
  {
    var K, u := SetFree(B, b, true), End(B, b);
    assert Separate(K, base, limit) by {
      forall h, k ensures Apart(K, h, k) { assert Apart(B, h, k); }
    }
    var J, c := K, b;
    if End(B, t) == b {
      J, c := Join(K, t, b), t;
      JoinSeparate(K, base, limit, t, b);
    }
    if InRing(B, u) {
      JoinSeparate(J, base, limit, c, u);
    }
    assert InRing(B, u) ==> u != t by {
      assert base in K && K[base].free;
      assert Apart(B, b, base);
    }
    ReleaseJoined(B, base, limit, t, b);
  }

  lemma ReleaseJoined(B: Blocks, base: int, limit: int, t: int, b: int)
    requires Separate(B, base, limit) && Joined(B, base)
    requires b in B && !B[b].free && InRing(B, t) && IsSucc(SetFree(B, b, true), t, b)
    requires InRing(B, End(B, b)) ==> End(B, b) != t
    ensures Joined(Release(B, t, b), base)
  {
    var K, R, u := SetFree(B, b, true), Release(B, t, b), End(B, b);
    forall h | InRing(R, h) && h != base ensures !InRing(R, End(R, h)) {
      assert h in K && K[h].free && (h == b || InRing(B, h));
      assert InRing(B, u) ==> !InRing(B, End(B, u));
      assert Apart(B, h, t) && Apart(B, h, b);
    }
  }

  /** Setting out from f nothing has been passed; back at f everything else has. */
  lemma RoundTrip(B: Blocks, f: int, n: int)
    requires InRing(B, f) && IsSucc(B, f, n)
    ensures forall k | k in B && B[k].free :: !Passed(f, k, n)
    ensures forall k :: k != f ==> Passed(f, k, f)
  {
  }

  lemma Advance(B: Blocks, f: int, p: int, n: int)
    requires InRing(B, f) && InRing(B, p) && p != f && IsSucc(B, p, n)
    ensures forall k | k in B && B[k].free :: Passed(f, k, n) <==> Passed(f, k, p) || k == p
    ensures Remaining(B, f, n) < Remaining(B, f, p)
  {
    assert p in Remaining(B, f, p) && p !in Remaining(B, f, n);
  }

  /** The highest free block below limit, at or above the free block x. */
  lemma {:induction false} HighestBelow(B: Blocks, x: int, limit: int) returns (t: int)
    requires InRing(B, x) && x < limit
    ensures InRing(B, t) && t < limit && forall k | k in B && B[k].free && k < limit :: k <= t
    decreases limit - x
  {
    if y :| y in B && B[y].free && x < y < limit {
      t := HighestBelow(B, y, limit);
    } else {
      t := x;
    }
  }

  /** Every block has a predecessor on the ring. */
  lemma RingPredecessor(B: Blocks, base: int, limit: int, b: int) returns (t: int)
    requires Separate(B, base, limit) && b in B && !B[b].free
    ensures InRing(B, t) && IsSucc(SetFree(B, b, true), t, b)
  {
    var K := SetFree(B, b, true);
    if x :| x in B && B[x].free && x < b {
      t := HighestBelow(B, x, b);
    } else {
      t := HighestBelow(B, base, limit);
    }
    forall k | k in K && K[k].free ensures k == b || (k in B && B[k].free) {}
  }

  // ------------------------------------------------- taking and adding blocks

  lemma TakeBlocks(B: Blocks, base: int, limit: int, b: int, n: nat)
    requires Separate(B, base, limit) && Joined(B, base) && InRing(B, b) && 1 <= n <= B[b].size
    ensures Separate(Take(B, b, n), base, limit) && Joined(Take(B, b, n), base)
    ensures TakenAt(B, b, n) !in Live(B) && (n < B[b].size ==> TakenAt(B, b, n) !in B)
    ensures Live(Take(B, b, n)) == Live(B)[TakenAt(B, b, n) := n]
  {
    var K, c := Take(B, b, n), TakenAt(B, b, n);
    assert c in B ==> c == b by { assert Apart(B, b, c); }
    forall h, k ensures Apart(K, h, k) {
      assert Apart(B, h, k) && Apart(B, b, k) && Apart(B, h, b) && Apart(B, b, h);
    }
    forall h | InRing(K, h) && h != base ensures !InRing(K, End(K, h)) { assert InRing(B, h); }
    assert base in B && Apart(B, b, base);
  }

  /** The one or two header cells that taking n units of b writes; prev is the ring predecessor of b. */
  function TakenMem(m: seq<Header>, prev: int, b: int, n: nat): seq<Header>
    requires 0 <= prev < |m| && 0 <= b < |m| && n <= m[b].size && b + m[b].size - n < |m|
  {
    if m[b].size == n then m[prev := m[prev].(ptr := m[b].ptr)]
    else
      var c := b + m[b].size - n;
      var m1 := m[b := m[b].(size := m[b].size - n)];
      m1[c := m1[c].(size := n)]
  }

  lemma TakeHolds(m: seq<Header>, B: Blocks, base: int, limit: int, prev: int, b: int, n: nat)
    requires Separate(B, base, limit) && limit <= |m| && Holds(m, B)
    requires InRing(B, b) && InRing(B, prev) && IsSucc(B, prev, b) && 1 <= n <= B[b].size
    ensures 0 <= prev < |m| && 0 <= b < |m| && m[b].size == B[b].size && b + m[b].size - n < |m|
    ensures Holds(TakenMem(m, prev, b, n), Take(B, b, n))
  {
    var K, c := Take(B, b, n), TakenAt(B, b, n);
    assert LinkOK(m, B, b) && LinkOK(m, B, prev);
    assert prev != b by { assert base in B && B[base].free; }
    assert c in B ==> c == b by { assert Apart(B, b, c); }
    forall h ensures LinkOK(TakenMem(m, prev, b, n), K, h) { TakenLink(m, B, base, limit, prev, b, n, h); }
  }

  lemma TakenLink(m: seq<Header>, B: Blocks, base: int, limit: int, prev: int, b: int, n: nat, h: int)
    requires Separate(B, base, limit) && limit <= |m| && LinkOK(m, B, h) && LinkOK(m, B, b) && LinkOK(m, B, prev)
    requires InRing(B, b) && InRing(B, prev) && IsSucc(B, prev, b) && 1 <= n <= B[b].size && prev != b
    requires TakenAt(B, b, n) in B ==> TakenAt(B, b, n) == b
    ensures LinkOK(TakenMem(m, prev, b, n), Take(B, b, n), h)
  {
    if B[b].size == n { TakenAllLink(m, B, prev, b, h); } else { TakenTailLink(m, B, b, n, h); }
  }

  lemma TakenAllLink(m: seq<Header>, B: Blocks, prev: int, b: int, h: int)
    requires LinkOK(m, B, h) && LinkOK(m, B, b) && LinkOK(m, B, prev) && InRing(B, b) && InRing(B, prev)
    requires IsSucc(B, prev, b) && prev != b
    ensures LinkOK(m[prev := m[prev].(ptr := m[b].ptr)], SetFree(B, b, false), h)
  {
  }

  lemma TakenTailLink(m: seq<Header>, B: Blocks, b: int, n: nat, h: int)
    requires LinkOK(m, B, h) && LinkOK(m, B, b) && InRing(B, b) && 1 <= n < B[b].size && End(B, b) <= |m|
    requires TakenAt(B, b, n) !in B
    ensures LinkOK(TakenMem(m, b, b, n), Cut(B, b, n), h)
  {
  }

  lemma AddLive(m: seq<Header>, B: Blocks, got: set<int>, base: int, a: int, n: nat)
    requires Separate(B, base, |m|) && Joined(B, base) && Holds(m, B) && Covered(B, got)
    requires Grantable(got, base, |m|, a, n) && 1 <= n
    ensures a !in B
    ensures var K := B[a := Block(n, false)];
            && Separate(K, base, |m|) && Joined(K, base)
            && Holds(m[a := m[a].(size := n)], K) && Covered(K, got + Cells(a, n))
    ensures DataKept(Live(B), m, m[a := m[a].(size := n)])
  {
    var K, m1 := B[a := Block(n, false)], m[a := m[a].(size := n)];
    AddLiveSeparate(B, got, base, |m|, a, n);
    forall h | InRing(K, h) && h != base ensures !InRing(K, End(K, h)) { assert InRing(B, h); }
    forall h ensures LinkOK(m1, K, h) { assert LinkOK(m, B, h); }
    AddLiveCovered(B, got, a, n);
    forall h | h in Live(B) ensures SameCells(m, m1, h + 1, End(B, h)) { assert Covers(B, h, a) ==> a in got; }
  }

  lemma DataKeptTrans(l: map<int, nat>, k: map<int, nat>, m0: seq<Header>, m1: seq<Header>, m2: seq<Header>)
    requires DataKept(l, m0, m1) && DataKept(k, m1, m2)
    requires forall h | h in l :: h in k && k[h] == l[h]
    ensures DataKept(l, m0, m2)
  {
  }

  lemma AddLiveSeparate(B: Blocks, got: set<int>, base: int, limit: int, a: int, n: nat)
    requires Separate(B, base, limit) && Covered(B, got) && Grantable(got, base, limit, a, n) && 1 <= n
    ensures a !in B && Separate(B[a := Block(n, false)], base, limit)
  {
    var K := B[a := Block(n, false)];
    forall h | h in B && h != base ensures h in got { assert Covers(B, h, h); }
    forall h, k ensures Apart(K, h, k) {
      assert Apart(B, h, k) && (Covers(B, h, a) ==> a in got);
    }
  }

  lemma AddLiveCovered(B: Blocks, got: set<int>, a: int, n: nat)
    requires Covered(B, got) && a !in B
    ensures Covered(B[a := Block(n, false)], got + Cells(a, n))
  {
    var K, got1 := B[a := Block(n, false)], got + Cells(a, n);
    forall h, i | Covers(K, h, i) ensures i in got1 { assert h != a ==> Covers(B, h, i); }
    forall i | i in got1 ensures exists h :: Covers(K, h, i) {
      if i in got {
        var h :| Covers(B, h, i);
        assert Covers(K, h, i);
      } else {
        assert Covers(K, a, i);
      }
    }
  }

  /** Joining two touching blocks, or changing what is free, covers the same cells. */
  lemma JoinCovered(B: Blocks, got: set<int>, x: int, y: int)
    requires Covered(B, got) && x in B && y in B && x != y && End(B, x) == y
    ensures Covered(Join(B, x, y), got)
  {
    var K := Join(B, x, y);
    forall h, i | Covers(K, h, i) ensures i in got {
      assert Covers(B, h, i) || Covers(B, y, i);
    }
    forall i | i in got ensures exists h :: Covers(K, h, i) {
      var h :| Covers(B, h, i);
      assert Covers(K, if h == y then x else h, i);
    }
  }

  lemma SetFreeCovered(B: Blocks, got: set<int>, b: int, free: bool)
    requires Covered(B, got) && b in B
    ensures Covered(SetFree(B, b, free), got)
  {
    var K := SetFree(B, b, free);
    forall h, i | Covers(K, h, i) ensures i in got { assert Covers(B, h, i); }
    forall i | i in got ensures exists h :: Covers(K, h, i) {
      var h :| Covers(B, h, i);
      assert Covers(K, h, i);
    }
  }

  lemma ReleaseCovered(B: Blocks, got: set<int>, t: int, b: int)
    requires Covered(B, got) && b in B && !B[b].free && InRing(B, t)
    requires InRing(B, End(B, b)) ==> End(B, b) != t
    ensures Covered(Release(B, t, b), got)
  {
    var K, u := SetFree(B, b, true), End(B, b);
    SetFreeCovered(B, got, b, true);
    var J, c := K, b;
    if End(B, t) == b {
      J, c := Join(K, t, b), t;
      JoinCovered(K, got, t, b);
    }
    if InRing(B, u) { JoinCovered(J, got, c, u); }
  }

  lemma TakeCovered(B: Blocks, got: set<int>, b: int, n: nat)
    requires Covered(B, got) && b in B && 1 <= n <= B[b].size
    requires n < B[b].size ==> TakenAt(B, b, n) !in B
    ensures Covered(Take(B, b, n), got)
  {
    if B[b].size == n {
      SetFreeCovered(B, got, b, false);
    } else {
      var K, c := Take(B, b, n), TakenAt(B, b, n);
      forall h, i | Covers(K, h, i) ensures i in got {
        assert Covers(B, if h == c then b else h, i);
      }
      forall i | i in got ensures exists h :: Covers(K, h, i) {
        var h :| Covers(B, h, i);
        assert Covers(K, if h == b && c <= i then c else h, i);
      }
    }
  }

  // ------------------------------------------------------- whole-arena states

  /** The allocator's state; B is the blocks held in mem, got the cells obtained so far. */
  datatype Arena = Arena(mem: seq<Header>, freep: int, B: Blocks, got: set<int>)

  ghost predicate WellFormed(s: Arena, base: int) {
    && NULL < base < |s.mem|
    && (s.freep == NULL ==> s.B == map[] && s.got == {})
    && (s.freep != NULL ==>
          && Separate(s.B, base, |s.mem|) && Joined(s.B, base) && Holds(s.mem, s.B)
          && Covered(s.B, s.got) && InRing(s.B, s.freep))
  }

  ghost predicate FreeStep(s: Arena, c: int, t: Arena) {
    && t.got == s.got && |t.mem| == |s.mem| && InRing(s.B, t.freep)
    && c in s.B && !s.B[c].free && IsSucc(SetFree(s.B, c, true), t.freep, c)
    && t.B == Release(s.B, t.freep, c)
    && DataKept(Live(t.B), s.mem, t.mem)
  }

  /** Taking n units by next fit from blocks B with the rover at f. */
  ghost predicate TookFrom(B: Blocks, f: int, n: nat, b: int, t: Arena, p: int) {
    NextFit(B, f, n, b, t.freep) && t.B == Take(B, b, n) && p == TakenAt(B, b, n) + 1
  }

  /** The blocks after a fresh region of n cells at a has been freed with ring predecessor q. */
  function WithCore(B: Blocks, a: int, n: nat, q: int): Blocks
    requires q in B && q != a
  {
    Release(B[a := Block(n, false)], q, a)
  }

  /** t is s with n units taken by next fit; when nothing fits, from blocks extended by what the system grants. */
  ghost predicate Served(s: Arena, n: nat, grant: int, t: Arena, p: int) {
    || (t.got == s.got && exists b :: TookFrom(s.B, s.freep, n, b, t, p))
    || (exists u :: GotCore(s, n, grant, u) && t.got == u.got && exists b :: TookFrom(u.B, u.freep, n, b, t, p))
    || (NoFit(s.B, n) && grant == NULL && p == NULL && t == s)
  }

  /** u is s after the one call to the system that a malloc of n units may make. */
  ghost predicate GotCore(s: Arena, n: nat, grant: int, u: Arena) {
    && NoFit(s.B, n) && grant != NULL && u.got == s.got + Cells(grant, CoreUnits(n))
    && InRing(s.B, u.freep) && u.freep != grant
    && IsSucc(s.B[grant := Block(CoreUnits(n), true)], u.freep, grant)
    && u.B == WithCore(s.B, grant, CoreUnits(n), u.freep)
  }

  /** The state in which malloc scans: the sentinel is put on the ring first if need be. */
  ghost predicate StartStep(s: Arena, base: int, t: Arena) {
    if s.freep == NULL then
      t.freep == base && t.B == map[base := Block(0, true)] && t.got == {} && |t.mem| == |s.mem|
    else
      t == s
  }

  /** Grant is the address the system gives when asked for more, or NULL for a refusal. */
  ghost predicate MallocStep(s: Arena, base: int, n: nat, grant: int, t: Arena, p: int) {
    && |t.mem| == |s.mem| && DataKept(Live(s.B), s.mem, t.mem)
    && exists s1 :: StartStep(s, base, s1) && Served(s1, n, grant, t, p)
  }

  /** Writes to headers of blocks, or inside free blocks, spare the data of live blocks. */
  lemma LiveDataKept(m0: seq<Header>, m1: seq<Header>, B: Blocks, base: int, limit: int, x: int, y: int, z: int)
    requires Separate(B, base, limit) && |m0| == |m1|
    requires x in B && y in B && InRing(B, y) && y <= z < End(B, y) + 1
    requires forall a | 0 <= a < |m0| && a != x && a != y && a != z :: m1[a] == m0[a]
    ensures DataKept(Live(B) - {x}, m0, m1)
  {
    forall h | h in Live(B) - {x} ensures SameCells(m0, m1, h + 1, End(B, h)) {
      assert Apart(B, h, x) && Apart(B, x, h) && Apart(B, h, y) && Apart(B, y, h);
    }
  }
}
