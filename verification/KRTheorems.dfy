/**
  What the K&R allocator guarantees about its ring and over several calls.
  */
module KRTheorems {
  import opened KRRing
  import opened Regions

  // ------------------------------------------------------------ the ring itself

  lemma {:induction false} RingFrom(m: seq<Header>, B: Blocks, x: int, top: int) returns (r: seq<int>)
    requires Holds(m, B) && InRing(B, x) && InRing(B, top) && x <= top
    requires forall k | k in B && B[k].free :: k <= top
    ensures |r| > 0 && r[0] == x && r[|r| - 1] == top
    ensures forall i | 0 <= i < |r| :: InRing(B, r[i]) && 0 <= r[i] < |m|
    ensures forall i, j | 0 <= i < j < |r| :: r[i] < r[j]
    ensures forall k | k in B && B[k].free && x <= k :: k in r
    ensures forall i | 0 <= i < |r| - 1 :: m[r[i]].ptr == r[i + 1]
    decreases top - x
  {
    assert LinkOK(m, B, x);
    if x == top {
      r := [x];
    } else {
      var t := RingFrom(m, B, m[x].ptr, top);
      r := [x] + t;
    }
  }

  /** Following ptr from the lowest block visits every free block upwards, then returns: one descent in the circle. */
  lemma RingIsCircular(s: Arena, base: int) returns (r: seq<int>)
    requires WellFormed(s, base) && s.freep != NULL
    ensures |r| > 0 && s.freep in r && base in r
    ensures forall k :: InRing(s.B, k) <==> k in r
    ensures forall i, j | 0 <= i < j < |r| :: r[i] < r[j]
    ensures forall i | 0 <= i < |r| :: 0 <= r[i] < |s.mem| && s.mem[r[i]].ptr == r[if i + 1 < |r| then i + 1 else 0]
  {
    var top := HighestBelow(s.B, base, |s.mem|);
    assert LinkOK(s.mem, s.B, top);
    r := RingFrom(s.mem, s.B, s.mem[top].ptr, top);
    forall k | InRing(s.B, k) ensures k in r {}
  }

  /** Blocks do not overlap, and no free block but the sentinel ends where its ring successor starts. */
  lemma RingIsJoined(s: Arena, base: int, h: int, k: int)
    requires WellFormed(s, base) && s.freep != NULL && h in s.B && k in s.B
    ensures h < k ==> End(s.B, h) <= k
    ensures InRing(s.B, h) && h != base ==> 0 <= h < |s.mem| && End(s.B, h) != s.mem[h].ptr
  {
    assert Apart(s.B, h, k) && LinkOK(s.mem, s.B, h);
  }

  // -------------------------------------------------------------- conservation

  /** The sizes of the blocks below address hi: of the free ones, or of the live ones. */
  function Total(B: Blocks, free: bool, hi: nat): nat {
    if hi == 0 then 0
    else Total(B, free, hi - 1) + if hi - 1 in B && B[hi - 1].free == free then B[hi - 1].size else 0
  }

  lemma {:induction false} CellsCount(a: int, n: nat)
    ensures |Cells(a, n)| == n
  {
    if n > 0 { CellsCount(a, n - 1); }
  }

  /** The cells of the blocks below address hi. */
  ghost function CellsOf(B: Blocks, hi: nat): set<int> {
    if hi == 0 then {}
    else CellsOf(B, hi - 1) + if hi - 1 in B then Cells(hi - 1, B[hi - 1].size) else {}
  }

  lemma {:induction false} InCellsOf(B: Blocks, hi: nat, a: int)
    ensures a in CellsOf(B, hi) <==> exists h :: Covers(B, h, a) && 0 <= h < hi
  {
    if hi > 0 {
      InCellsOf(B, hi - 1, a);
      assert hi - 1 in B ==> (a in Cells(hi - 1, B[hi - 1].size) <==> Covers(B, hi - 1, a));
    }
  }

  lemma TopIsNew(B: Blocks, base: int, limit: int, h: nat)
    requires Separate(B, base, limit) && h in B
    ensures CellsOf(B, h) !! Cells(h, B[h].size)
  {
    var C, D := CellsOf(B, h), Cells(h, B[h].size);
    forall a | a in C ensures a !in D {
      InCellsOf(B, h, a);
      var k :| Covers(B, k, a) && 0 <= k < h;
      assert Apart(B, k, h);
    }
  }

  lemma DisjointCount(C: set<int>, D: set<int>)
    requires C !! D
    ensures |C + D| == |C| + |D|
  {
  }

  lemma OneBlockMore(B: Blocks, base: int, limit: int, h: nat)
    requires Separate(B, base, limit)
    ensures |CellsOf(B, h + 1)| == |CellsOf(B, h)| + if h in B then B[h].size else 0
  {
    if h in B {
      TopIsNew(B, base, limit, h);
      CellsCount(h, B[h].size);
      DisjointCount(CellsOf(B, h), Cells(h, B[h].size));
    }
  }

  lemma {:induction false} TotalCount(B: Blocks, base: int, limit: int, hi: nat)
    requires Separate(B, base, limit)
    ensures |CellsOf(B, hi)| == Total(B, true, hi) + Total(B, false, hi)
  {
    if hi > 0 {
      TotalCount(B, base, limit, hi - 1);
      OneBlockMore(B, base, limit, hi - 1);
    }
  }

  /** Ring sizes plus live sizes are everything ever obtained from the system. */
  lemma Conservation(s: Arena, base: int)
    requires WellFormed(s, base) && s.freep != NULL
    ensures Total(s.B, true, |s.mem|) + Total(s.B, false, |s.mem|) == |s.got|
  {
    TotalCount(s.B, base, |s.mem|, |s.mem|);
    forall a ensures a in s.got <==> a in CellsOf(s.B, |s.mem|) {
      InCellsOf(s.B, |s.mem|, a);
      if a in s.got {
        var h :| Covers(s.B, h, a);
      }
    }
    assert s.got == CellsOf(s.B, |s.mem|);
  }

  // ----------------------------------------------------------------- canonicity

  lemma OneCover(B: Blocks, base: int, limit: int, h: int, k: int, a: int)
    requires Separate(B, base, limit) && Covers(B, h, a) && Covers(B, k, a)
    ensures h == k
  {
    assert Apart(B, h, k) && Apart(B, k, h);
  }

  lemma Order(B: Blocks, base: int, limit: int, h: int, k: int)
    requires Separate(B, base, limit) && h in B && k in B
    ensures h < k ==> End(B, h) <= k
    ensures k < h ==> End(B, k) <= h
  {
    assert Apart(B, h, k) && Apart(B, k, h);
  }

  /** Two joined arenas over the same cells with the same live blocks. */
  ghost predicate SameUse(B: Blocks, K: Blocks, base: int, limit: int, got: set<int>) {
    && Separate(B, base, limit) && Joined(B, base) && Covered(B, got)
    && Separate(K, base, limit) && Joined(K, base) && Covered(K, got)
    && Live(B) == Live(K)
  }

  /** A cell of a free block of B lies in a free block of K. */
  lemma FreeCell(B: Blocks, K: Blocks, base: int, limit: int, got: set<int>, h: int, a: int) returns (k: int)
    requires SameUse(B, K, base, limit, got) && InRing(B, h) && Covers(B, h, a)
    ensures InRing(K, k) && Covers(K, k, a) && k != base
  {
    assert h !in Live(B);
    k :| Covers(K, k, a);
    if k in Live(K) {
      assert k in Live(B);
      OneCover(B, base, limit, h, k, a);
    }
  }

  lemma SameFreeBlock(B: Blocks, K: Blocks, base: int, limit: int, got: set<int>, h: int)
    requires SameUse(B, K, base, limit, got) && InRing(B, h) && h != base
    ensures InRing(K, h) && K[h].size <= B[h].size
  {
    var k := FreeCell(B, K, base, limit, got, h, h);
    if k < h {
      var g := FreeCell(K, B, base, limit, got, k, h - 1);
      Order(B, base, limit, g, h);
    }
    if K[h].size > B[h].size {
      var q := End(B, h);
      var g := FreeCell(K, B, base, limit, got, h, q);
      Order(B, base, limit, g, h);
    }
  }

  /** The cells obtained and the live blocks determine the ring. */
  lemma CanonicalRing(B: Blocks, K: Blocks, base: int, limit: int, got: set<int>)
    requires SameUse(B, K, base, limit, got)
    ensures B == K
  {
    forall h | h in B ensures h in K && K[h] == B[h] {
      if !B[h].free {
        assert h in Live(B) && h in Live(K);
      } else if h != base {
        SameFreeBlock(B, K, base, limit, got, h);
        SameFreeBlock(K, B, base, limit, got, h);
      }
    }
    forall h | h in K ensures h in B {
      if !K[h].free {
        assert h in Live(K) && h in Live(B);
      } else if h != base {
        SameFreeBlock(K, B, base, limit, got, h);
      }
    }
  }

  /** The rover may differ, but blocks and links are a function of what was obtained and what is live. */
  lemma ArenaIsCanonical(s: Arena, t: Arena, base: int)
    requires WellFormed(s, base) && WellFormed(t, base) && s.freep != NULL && t.freep != NULL
    requires |s.mem| == |t.mem| && s.got == t.got && Live(s.B) == Live(t.B)
    ensures s.B == t.B
    ensures forall h | InRing(s.B, h) :: 0 <= h < |s.mem| && s.mem[h].ptr == t.mem[h].ptr
  {
    CanonicalRing(s.B, t.B, base, |s.mem|, s.got);
    forall h | InRing(s.B, h) ensures 0 <= h < |s.mem| && s.mem[h].ptr == t.mem[h].ptr {
      assert LinkOK(s.mem, s.B, h) && LinkOK(t.mem, t.B, h);
    }
  }

  // --------------------------------------------------------------- several calls

  lemma FreeRemovesLive(s: Arena, c: int, t: Arena, base: int)
    requires WellFormed(s, base) && s.freep != NULL && FreeStep(s, c, t)
    ensures c in Live(s.B) && Live(t.B) == Live(s.B) - {c} && t.got == s.got && t.freep != NULL
  {
    ReleaseBlocks(s.B, base, |s.mem|, t.freep, c);
  }

  lemma TookAddsLive(B: Blocks, base: int, limit: int, f: int, n: nat, b: int, t: Arena, p: int)
    requires Separate(B, base, limit) && Joined(B, base) && 1 <= n && TookFrom(B, f, n, b, t, p)
    ensures p - 1 !in Live(B) && Live(t.B) == Live(B)[p - 1 := n] && t.freep != NULL
  {
    TakeBlocks(B, base, limit, b, n);
  }

  /** Malloc makes exactly one block of exactly n units live, at an address no live block has. */
  lemma MallocAddsLive(s: Arena, base: int, n: nat, grant: int, t: Arena, p: int)
    requires WellFormed(s, base) && 1 <= n && MallocStep(s, base, n, grant, t, p)
    requires grant != NULL ==> Grantable(s.got, base, |s.mem|, grant, CoreUnits(n))
    ensures p == NULL ==> Live(t.B) == Live(s.B)
    ensures p != NULL ==> p - 1 !in Live(s.B) && Live(t.B) == Live(s.B)[p - 1 := n]
    ensures t.freep != NULL
  {
    var s1 :| StartStep(s, base, s1) && Served(s1, n, grant, t, p);
    Started(s, base, s1);
    ServedAddsLive(s1, base, |s.mem|, n, grant, t, p);
  }

  /** What the system grants is all that malloc may add to the memory obtained. */
  lemma MallocObtains(s: Arena, base: int, n: nat, grant: int, t: Arena, p: int)
    requires WellFormed(s, base) && MallocStep(s, base, n, grant, t, p)
    ensures t.got == s.got || (grant != NULL && t.got == s.got + Cells(grant, CoreUnits(n)))
  {
    var s1 :| StartStep(s, base, s1) && Served(s1, n, grant, t, p);
    Started(s, base, s1);
  }

  /** No block on the ring holds n units. */
  ghost predicate NoneHolds(B: Blocks, n: nat) {
    forall k | InRing(B, k) :: B[k].size < n
  }

  /** Malloc fails exactly when no block is large enough and the system grants nothing. */
  lemma MallocFailsIff(s: Arena, base: int, n: nat, grant: int, t: Arena, p: int)
    requires WellFormed(s, base) && 1 <= n && MallocStep(s, base, n, grant, t, p)
    requires grant != NULL ==> Grantable(s.got, base, |s.mem|, grant, CoreUnits(n))
    ensures p == NULL <==> NoneHolds(s.B, n) && grant == NULL
  {
    var s1 :| StartStep(s, base, s1) && Served(s1, n, grant, t, p);
    Started(s, base, s1);
    assert NoFit(s1.B, n) <==> NoneHolds(s.B, n) by {
      assert forall k | InRing(s.B, k) :: k in s1.B && s1.B[k].free;
      assert forall k | k in s1.B && s1.B[k].free :: InRing(s.B, k) || s1.B[k].size == 0;
    }
    ServedIff(s1, base, |s.mem|, n, grant, t, p);
  }

  lemma ServedIff(s: Arena, base: int, limit: int, n: nat, grant: int, t: Arena, p: int)
    requires Separate(s.B, base, limit) && Joined(s.B, base) && Covered(s.B, s.got) && 1 <= n
    requires Served(s, n, grant, t, p)
    requires grant != NULL ==> Grantable(s.got, base, limit, grant, CoreUnits(n))
    ensures p == NULL <==> NoFit(s.B, n) && grant == NULL
  {
    if b :| TookFrom(s.B, s.freep, n, b, t, p) {
      TakenIsData(s.B, base, limit, b, n);
    } else if u :| GotCore(s, n, grant, u) && exists b :: TookFrom(u.B, u.freep, n, b, t, p) {
      var b :| TookFrom(u.B, u.freep, n, b, t, p);
      CoreAddsNothing(s, base, limit, n, grant, u);
      TakenIsData(u.B, base, limit, b, n);
    }
  }

  lemma TakenIsData(B: Blocks, base: int, limit: int, b: int, n: nat)
    requires Separate(B, base, limit) && InRing(B, b) && n <= B[b].size
    ensures TakenAt(B, b, n) + 1 > NULL
  {
  }

  /** What the system is asked for is 1024 units at least, and only when no block is large enough. */
  lemma MallocGrowsBy(s: Arena, base: int, n: nat, grant: int, t: Arena, p: int)
    requires WellFormed(s, base) && 1 <= n && MallocStep(s, base, n, grant, t, p) && t.got != s.got
    requires grant != NULL ==> Grantable(s.got, base, |s.mem|, grant, CoreUnits(n))
    ensures NoneHolds(s.B, n) && s.got !! t.got - s.got
    ensures |t.got - s.got| == if n < 1024 then 1024 else n
    ensures forall a :: a in t.got - s.got <==> grant <= a < grant + if n < 1024 then 1024 else n
  {
    MallocObtains(s, base, n, grant, t, p);
    MallocAsksOnlyThen(s, base, n, grant, t, p);
    var u := CoreUnits(n);
    CellsCount(grant, u);
    assert t.got - s.got == Cells(grant, u);
  }

  lemma MallocAsksOnlyThen(s: Arena, base: int, n: nat, grant: int, t: Arena, p: int)
    requires WellFormed(s, base) && 1 <= n && MallocStep(s, base, n, grant, t, p) && t.got != s.got
    ensures NoneHolds(s.B, n)
  {
    var s1 :| StartStep(s, base, s1) && Served(s1, n, grant, t, p);
    Started(s, base, s1);
    assert NoFit(s1.B, n);
    assert forall k | InRing(s.B, k) :: k in s1.B && s1.B[k].free;
  }

  /** A block larger than needed stays where it is, shorter, and its upper end is what malloc returns. */
  lemma UpperEndIsTaken(B: Blocks, f: int, n: nat, b: int, t: Arena, p: int)
    requires TookFrom(B, f, n, b, t, p) && 1 <= n
    ensures p - 1 + n == End(B, b) && p - 1 in t.B && t.B[p - 1] == Block(n, false)
    ensures n < B[b].size ==> InRing(t.B, b) && End(t.B, b) == p - 1
  {
  }

  /** k comes after f and before b on the way up from f, and round from the highest block to the lowest. */
  predicate OnTheWay(f: int, k: int, b: int) {
    if f < b then f < k < b else k > f || k < b
  }

  /** The block taken is the first that is large enough on the way up from the rover, which itself comes last. */
  lemma FirstOnTheWay(B: Blocks, f: int, n: nat, b: int, t: Arena, p: int, k: int)
    requires InRing(B, f) && TookFrom(B, f, n, b, t, p) && InRing(B, k) && OnTheWay(f, k, b)
    ensures InRing(B, b) && n <= B[b].size && B[k].size < n
  {
  }

  lemma OneSuccessor(B: Blocks, h: int, m: int, n: int)
    requires InRing(B, h) && IsSucc(B, h, m) && IsSucc(B, h, n)
    ensures m == n
  {
  }

  /** After malloc the rover points at what is left of the block taken, or else at what came after it. */
  lemma ScanGoesOnThere(s: Arena, base: int, n: nat, b: int, t: Arena, p: int)
    requires WellFormed(s, base) && WellFormed(t, base) && s.freep != NULL && t.freep != NULL && 1 <= n
    requires TookFrom(s.B, s.freep, n, b, t, p) && |t.mem| == |s.mem|
    ensures 0 <= b < |s.mem| && 0 <= t.freep < |t.mem|
    ensures t.mem[t.freep].ptr == if n < s.B[b].size then b else s.mem[b].ptr
  {
    var q := t.freep;
    assert LinkOK(s.mem, s.B, b) && LinkOK(s.mem, s.B, q) && LinkOK(t.mem, t.B, q);
    assert q != b by { assert base in s.B && s.B[base].free; }
    if n < s.B[b].size {
      assert IsSucc(t.B, q, b);
      OneSuccessor(t.B, q, b, t.mem[q].ptr);
    } else {
      assert IsSucc(t.B, q, s.mem[b].ptr);
      OneSuccessor(t.B, q, s.mem[b].ptr, t.mem[q].ptr);
    }
  }

  /** After free the rover is the block in front of the one freed, or holds it. */
  lemma RoverIsBeforeFreed(s: Arena, base: int, c: int, t: Arena)
    requires WellFormed(s, base) && WellFormed(t, base) && s.freep != NULL && t.freep != NULL && FreeStep(s, c, t)
    ensures 0 <= t.freep < |t.mem| && t.freep in s.B
    ensures if End(s.B, t.freep) == c then End(s.B, c) <= End(t.B, t.freep) else t.mem[t.freep].ptr == c
  {
    var q := t.freep;
    assert LinkOK(t.mem, t.B, q);
    ReleaseBlocks(s.B, base, |s.mem|, q, c);
    if End(s.B, q) != c {
      assert IsSucc(t.B, q, c);
      OneSuccessor(t.B, q, c, t.mem[q].ptr);
    }
  }

  lemma ServedAddsLive(s: Arena, base: int, limit: int, n: nat, grant: int, t: Arena, p: int)
    requires Separate(s.B, base, limit) && Joined(s.B, base) && Covered(s.B, s.got) && 1 <= n && s.freep != NULL
    requires Served(s, n, grant, t, p)
    requires grant != NULL ==> Grantable(s.got, base, limit, grant, CoreUnits(n))
    ensures p == NULL ==> Live(t.B) == Live(s.B)
    ensures p != NULL ==> p - 1 !in Live(s.B) && Live(t.B) == Live(s.B)[p - 1 := n]
    ensures t.freep != NULL
  {
    if b :| TookFrom(s.B, s.freep, n, b, t, p) {
      TookAddsLive(s.B, base, limit, s.freep, n, b, t, p);
    } else if u :| GotCore(s, n, grant, u) && exists b :: TookFrom(u.B, u.freep, n, b, t, p) {
      var b :| TookFrom(u.B, u.freep, n, b, t, p);
      CoreAddsNothing(s, base, limit, n, grant, u);
      TookAddsLive(u.B, base, limit, u.freep, n, b, t, p);
    }
  }

  lemma CoreAddsNothing(s: Arena, base: int, limit: int, n: nat, grant: int, u: Arena)
    requires Separate(s.B, base, limit) && Joined(s.B, base) && GotCore(s, n, grant, u) && 1 <= n
    requires Covered(s.B, s.got) && Grantable(s.got, base, limit, grant, CoreUnits(n))
    ensures Separate(u.B, base, limit) && Joined(u.B, base) && Live(u.B) == Live(s.B)
  {
    var K := s.B[grant := Block(CoreUnits(n), false)];
    AddLiveSeparate(s.B, s.got, base, limit, grant, CoreUnits(n));
    forall h | InRing(K, h) && h != base ensures !InRing(K, End(K, h)) { assert InRing(s.B, h); }
    assert SetFree(K, grant, true) == s.B[grant := Block(CoreUnits(n), true)];
    ReleaseBlocks(K, base, limit, u.freep, grant);
    assert Live(K) - {grant} == Live(s.B);
  }

  /** The arenas met while freeing the blocks cs one after the other. */
  ghost predicate FreeRun(ss: seq<Arena>, cs: seq<int>, base: int) {
    && |ss| == |cs| + 1 && (forall i | 0 <= i < |ss| :: WellFormed(ss[i], base))
    && ss[0].freep != NULL && forall i | 0 <= i < |cs| :: FreeStep(ss[i], cs[i], ss[i + 1])
  }

  lemma {:induction false} FreeRunRemoves(ss: seq<Arena>, cs: seq<int>, base: int)
    requires FreeRun(ss, cs, base)
    ensures var t := ss[|cs|];
            && Live(t.B) == Live(ss[0].B) - Elems(cs) && t.got == ss[0].got && t.freep != NULL && |t.mem| == |ss[0].mem|
    decreases |cs|
  {
    if cs == [] {
      assert Elems(cs) == {};
    } else {
      var n := |cs| - 1;
      FreeRunRemoves(ss[..|cs|], cs[..n], base);
      FreeRemovesLive(ss[n], cs[n], ss[n + 1], base);
      LastElem(Live(ss[0].B), cs);
    }
  }

  /** Blocks may be freed in any order, from whatever rover: blocks and links come out the same. */
  lemma FreesCommute(ss: seq<Arena>, cs: seq<int>, ts: seq<Arena>, ds: seq<int>, base: int)
    requires FreeRun(ss, cs, base) && FreeRun(ts, ds, base) && Elems(cs) == Elems(ds)
    requires ss[0].B == ts[0].B && ss[0].got == ts[0].got && |ss[0].mem| == |ts[0].mem|
    ensures var s, t := ss[|cs|], ts[|ds|];
            s.B == t.B && forall h | InRing(s.B, h) :: 0 <= h < |s.mem| && h < |t.mem| && s.mem[h].ptr == t.mem[h].ptr
  {
    FreeRunRemoves(ss, cs, base);
    FreeRunRemoves(ts, ds, base);
    ArenaIsCanonical(ss[|cs|], ts[|ds|], base);
  }

  /** The n cells from a on were obtained, and neither the one below nor the one above them. */
  ghost predicate MaximalRun(got: set<int>, a: int, n: nat) {
    1 <= n && (forall i | a <= i < a + n :: i in got) && a - 1 !in got && a + n !in got
  }

  lemma FreeBlockIsMaximal(s: Arena, base: int, h: int)
    requires WellFormed(s, base) && s.freep != NULL && Live(s.B) == map[] && InRing(s.B, h) && h != base
    ensures MaximalRun(s.got, h, s.B[h].size)
  {
    forall i | h <= i < End(s.B, h) ensures i in s.got { assert Covers(s.B, h, i); }
    if h - 1 in s.got {
      var k := Coverer(s, h - 1);
      Order(s.B, base, |s.mem|, k, h);
    }
    if End(s.B, h) in s.got {
      var k := Coverer(s, End(s.B, h));
      Order(s.B, base, |s.mem|, h, k);
    }
  }

  lemma Coverer(s: Arena, a: int) returns (k: int)
    requires Covered(s.B, s.got) && Live(s.B) == map[] && a in s.got
    ensures Covers(s.B, k, a) && InRing(s.B, k)
  {
    k :| Covers(s.B, k, a);
    assert k !in Live(s.B);
  }

  /** With nothing live the free blocks, the sentinel apart, are the maximal runs of the cells obtained. */
  lemma AllFreeAreMaximalRuns(s: Arena, base: int, a: int, n: nat)
    requires WellFormed(s, base) && s.freep != NULL && Live(s.B) == map[]
    ensures InRing(s.B, a) && a != base && s.B[a].size == n <==> MaximalRun(s.got, a, n)
  {
    if InRing(s.B, a) && a != base { FreeBlockIsMaximal(s, base, a); }
    if MaximalRun(s.got, a, n) {
      assert a in s.got;
      var k := Coverer(s, a);
      FreeBlockIsMaximal(s, base, k);
      SameRun(s.got, k, s.B[k].size, a, n);
    }
  }

  /** Maximal runs that meet are the same. */
  lemma SameRun(got: set<int>, a: int, m: nat, b: int, n: nat)
    requires MaximalRun(got, a, m) && MaximalRun(got, b, n) && a <= b < a + m
    ensures a == b && m == n
  {
    assert a <= b - 1 < a + m ==> b - 1 in got;
    assert b <= a + m < b + n ==> a + m in got;
    assert a <= b + n < a + m ==> b + n in got;
  }

  /** Freeing every live block, in any order, leaves one free block for each stretch of memory obtained. */
  lemma FreeingAllLeavesMaximalRuns(ss: seq<Arena>, cs: seq<int>, base: int, a: int, n: nat)
    requires FreeRun(ss, cs, base) && Live(ss[0].B).Keys <= Elems(cs)
    ensures var t := ss[|cs|];
            InRing(t.B, a) && a != base && t.B[a].size == n <==> MaximalRun(ss[0].got, a, n)
  {
    FreeRunRemoves(ss, cs, base);
    assert Live(ss[0].B) - Elems(cs) == map[];
    AllFreeAreMaximalRuns(ss[|cs|], base, a, n);
  }

  /** Malloc then free of its result restores blocks and links, unless the system was asked for more. */
  lemma MallocThenFree(s: Arena, base: int, n: nat, grant: int, t: Arena, p: int, u: Arena)
    requires WellFormed(s, base) && WellFormed(t, base) && WellFormed(u, base) && s.freep != NULL
    requires 1 <= n && MallocStep(s, base, n, grant, t, p) && p != NULL && FreeStep(t, p - 1, u) && t.got == s.got
    requires grant != NULL ==> Grantable(s.got, base, |s.mem|, grant, CoreUnits(n))
    ensures u.B == s.B
    ensures |u.mem| == |s.mem| && forall h | InRing(s.B, h) :: 0 <= h < |s.mem| && u.mem[h].ptr == s.mem[h].ptr
  {
    MallocAddsLive(s, base, n, grant, t, p);
    FreeRemovesLive(t, p - 1, u, base);
    assert Live(u.B) == Live(s.B);
    ArenaIsCanonical(s, u, base);
  }

  /** u is s, after its first call if need be, with a region at grant for n units freed behind q on the ring. */
  ghost predicate OnlyGrown(s: Arena, base: int, n: nat, grant: int, u: Arena, s1: Arena, q: int) {
    && StartStep(s, base, s1) && NoFit(s1.B, n) && InRing(s1.B, q) && q != grant
    && IsSucc(s1.B[grant := Block(CoreUnits(n), true)], q, grant)
    && u.B == WithCore(s1.B, grant, CoreUnits(n), q)
  }

  /** When the system was asked, what is left is the old arena with the region it granted freed onto the ring. */
  lemma MallocThenFreeGrown(s: Arena, base: int, n: nat, grant: int, t: Arena, p: int, u: Arena)
    requires WellFormed(s, base)
    requires 1 <= n && MallocStep(s, base, n, grant, t, p) && p != NULL && FreeStep(t, p - 1, u) && t.got != s.got
    requires grant != NULL ==> Grantable(s.got, base, |s.mem|, grant, CoreUnits(n))
    ensures u.got == s.got + Cells(grant, CoreUnits(n))
    ensures exists s1, q :: OnlyGrown(s, base, n, grant, u, s1, q)
  {
    var s1 :| StartStep(s, base, s1) && Served(s1, n, grant, t, p);
    Started(s, base, s1);
    var q := ServedThenFree(s1, base, |s.mem|, n, grant, t, p, u);
    assert OnlyGrown(s, base, n, grant, u, s1, q);
  }

  lemma Started(s: Arena, base: int, s1: Arena)
    requires WellFormed(s, base) && StartStep(s, base, s1)
    ensures Separate(s1.B, base, |s.mem|) && Joined(s1.B, base) && Covered(s1.B, s1.got)
    ensures s1.freep != NULL && s1.got == s.got && Live(s1.B) == Live(s.B)
  {
  }

  lemma ServedThenFree(s: Arena, base: int, limit: int, n: nat, grant: int, t: Arena, p: int, u: Arena) returns (q: int)
    requires Separate(s.B, base, limit) && Joined(s.B, base) && Covered(s.B, s.got) && s.freep != NULL
    requires 1 <= n && Served(s, n, grant, t, p) && p != NULL && FreeStep(t, p - 1, u) && t.got != s.got
    requires grant != NULL ==> Grantable(s.got, base, limit, grant, CoreUnits(n))
    ensures NoFit(s.B, n) && InRing(s.B, q) && q != grant && u.B == WithCore(s.B, grant, CoreUnits(n), q)
    ensures IsSucc(s.B[grant := Block(CoreUnits(n), true)], q, grant)
    ensures u.got == s.got + Cells(grant, CoreUnits(n))
  {
    var v, b :| GotCore(s, n, grant, v) && t.got == v.got && TookFrom(v.B, v.freep, n, b, t, p);
    CoreAddsNothing(s, base, limit, n, grant, v);
    CoreCovered(s, base, limit, n, grant, v);
    TakeThenRelease(v.B, base, limit, v.got, b, n, u.freep);
    q := v.freep;
  }

  /** Releasing what was just taken from a joined arena restores its blocks. */
  lemma TakeThenRelease(B: Blocks, base: int, limit: int, got: set<int>, b: int, n: nat, q: int)
    requires Separate(B, base, limit) && Joined(B, base) && Covered(B, got)
    requires InRing(B, b) && 1 <= n <= B[b].size
    requires var K, c := Take(B, b, n), TakenAt(B, b, n); InRing(K, q) && IsSucc(SetFree(K, c, true), q, c)
    ensures Release(Take(B, b, n), q, TakenAt(B, b, n)) == B
  {
    var K, c := Take(B, b, n), TakenAt(B, b, n);
    TakeBlocks(B, base, limit, b, n);
    TakeCovered(B, got, b, n);
    ReleaseBlocks(K, base, limit, q, c);
    ReleaseCovered(K, got, q, c);
    assert Live(K) - {c} == Live(B);
    CanonicalRing(Release(K, q, c), B, base, limit, got);
  }

  lemma CoreCovered(s: Arena, base: int, limit: int, n: nat, grant: int, u: Arena)
    requires Separate(s.B, base, limit) && Joined(s.B, base) && Covered(s.B, s.got) && GotCore(s, n, grant, u) && 1 <= n
    requires Grantable(s.got, base, limit, grant, CoreUnits(n))
    ensures Covered(u.B, u.got)
  {
    var K := s.B[grant := Block(CoreUnits(n), false)];
    AddLiveSeparate(s.B, s.got, base, limit, grant, CoreUnits(n));
    AddLiveCovered(s.B, s.got, grant, CoreUnits(n));
    forall h | InRing(K, h) && h != base ensures !InRing(K, End(K, h)) { assert InRing(s.B, h); }
    assert SetFree(K, grant, true) == s.B[grant := Block(CoreUnits(n), true)];
    ReleaseBlocks(K, base, limit, u.freep, grant);
    ReleaseCovered(K, u.got, u.freep, grant);
  }

  // ------------------------------------------------------------------- runs

  /** A store by the program into a block it holds, header apart, leaves the allocator's state intact. */
  lemma StoreKeepsArena(s: Arena, base: int, h: int, a: int, v: Header)
    requires WellFormed(s, base) && DataCell(s.B, h, a)
    ensures 0 <= a < |s.mem| && WellFormed(s.(mem := s.mem[a := v]), base)
  {
    assert LinkOK(s.mem, s.B, h);
    var m := s.mem[a := v];
    forall k ensures LinkOK(m, s.B, k) {
      assert LinkOK(s.mem, s.B, k) && Apart(s.B, h, k) && Apart(s.B, k, h);
    }
  }

  ghost predicate DataCell(B: Blocks, h: int, a: int) {
    h in Live(B) && h < a < End(B, h)
  }

  datatype Event = Malloc(n: nat, grant: int, p: int) | Free(p: int) | Store(a: int, v: Header)

  ghost predicate Step(s: Arena, e: Event, t: Arena, base: int) {
    match e
    case Malloc(n, grant, p) =>
      && 1 <= n && MallocStep(s, base, n, grant, t, p) && WellFormed(t, base)
      && (grant != NULL ==> Grantable(s.got, base, |s.mem|, grant, CoreUnits(n)))
    case Free(p) => s.freep != NULL && FreeStep(s, p - 1, t) && WellFormed(t, base)
    case Store(a, v) =>
      0 <= a < |s.mem| && t == s.(mem := s.mem[a := v]) && exists h :: DataCell(s.B, h, a)
  }

  /** A program run: calls of malloc and free, and stores into blocks the program holds. */
  ghost predicate IsRun(ss: seq<Arena>, es: seq<Event>, base: int) {
    && |ss| == |es| + 1 && WellFormed(ss[0], base)
    && forall i | 0 <= i < |es| :: Step(ss[i], es[i], ss[i + 1], base)
  }

  lemma OneStepMore(ss: seq<Arena>, es: seq<Event>, base: int, e: Event, t: Arena)
    requires IsRun(ss, es, base) && Step(ss[|es|], e, t, base)
    ensures IsRun(ss + [t], es + [e], base)
  {
    var ss', es' := ss + [t], es + [e];
    forall i | 0 <= i < |es'| ensures Step(ss'[i], es'[i], ss'[i + 1], base) {
      if i < |es| { assert Step(ss[i], es[i], ss[i + 1], base); }
    }
  }

  lemma {:induction false} RunKeepsArena(ss: seq<Arena>, es: seq<Event>, base: int, i: nat)
    requires IsRun(ss, es, base) && i <= |es|
    ensures WellFormed(ss[i], base)
  {
    if i > 0 {
      RunKeepsArena(ss, es, base, i - 1);
      var s, e := ss[i - 1], es[i - 1];
      assert Step(s, e, ss[i], base);
      if e.Store? {
        var h :| DataCell(s.B, h, e.a);
        StoreKeepsArena(s, base, h, e.a, e.v);
      }
    }
  }

  /** e neither frees the block at c nor is the program's own store into its data; size counts its header. */
  ghost predicate LeavesAlone(e: Event, c: int, size: nat) {
    match e
    case Malloc(_, _, _) => true
    case Free(p) => p != c + 1
    case Store(a, _) => !(c < a < c + size)
  }

  lemma StepKeepsLive(s: Arena, e: Event, t: Arena, base: int, c: int)
    requires WellFormed(s, base) && Step(s, e, t, base) && c in Live(s.B) && LeavesAlone(e, c, s.B[c].size)
    ensures c in Live(t.B) && Live(t.B)[c] == Live(s.B)[c] && |t.mem| == |s.mem|
    ensures 0 <= c && End(s.B, c) <= |s.mem| && SameCells(s.mem, t.mem, c + 1, End(s.B, c))
  {
    match e
    case Malloc(n, grant, p) => MallocKeepsLive(s, n, grant, p, t, base, c);
    case Free(p) => FreeKeepsLive(s, p, t, base, c);
    case Store(a, v) =>
  }

  lemma MallocKeepsLive(s: Arena, n: nat, grant: int, p: int, t: Arena, base: int, c: int)
    requires WellFormed(s, base) && Step(s, Malloc(n, grant, p), t, base) && c in Live(s.B)
    ensures c in Live(t.B) && Live(t.B)[c] == Live(s.B)[c] && |t.mem| == |s.mem|
    ensures SameCells(s.mem, t.mem, c + 1, End(s.B, c))
  {
    MallocAddsLive(s, base, n, grant, t, p);
  }

  lemma FreeKeepsLive(s: Arena, p: int, t: Arena, base: int, c: int)
    requires WellFormed(s, base) && s.freep != NULL && FreeStep(s, p - 1, t) && c in Live(s.B) && p != c + 1
    ensures c in Live(t.B) && Live(t.B)[c] == Live(s.B)[c] && |t.mem| == |s.mem|
    ensures SameCells(s.mem, t.mem, c + 1, End(s.B, c))
  {
    FreeRemovesLive(s, p - 1, t, base);
    assert c in Live(s.B) - {p - 1};
  }

  /** From malloc to free a region keeps its place, its size and the program's data, whatever else happens. */
  lemma {:induction false} LiveRegionKept(ss: seq<Arena>, es: seq<Event>, base: int, i: nat, j: nat, c: int)
    requires IsRun(ss, es, base) && i <= j <= |es| && c in Live(ss[i].B)
    requires forall k | i <= k < j :: LeavesAlone(es[k], c, ss[i].B[c].size)
    ensures c in Live(ss[j].B) && Live(ss[j].B)[c] == Live(ss[i].B)[c] && |ss[j].mem| == |ss[i].mem|
    ensures 0 <= c && End(ss[i].B, c) <= |ss[i].mem| && SameCells(ss[i].mem, ss[j].mem, c + 1, End(ss[i].B, c))
    decreases j - i
  {
    RunKeepsArena(ss, es, base, i);
    if i < j {
      LiveRegionKept(ss, es, base, i, j - 1, c);
      RunKeepsArena(ss, es, base, j - 1);
      StepKeepsLive(ss[j - 1], es[j - 1], ss[j], base, c);
    }
  }

  /** Cell by cell: no data cell of the block changes; its first cell is its header. */
  lemma LiveCellKept(ss: seq<Arena>, es: seq<Event>, base: int, i: nat, j: nat, c: int, a: int)
    requires IsRun(ss, es, base) && i <= j <= |es| && c in Live(ss[i].B) && c < a < c + ss[i].B[c].size
    requires forall k | i <= k < j :: LeavesAlone(es[k], c, ss[i].B[c].size)
    ensures 0 <= a < |ss[i].mem| && a < |ss[j].mem| && ss[j].mem[a] == ss[i].mem[a]
  {
    LiveRegionKept(ss, es, base, i, j, c);
  }
}
