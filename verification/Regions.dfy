/**
  What programs and theorems about either allocator share: a memory, and the pointers
  a program holds into it.
  */
module Regions {

  /** Cells lo .. hi-1 are the same in both memories. */
  ghost predicate SameCells<T>(m: seq<T>, n: seq<T>, lo: int, hi: int)
    requires |m| == |n|
  {
    forall a | 0 <= a < |m| && lo <= a < hi :: m[a] == n[a]
  }

  function Elems(s: seq<int>): set<int> {
    set c | c in s
  }

  /** Taking away the elements of s is taking away the last one after all others. */
  lemma LastElem(live: map<int, nat>, s: seq<int>)
    requires s != []
    ensures live - Elems(s) == live - Elems(s[..|s| - 1]) - {s[|s| - 1]}
  {
    var n := |s| - 1;
    assert s == s[..n] + [s[n]];
    assert Elems(s) == Elems(s[..n]) + {s[n]};
  }

  // --------------------------------------------------- what a program holds

  /** A pointer to the data of a region, and the size asked for. */
  datatype Held = Held(p: int, size: nat)

  ghost predicate Backed(live: map<int, nat>, x: Held) {
    x.p - 1 in live && x.size <= live[x.p - 1]
  }

  ghost predicate IsHeld(held: seq<Held>, c: int) {
    exists i :: 0 <= i < |held| && held[i].p - 1 == c
  }

  /** The live regions are exactly those held, each by one pointer. */
  ghost predicate Holding(live: map<int, nat>, held: seq<Held>) {
    && (forall i | 0 <= i < |held| :: Backed(live, held[i]))
    && (forall i, j | 0 <= i < j < |held| :: held[i].p != held[j].p)
    && (forall c {:trigger IsHeld(held, c)} | c in live :: IsHeld(held, c))
  }

  lemma OneMoreHeld(live: map<int, nat>, held: seq<Held>, c: int, got: nat, size: nat)
    requires Holding(live, held) && c !in live && size <= got
    ensures Holding(live[c := got], held + [Held(c + 1, size)])
  {
    var held' := held + [Held(c + 1, size)];
    forall i | 0 <= i < |held'| ensures Backed(live[c := got], held'[i]) && (i < |held| ==> held'[i].p != c + 1) {
      if i < |held| { assert Backed(live, held[i]); }
    }
    forall d | d in live[c := got] ensures IsHeld(held', d) {
      if d == c {
        assert held'[|held|].p - 1 == d;
      } else {
        assert IsHeld(held, d);
        var i :| 0 <= i < |held| && held[i].p - 1 == d;
        assert held'[i].p - 1 == d;
      }
    }
  }

  lemma OneLessHeld(live: map<int, nat>, held: seq<Held>, k: nat)
    requires Holding(live, held) && k < |held|
    ensures Holding(live - {held[k].p - 1}, held[..k] + held[k + 1..])
  {
    var held' := held[..k] + held[k + 1..];
    forall i | 0 <= i < |held'| ensures Backed(live - {held[k].p - 1}, held'[i]) {
      assert Backed(live, held[if i < k then i else i + 1]);
    }
    forall d | d in live - {held[k].p - 1} ensures IsHeld(held', d) {
      assert IsHeld(held, d);
      var i :| 0 <= i < |held| && held[i].p - 1 == d;
      assert held'[if i < k then i else i - 1].p - 1 == d;
    }
  }
}
