/**
  What one call of the boundary-tag allocator does, as a relation between heaps.
  */
module HeapSpec {
  import opened HeapLayout
  import opened HeapTags

  const CHUNK_UNIT := 16

  /** The number of units that hold size bytes. */
  function SizeToUnits(size: nat): (units: nat)
    ensures units * 16 >= size
    ensures units * 16 < size + 16
  {
    (size + (CHUNK_UNIT - 1)) / CHUNK_UNIT
  }

  /** The whole state: memory, the globals and the system break; L is the layout held in memory. */
  datatype Heap = Heap(mem: seq<Cell>, isInit: bool, start: int, brk: int, head: int, L: Layout)

  /** Chunks tile the heap, tags and next list agree with them, and no two free chunks touch. */
  ghost predicate WellFormed(h: Heap) {
    && NULL < h.brk <= |h.mem|
    && (h.isInit ==> Holds(h.mem, h.L, h.start, h.brk) && IsFreeAfter(h.L, NULL, h.head) && Coalesced(h.L))
    && (!h.isInit ==> h.head == NULL && h.L == map[])
  }

  /** Neither call fails to be a correct heap again, nor touches data of a chunk that stays in use. */
  ghost predicate Preserves(s: Heap, t: Heap, live: map<int, nat>) {
    WellFormed(t) && DataKept(live, s.mem, t.mem)
  }

  ghost predicate MallocStep(s: Heap, size: nat, t: Heap, p: int) {
    if size == 0 then
      t == s && p == NULL
    else
      && t.isInit && t.start == (if s.isInit then s.start else s.brk)
      && MallocSpec(s.L, s.brk, |s.mem|, SizeToUnits(size), t.L, t.brk, p)
      && Preserves(s, t, InUse(s.L))
  }

  ghost predicate FreeStep(s: Heap, p: int, t: Heap) {
    if p == NULL then
      t == s
    else
      && t.isInit == s.isInit && t.start == s.start && t.brk == s.brk
      && FreeSpec(s.L, p - 1, t.L)
      && Preserves(s, t, InUse(t.L))
  }

  /** The program using the allocator stores v in a data cell a of a chunk it holds. */
  ghost predicate StoreStep(s: Heap, a: int, v: Cell, t: Heap) {
    && 0 <= a < |s.mem| && t == s.(mem := s.mem[a := v])
    && exists h :: DataCell(s.L, h, a)
  }

  ghost predicate DataCell(L: Layout, h: int, a: int) {
    h in InUse(L) && h < a <= h + L[h].units
  }
}
