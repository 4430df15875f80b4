/** The memory pools as a state machine on values: segments, pools and the stack of
    free blocks of each pool.  `PoolTable` refines it by linked structures and memory. */
module PoolSpec {
  import Arith
  import opened Words
  import opened PoolMath

  const IX: nat := 0x1_0000  // BlkIx counts modulo this

  datatype Err =
    | ErrNone | NullPtr | NoneAvail
    | InvalidSegSize | InvalidSegOverlap | InvalidPool | InvalidAddr
    | InvalidBlkNbr | InvalidBlkSize | InvalidBlkIx
    | SegEmpty | PoolFull | HeapNotFound | HeapEmpty

  /** A memory segment: its size and its next available address.  Its base is its key. */
  datatype Segment = Segment(tot: nat, next: nat)

  /** A pool: its segment, where its recorded range starts, its pointer table and its free
      blocks, the next one to be handed out last. */
  datatype Pool = Pool(seg: nat, start: nat, table: nat, nbr: nat, size: nat, align: nat, free: seq<nat>)

  datatype State = State(heap: nat, segs: map<nat, Segment>, pools: seq<Pool>)

  datatype Created = Created(st: State, err: Err, reqd: nat)
  datatype Got = Got(st: State, err: Err, blk: nat)
  datatype Freed = Freed(st: State, err: Err)

  function InitState(heap: nat, heapSize: nat): State {
    State(heap, map[heap := Segment(heapSize, heap)], [])
  }

  // ----- operations

  predicate Shares(s: State, base: nat, memSize: nat) {
    base in s.segs && s.segs[base].tot == memSize
  }

  /** Two non-empty ranges have an octet in common. */
  predicate Overlap(a: nat, m: nat, b: nat, n: nat) {
    a < b + n && b < a + m
  }

  ghost predicate OverlapsOther(s: State, base: nat, memSize: nat) {
    exists b :: b in s.segs && Overlap(base, memSize, b, s.segs[b].tot) && !(b == base && s.segs[b].tot == memSize)
  }

  function EffectiveAlign(align: nat): (r: nat)
    ensures r >= 1
  {
    if align < 1 then 1 else align
  }

  /** Octets the pointer table of `nbr` blocks takes from the heap. */
  function TableTot(s: State, nbr: nat): nat
    requires s.heap in s.segs && nbr >= 1
  {
    CalcTot(s.segs[s.heap].next, nbr, WORD_OCTETS, WORD_OCTETS)
  }

  /** Where the blocks of a new pool may start. */
  function PoolStart(s: State, base: nat, memSize: nat, nbr: nat): nat
    requires s.heap in s.segs && nbr >= 1
  {
    if base == 0 then s.segs[s.heap].next + TableTot(s, nbr)
    else if Shares(s, base, memSize) then s.segs[base].next
    else base
  }

  /** Blocks and pointer table come from the same segment: no base address is given, or the heap's own. */
  predicate InHeap(s: State, base: nat, memSize: nat) {
    base == 0 || (base == s.heap && Shares(s, base, memSize))
  }

  function Rem(base: nat, seg: Segment): int {
    seg.tot - (seg.next - base)
  }

  /** Where the first block is carved, once the pointer table is allocated, and the octets there are from
      there on. */
  function CarveStart(s: State, base: nat, memSize: nat, nbr: nat): nat
    requires s.heap in s.segs && nbr >= 1
  {
    if InHeap(s, base, memSize) then s.segs[s.heap].next + TableTot(s, nbr) else PoolStart(s, base, memSize, nbr)
  }

  function Room(s: State, base: nat, memSize: nat, nbr: nat): int
    requires s.heap in s.segs && nbr >= 1
  {
    if InHeap(s, base, memSize) then Rem(s.heap, s.segs[s.heap]) - TableTot(s, nbr)
    else memSize - (PoolStart(s, base, memSize, nbr) - base)
  }

  predicate Fits(s: State, base: nat, memSize: nat, nbr: nat, size: nat, align: nat)
    requires s.heap in s.segs && nbr >= 1 && size >= 1 && align >= 1
  {
    CalcTot(CarveStart(s, base, memSize, nbr), nbr, size, align) <= Room(s, base, memSize, nbr)
  }

  /** The pool that a creation makes.  `BlkIx` keeps 16 bits of the block count. */
  function NewPool(s: State, base: nat, memSize: nat, nbr: nat, size: nat, align: nat): Pool
    requires s.heap in s.segs && nbr >= 1 && align >= 1
  {
    Pool(if base == 0 then s.heap else base, PoolStart(s, base, memSize, nbr),
         AlignUp(s.segs[s.heap].next, WORD_OCTETS), nbr, size, align,
         BlockSeq(CarveStart(s, base, memSize, nbr), nbr, size, align)[..nbr % IX])
  }

  /** The segments after the carving, whether or not it came to its end.  A new segment is known only if
      it did. */
  function SegsAfter(s: State, base: nat, memSize: nat, nbr: nat, size: nat, align: nat): map<nat, Segment>
    requires s.heap in s.segs && nbr >= 1 && size >= 1 && align >= 1
  {
    var heap := s.segs[s.heap];
    var next := Spend(CarveStart(s, base, memSize, nbr), Room(s, base, memSize, nbr), nbr, size, align);
    if InHeap(s, base, memSize) then s.segs[s.heap := heap.(next := next)]
    else
      var segs := s.segs[s.heap := heap.(next := heap.next + TableTot(s, nbr))];
      if Shares(s, base, memSize) || Fits(s, base, memSize, nbr, size, align) then segs[base := Segment(memSize, next)]
      else segs
  }

  /** The size tests being passed: a pool, or, when the blocks run out, an error with the space spent. */
  function Carved(s: State, base: nat, memSize: nat, nbr: nat, size: nat, align: nat): Created
    requires s.heap in s.segs && nbr >= 1 && size >= 1 && align >= 1
  {
    var segs := SegsAfter(s, base, memSize, nbr, size, align);
    if Fits(s, base, memSize, nbr, size, align) then
      Created(State(s.heap, segs, s.pools + [NewPool(s, base, memSize, nbr, size, align)]), ErrNone, 0)
    else Created(State(s.heap, segs, s.pools), SegEmpty, 0)
  }

  ghost function Create(s: State, base: nat, memSize: nat, nbr: nat, size: nat, blkAlign: nat): Created {
    var align := EffectiveAlign(blkAlign);
    if base != 0 && memSize < 1 then Created(s, InvalidSegSize, 0)
    else if nbr < 1 then Created(s, InvalidBlkNbr, 0)
    else if size < 1 then Created(s, InvalidBlkSize, 0)
    else if s.heap !in s.segs then Created(s, HeapNotFound, 0)
    else
      var heapRem, tableTot := Rem(s.heap, s.segs[s.heap]), TableTot(s, nbr);
      var start := PoolStart(s, base, memSize, nbr);
      var poolTot := CalcTot(start, nbr, size, align);
      if base == 0 then
        if !Admits(tableTot + poolTot, heapRem) then Created(s, HeapEmpty, Wrap(tableTot + poolTot) - heapRem)
        else Carved(s, base, memSize, nbr, size, align)
      else if OverlapsOther(s, base, memSize) then Created(s, InvalidSegOverlap, 0)
      else if tableTot > heapRem then Created(s, HeapEmpty, tableTot - heapRem)
      else
        var rem := memSize - (start - base);
        if !Admits(poolTot, rem) then Created(s, SegEmpty, Wrap(poolTot) - rem)
        else Carved(s, base, memSize, nbr, size, align)
  }

  function Get(s: State, i: nat, size: nat): Got
    requires i < |s.pools|
  {
    var p := s.pools[i];
    if size > p.size then Got(s, InvalidBlkSize, 0)
    else if |p.free| < 1 then Got(s, NoneAvail, 0)
    else Got(s.(pools := s.pools[i := p.(free := p.free[..|p.free| - 1])]), ErrNone, p.free[|p.free| - 1])
  }

  /** One more free block; an index that reaches 2^16 starts again at 0. */
  function Pushed(free: seq<nat>, blk: nat): seq<nat> {
    if |free| + 1 == IX then [] else free + [blk]
  }

  /** What `Mem_PoolBlkFree` tests is the address arithmetic, not membership. */
  function Free(s: State, i: nat, blk: Word): Freed
    requires i < |s.pools| && s.pools[i].size >= 1 && s.pools[i].align >= 1 && s.pools[i].nbr >= 1
  {
    var p := s.pools[i];
    if blk == 0 then Freed(s, NullPtr)
    else if |p.free| >= p.nbr then Freed(s, PoolFull)
    else if !CheckAddr(p.start, CalcTot(p.start, p.nbr, p.size, p.align), p.size, p.align, blk) then
      Freed(s, InvalidAddr)
    else if blk in p.free then Freed(s, InvalidAddr)
    else Freed(s.(pools := s.pools[i := p.(free := Pushed(p.free, blk))]), ErrNone)
  }

  // ----- what callers must respect

  /** Memory that does not reach the end of the address space; a pointer table that ends before it and
      whose allocation does not fail behind the size test; and, where blocks can run out, a size and
      alignment that do not wrap together. */
  predicate CreateFits(s: State, base: nat, memSize: nat, nbr: nat, size: nat, blkAlign: nat) {
    && (base != 0 ==> base + memSize < W32)
    && (nbr >= 1 && size >= 1 ==> nbr < W32 && Stride(size, EffectiveAlign(blkAlign)) < W32)
    && (nbr >= 1 && size >= 1 && s.heap in s.segs ==>
          && s.segs[s.heap].next + TableTot(s, nbr) < W32
          && TotalsOk(s, base, memSize, nbr, size, EffectiveAlign(blkAlign)))
  }

  /** A heap request that passes the size test, though not even its pointer table fits. */
  predicate TableLost(s: State, nbr: nat, size: nat, align: nat)
    requires s.heap in s.segs && nbr >= 1 && size >= 1 && align >= 1
  {
    var rem := Rem(s.heap, s.segs[s.heap]);
    Admits(TableTot(s, nbr) + CalcTot(PoolStart(s, 0, 0, nbr), nbr, size, align), rem) && rem < TableTot(s, nbr)
  }

  predicate TotalsOk(s: State, base: nat, memSize: nat, nbr: nat, size: nat, align: nat)
    requires s.heap in s.segs && nbr >= 1 && size >= 1 && align >= 1
  {
    var poolTot := CalcTot(PoolStart(s, base, memSize, nbr), nbr, size, align);
    if base == 0 then
      TableTot(s, nbr) + poolTot < W32 || (!TableLost(s, nbr, size, align) && size + align <= W32)
    else if InHeap(s, base, memSize) then size + align <= W32
    else poolTot < W32 || size + align <= W32
  }

  /** The heap asked for by its own address: either the request does not fit, or the pointer table fits
      in front of the first aligned address. */
  predicate ByAddressOk(s: State, base: nat, memSize: nat, nbr: nat, size: nat, blkAlign: nat) {
    base != 0 && nbr >= 1 && size >= 1 && s.heap in s.segs && InHeap(s, base, memSize)
    && Fits(s, base, memSize, nbr, size, EffectiveAlign(blkAlign)) ==>
      var next, align := s.segs[s.heap].next, EffectiveAlign(blkAlign);
      AlignUp(next, align) == AlignUp(next + TableTot(s, nbr), align)
  }

  predicate CreateOk(s: State, base: nat, memSize: nat, nbr: nat, size: nat, blkAlign: nat) {
    CreateFits(s, base, memSize, nbr, size, blkAlign) && ByAddressOk(s, base, memSize, nbr, size, blkAlign)
  }

  /** An address that the check mistakes for a block is not given to `Free`. */
  predicate FreeOk(p: Pool, blk: Word)
    requires p.size >= 1 && p.align >= 1
  {
    !IsPhantom(p.start, p.size, p.align, blk)
  }

  // ----- the invariant

  predicate SegOk(base: nat, seg: Segment) {
    0 < base <= seg.next <= base + seg.tot < W32 && seg.tot > 0
  }

  ghost predicate SegsOk(segs: map<nat, Segment>) {
    && (forall b :: b in segs ==> SegOk(b, segs[b]))
    && (forall b, c :: b in segs && c in segs && b != c ==> !Overlap(b, segs[b].tot, c, segs[c].tot))
  }

  predicate Shape(p: Pool) {
    && 1 <= p.nbr < W32 && 1 <= p.size < W32 && 1 <= p.align < W32
    && Stride(p.size, p.align) < W32 && p.table % WORD_OCTETS == 0 && |p.free| <= p.nbr && |p.free| < IX
  }

  /** Where the first block is, and where the last one ends. */
  function First(p: Pool): (a: nat)
    requires Shape(p)
    ensures a >= p.start
  {
    AlignUp(p.start, p.align)
  }

  function End(p: Pool): nat
    requires Shape(p)
  {
    p.start + CalcTot(p.start, p.nbr, p.size, p.align)
  }

  function TableEnd(p: Pool): nat {
    p.table + WORD_OCTETS * p.nbr
  }

  /** The range lies in the used part of segment `b`. */
  predicate InUsed(segs: map<nat, Segment>, b: nat, lo: nat, hi: nat) {
    b in segs && b <= lo && hi <= segs[b].next
  }

  predicate Placed(s: State, p: Pool) {
    && Shape(p)
    && InUsed(s.segs, s.heap, p.table, TableEnd(p))
    && InUsed(s.segs, p.seg, p.start, End(p))
  }

  predicate Apart(a: nat, b: nat, c: nat, d: nat) {
    b <= c || d <= a
  }

  /** Neither the blocks nor the pointer tables of two pools meet. */
  predicate PoolsApart(p: Pool, q: Pool)
    requires Shape(p) && Shape(q)
  {
    && Apart(First(p), End(p), First(q), End(q))
    && Apart(p.table, TableEnd(p), q.table, TableEnd(q))
    && Apart(First(p), End(p), q.table, TableEnd(q))
    && Apart(p.table, TableEnd(p), First(q), End(q))
  }

  ghost predicate Block(p: Pool, b: int)
    requires Shape(p)
  {
    IsBlock(p.start, p.nbr, p.size, p.align, b)
  }

  ghost predicate Distinct(xs: seq<nat>) {
    forall j, k :: 0 <= j < k < |xs| ==> xs[j] != xs[k]
  }

  ghost predicate FreeListOk(p: Pool)
    requires Shape(p)
  {
    Distinct(p.free) && forall k :: 0 <= k < |p.free| ==> Block(p, p.free[k])
  }

  ghost predicate PoolOk(s: State, i: nat)
    requires i < |s.pools|
  {
    var p := s.pools[i];
    Placed(s, p) && FreeListOk(p) && Apart(First(p), End(p), p.table, TableEnd(p))
  }

  ghost predicate Inv(s: State) {
    && SegsOk(s.segs)
    && (s.heap !in s.segs ==> s.segs == map[] && s.pools == [])
    && (forall i {:trigger PoolOk(s, i)} :: 0 <= i < |s.pools| ==> PoolOk(s, i))
    && (forall i, j {:trigger PoolsApart(s.pools[i], s.pools[j])} :: 0 <= i < j < |s.pools| ==>
          PoolOk(s, i) && PoolOk(s, j) && PoolsApart(s.pools[i], s.pools[j]))
  }

  /** A block that is not on the stack.  In a pool of fewer than 2^16 blocks it has been handed out and not
      given back; in a larger one it may also be one that the index has lost, and that is never handed out
      unless it is given back first. */
  ghost predicate Outstanding(p: Pool, b: int)
    requires Shape(p)
  {
    Block(p, b) && b !in p.free
  }

  // ----- every operation keeps the invariant

  lemma InitKeepsInv(heap: nat, heapSize: nat)
    requires heap > 0 && heapSize > 0 && heap + heapSize < W32
    ensures Inv(InitState(heap, heapSize))
  {
  }

  lemma TableBounds(next: nat, nbr: nat)
    requires nbr >= 1
    ensures AlignUp(next, WORD_OCTETS) + WORD_OCTETS * nbr == next + CalcTot(next, nbr, WORD_OCTETS, WORD_OCTETS)
    ensures AlignUp(next, WORD_OCTETS) % WORD_OCTETS == 0
  {
    AlignUpAligned(next, WORD_OCTETS);
    var s := Stride(WORD_OCTETS, WORD_OCTETS);
    assert s == 4;
    assert s * (nbr - 1) == 4 * (nbr - 1);
  }

  lemma FreshBlocks(p: Pool, from: nat)
    requires Shape(p) && AlignUp(from, p.align) == First(p)
    requires p.free == BlockSeq(from, p.nbr, p.size, p.align)[..p.nbr % IX]
    ensures FreeListOk(p)
  {
    SameFirstSameBlocks(from, p.start, p.nbr, p.size, p.align);
    forall j, k | 0 <= j < k < |p.free| ensures p.free[j] != p.free[k] {
      BlockSeqDistinct(p.start, p.nbr, p.size, p.align, j, k);
    }
  }

  /** The arguments are valid and the size tests are passed. */
  ghost predicate Passes(s: State, base: nat, memSize: nat, nbr: nat, size: nat, align: nat) {
    && s.heap in s.segs && nbr >= 1 && size >= 1 && align >= 1 && (base != 0 ==> memSize >= 1)
    && var poolTot := CalcTot(PoolStart(s, base, memSize, nbr), nbr, size, align);
       var heapRem := Rem(s.heap, s.segs[s.heap]);
       if base == 0 then Admits(TableTot(s, nbr) + poolTot, heapRem)
       else !OverlapsOther(s, base, memSize) && TableTot(s, nbr) <= heapRem
            && Admits(poolTot, memSize - (PoolStart(s, base, memSize, nbr) - base))
  }

  lemma PassesIff(s: State, base: nat, memSize: nat, nbr: nat, size: nat, blkAlign: nat)
    ensures var c := Create(s, base, memSize, nbr, size, blkAlign);
            if Passes(s, base, memSize, nbr, size, EffectiveAlign(blkAlign))
            then c == Carved(s, base, memSize, nbr, size, EffectiveAlign(blkAlign))
            else c.st == s && c.err != ErrNone && (c.err == SegEmpty ==> c.reqd > 0)
  {
    hide CalcTot, Carved, OverlapsOther, Wrap;
  }

  /** What the tests leave to the carving: room for the pointer table, and none that is negative. */
  lemma PassesLeavesRoom(s: State, base: nat, memSize: nat, nbr: nat, size: nat, align: nat)
    requires Passes(s, base, memSize, nbr, size, align) && SegsOk(s.segs)
    requires TotalsOk(s, base, memSize, nbr, size, align)
    ensures TableTot(s, nbr) <= Rem(s.heap, s.segs[s.heap]) && Room(s, base, memSize, nbr) >= 0
    ensures Fits(s, base, memSize, nbr, size, align) || size + align <= W32
  {
    hide CalcTot;
    var poolTot := CalcTot(PoolStart(s, base, memSize, nbr), nbr, size, align);
    if base == 0 && TableTot(s, nbr) + poolTot < W32 {
      WrapSmall(TableTot(s, nbr) + poolTot);
    }
    if base != 0 && poolTot < W32 {
      WrapSmall(poolTot);
    }
  }

  lemma SegUpdateOk(segs: map<nat, Segment>, b: nat, seg: Segment)
    requires SegsOk(segs) && SegOk(b, seg)
    requires b in segs ==> segs[b].tot == seg.tot
    requires b !in segs ==> forall c :: c in segs ==> !Overlap(b, seg.tot, c, segs[c].tot)
    ensures SegsOk(segs[b := seg])
  {
  }

  lemma SegOkAt(segs: map<nat, Segment>, b: nat)
    requires SegsOk(segs) && b in segs
    ensures SegOk(b, segs[b])
  {
  }

  /** No segment is lost or resized, and no next available address moves back. */
  ghost predicate SegsGrow(s: map<nat, Segment>, t: map<nat, Segment>) {
    s.Keys <= t.Keys && forall b :: b in s ==> t[b].tot == s[b].tot && s[b].next <= t[b].next
  }

  lemma SegsAfterOk(s: State, base: nat, memSize: nat, nbr: nat, size: nat, align: nat)
    requires SegsOk(s.segs) && Passes(s, base, memSize, nbr, size, align)
    requires TableTot(s, nbr) <= Rem(s.heap, s.segs[s.heap]) && Room(s, base, memSize, nbr) >= 0
    requires base != 0 ==> base + memSize < W32
    ensures var segs := SegsAfter(s, base, memSize, nbr, size, align);
            && SegsOk(segs) && SegsGrow(s.segs, segs)
            && s.segs[s.heap].next + TableTot(s, nbr) <= segs[s.heap].next
            && (base != 0 && !Shares(s, base, memSize) ==> base !in s.segs)
  {
    hide CalcTot, Spend, SegsOk, OverlapsOther, Overlap;
    var heap, tableTot := s.segs[s.heap], TableTot(s, nbr);
    var next := Spend(CarveStart(s, base, memSize, nbr), Room(s, base, memSize, nbr), nbr, size, align);
    SegOkAt(s.segs, s.heap);
    if InHeap(s, base, memSize) {
      SegUpdateOk(s.segs, s.heap, heap.(next := next));
    } else {
      var segs := s.segs[s.heap := heap.(next := heap.next + tableTot)];
      SegUpdateOk(s.segs, s.heap, segs[s.heap]);
      NewSegOk(s, base, memSize);
      if base in s.segs { SegOkAt(s.segs, base); }
      assert base != s.heap;
      forall b | b in segs && b != base ensures !Overlap(base, memSize, b, segs[b].tot) {
        assert segs[b].tot == s.segs[b].tot;
      }
      SegUpdateOk(segs, base, Segment(memSize, next));
    }
  }

  /** A range that overlaps no other segment is a segment already, or apart from all. */
  lemma NewSegOk(s: State, base: nat, memSize: nat)
    requires SegsOk(s.segs) && base != 0 && memSize >= 1 && !OverlapsOther(s, base, memSize)
    ensures base in s.segs <==> Shares(s, base, memSize)
    ensures forall b :: b in s.segs && b != base ==> !Overlap(base, memSize, b, s.segs[b].tot)
  {
    if base in s.segs { assert SegOk(base, s.segs[base]) && Overlap(base, memSize, base, s.segs[base].tot); }
  }

  /** What a creation that puts `p` beyond every octet in use establishes. */
  ghost predicate Extends(s: State, t: State, p: Pool) {
    && t.pools == s.pools + [p] && t.heap == s.heap && s.heap in s.segs
    && SegsOk(t.segs) && SegsGrow(s.segs, t.segs)
    && Placed(t, p) && FreeListOk(p)
    && Apart(First(p), End(p), p.table, TableEnd(p))
    && s.segs[s.heap].next <= p.table
    && (p.seg in s.segs ==> s.segs[p.seg].next <= p.start)
  }

  /** The carving that comes to its end puts the new pool, its blocks and its pointer table, beyond
      everything in use. */
  lemma CarvedExtends(s: State, base: nat, memSize: nat, nbr: nat, size: nat, blkAlign: nat)
    requires Inv(s) && CreateOk(s, base, memSize, nbr, size, blkAlign) && size < W32 && blkAlign < W32
    requires Passes(s, base, memSize, nbr, size, EffectiveAlign(blkAlign))
    requires Fits(s, base, memSize, nbr, size, EffectiveAlign(blkAlign))
    ensures Extends(s, Carved(s, base, memSize, nbr, size, EffectiveAlign(blkAlign)).st,
                    NewPool(s, base, memSize, nbr, size, EffectiveAlign(blkAlign)))
  {
    hide CalcTot, AlignUp, BlockSeq, IsBlock, Stride, SegsOk, OverlapsOther, FreeListOk, Overlap, Spend, Admits;
    hide SegsGrow;
    var align := EffectiveAlign(blkAlign);
    var p, start := NewPool(s, base, memSize, nbr, size, align), CarveStart(s, base, memSize, nbr);
    var segs := SegsAfter(s, base, memSize, nbr, size, align);
    PassesLeavesRoom(s, base, memSize, nbr, size, align);
    SegsAfterOk(s, base, memSize, nbr, size, align);
    SpendAll(start, Room(s, base, memSize, nbr), nbr, size, align);
    TableBounds(s.segs[s.heap].next, nbr);
    SegOkAt(s.segs, s.heap);
    CalcTotMono(p.start, start, nbr, size, align);
    FreshBlocks(p, start);
    if !InHeap(s, base, memSize) {
      if base in s.segs { SegOkAt(s.segs, base); }
      UsedApart(segs, base, p.start, End(p), s.heap, p.table, TableEnd(p));
    }
  }

  /** Space that is spent for nothing belongs to no pool. */
  lemma SpentKeepsInv(s: State, segs: map<nat, Segment>)
    requires Inv(s) && SegsOk(segs) && SegsGrow(s.segs, segs) && s.heap in s.segs
    ensures Inv(State(s.heap, segs, s.pools))
  {
    hide CalcTot, AlignUp, IsBlock, Stride, SegsOk, FreeListOk;
    var t := State(s.heap, segs, s.pools);
    forall i | 0 <= i < |t.pools| ensures PoolOk(t, i) {
      assert PoolOk(s, i);
    }
    forall i, j | 0 <= i < j < |t.pools|
      ensures PoolOk(t, i) && PoolOk(t, j) && PoolsApart(t.pools[i], t.pools[j])
    {
      assert PoolOk(s, i) && PoolOk(t, i) && PoolOk(t, j) && PoolsApart(s.pools[i], s.pools[j]);
    }
  }

  lemma ExtendsKeepsInv(s: State, t: State, p: Pool)
    requires Inv(s) && Extends(s, t, p)
    ensures Inv(t)
  {
    hide CalcTot, AlignUp, IsBlock, Stride, SegsOk, FreeListOk;
    forall i | 0 <= i < |t.pools| ensures PoolOk(t, i) {
      if i < |s.pools| {
        assert PoolOk(s, i);
        NewPoolApart(s, t, s.pools[i], p);
      }
    }
    forall i, j | 0 <= i < j < |t.pools|
      ensures PoolOk(t, i) && PoolOk(t, j) && PoolsApart(t.pools[i], t.pools[j])
    {
      assert PoolOk(s, i) && PoolOk(t, i) && PoolOk(t, j);
      if j < |s.pools| { assert PoolsApart(s.pools[i], s.pools[j]); } else { NewPoolApart(s, t, s.pools[i], p); }
    }
  }

  lemma CreateKeepsInv(s: State, base: nat, memSize: nat, nbr: nat, size: nat, blkAlign: nat)
    requires Inv(s) && CreateOk(s, base, memSize, nbr, size, blkAlign) && size < W32 && blkAlign < W32
    ensures Inv(Create(s, base, memSize, nbr, size, blkAlign).st)
  {
    hide CalcTot, AlignUp, BlockSeq, IsBlock, Stride, Admits, Create, Inv, Spend, SegsAfter, NewPool;
    var align := EffectiveAlign(blkAlign);
    PassesIff(s, base, memSize, nbr, size, blkAlign);
    if Passes(s, base, memSize, nbr, size, align) {
      InvSegs(s);
      if Fits(s, base, memSize, nbr, size, align) {
        CarvedExtends(s, base, memSize, nbr, size, blkAlign);
        ExtendsKeepsInv(s, Create(s, base, memSize, nbr, size, blkAlign).st,
                        NewPool(s, base, memSize, nbr, size, align));
      } else {
        PassesLeavesRoom(s, base, memSize, nbr, size, align);
        SegsAfterOk(s, base, memSize, nbr, size, align);
        SpentKeepsInv(s, SegsAfter(s, base, memSize, nbr, size, align));
      }
    }
  }

  /** With the other obligations met, creation keeps the invariant if and only if a pool made by the heap's
      own address has its pointer table in front of its first aligned address. */
  lemma CreateKeepsInvIff(s: State, base: nat, memSize: nat, nbr: nat, size: nat, blkAlign: nat)
    requires Inv(s) && CreateFits(s, base, memSize, nbr, size, blkAlign) && size < W32 && blkAlign < W32
    ensures Inv(Create(s, base, memSize, nbr, size, blkAlign).st) <==>
              ByAddressOk(s, base, memSize, nbr, size, blkAlign)
              || !Passes(s, base, memSize, nbr, size, EffectiveAlign(blkAlign))
  {
    hide CalcTot, AlignUp, BlockSeq, IsBlock, Stride, Admits, Create, Inv, Spend, SegsAfter, NewPool, Fits, Carved;
    var align := EffectiveAlign(blkAlign);
    PassesIff(s, base, memSize, nbr, size, blkAlign);
    if ByAddressOk(s, base, memSize, nbr, size, blkAlign) {
      CreateKeepsInv(s, base, memSize, nbr, size, blkAlign);
    } else if Passes(s, base, memSize, nbr, size, align) {
      InvSegs(s);
      ByAddressBreaksInv(s, base, memSize, nbr, size, align);
    }
  }

  lemma ByAddressBreaksInv(s: State, base: nat, memSize: nat, nbr: nat, size: nat, align: nat)
    requires base != 0 && nbr >= 1 && size >= 1 && align >= 1 && s.heap in s.segs
    requires InHeap(s, base, memSize) && Fits(s, base, memSize, nbr, size, align)
    requires AlignUp(s.segs[s.heap].next, align) != AlignUp(CarveStart(s, base, memSize, nbr), align)
    ensures !Inv(Carved(s, base, memSize, nbr, size, align).st)
  {
    hide CalcTot, BlockSeq, IsBlock, Stride, SegsAfter, AlignUp, Inv;
    var t := Carved(s, base, memSize, nbr, size, align).st;
    if Inv(t) {
      PoolOkAt(t, |s.pools|);
      Misplaced(NewPool(s, base, memSize, nbr, size, align), CarveStart(s, base, memSize, nbr));
    }
  }

  /** A pool whose recorded range starts in front of its pointer table, its blocks being behind it: either
      its last block is none of the recorded ones, or the range reaches into the table. */
  lemma Misplaced(p: Pool, c: nat)
    requires Shape(p) && p.table == AlignUp(p.start, WORD_OCTETS)
    requires c == p.start + CalcTot(p.start, p.nbr, WORD_OCTETS, WORD_OCTETS)
    requires p.free == BlockSeq(c, p.nbr, p.size, p.align)[..p.nbr % IX]
    requires AlignUp(p.start, p.align) != AlignUp(c, p.align)
    ensures !FreeListOk(p) || !Apart(First(p), End(p), p.table, TableEnd(p))
  {
    hide CalcTot, BlockSeq, IsBlock, Stride, AlignUp;
    CalcTotMono(p.start, c, p.nbr, p.size, p.align);
    if p.nbr < IX {
      LastBlockBeyond(p.start, c, p.nbr, p.size, p.align);
      assert p.free[p.nbr - 1] == BlockSeq(c, p.nbr, p.size, p.align)[p.nbr - 1];
    } else {
      TableBounds(p.start, p.nbr);
      AlignUpAligned(p.start, p.align);
      AlignUpAligned(c, p.align);
      if AlignUp(p.start, p.align) >= c { AlignUpLeast(c, p.align, AlignUp(p.start, p.align)); }
      RangeAtLeast(p.start, p.nbr, p.size, p.align);
    }
  }

  lemma PoolOkAt(s: State, i: nat)
    requires Inv(s) && i < |s.pools|
    ensures PoolOk(s, i)
  {
  }

  lemma LastBlockBeyond(a: nat, c: nat, n: nat, size: nat, align: nat)
    requires n >= 1 && size >= 1 && align >= 1 && AlignUp(a, align) < AlignUp(c, align)
    ensures !IsBlock(a, n, size, align, BlockSeq(c, n, size, align)[n - 1])
  {
    hide CalcTot, BlockSeq;
    var b := BlockSeq(c, n, size, align)[n - 1];
    BlockSeqAt(c, n, size, align, n - 1);
    if IsBlock(a, n, size, align, b) {
      BlockSeqAt(a, n, size, align, n - 1);
      IsBlockAtMostLast(a, n, size, align, b);
    }
  }

  lemma IsBlockAtMostLast(a: nat, n: nat, size: nat, align: nat, b: nat)
    requires n >= 1 && size >= 1 && align >= 1 && IsBlock(a, n, size, align, b)
    ensures b <= AlignUp(a, align) + (n - 1) * Stride(size, align)
  {
    var k: nat :| k < n && b == BlockSeq(a, n, size, align)[k];
    BlockSeqAt(a, n, size, align, k);
    Arith.MulMono(k, n - 1, Stride(size, align));
  }

  lemma RangeAtLeast(a: nat, n: nat, size: nat, align: nat)
    requires n >= 1 && size >= 1 && align >= 1
    ensures a + CalcTot(a, n, size, align) >= a + n
  {
    var s := Stride(size, align);
    Arith.MulMono(1, s, n - 1);
    assert s * (n - 1) >= n - 1;
  }

  lemma InvSegs(s: State)
    requires Inv(s)
    ensures SegsOk(s.segs)
  {
  }

  lemma NewPoolApart(s: State, t: State, q: Pool, p: Pool)
    requires SegsOk(s.segs) && SegsOk(t.segs) && s.heap == t.heap && s.heap in s.segs && SegsGrow(s.segs, t.segs)
    requires Placed(s, q) && Placed(t, p)
    requires s.segs[s.heap].next <= p.table && (p.seg in s.segs ==> s.segs[p.seg].next <= p.start)
    ensures Placed(t, q) && PoolsApart(q, p)
  {
    hide CalcTot, Stride, AlignUp;
    UsedApart(t.segs, q.seg, q.start, End(q), p.seg, p.start, End(p));
    UsedApart(t.segs, q.seg, q.start, End(q), t.heap, p.table, TableEnd(p));
    UsedApart(t.segs, t.heap, q.table, TableEnd(q), p.seg, p.start, End(p));
  }

  /** Ranges in two different segments are apart. */
  lemma UsedApart(segs: map<nat, Segment>, b: nat, lo: nat, hi: nat, c: nat, l: nat, h: nat)
    requires SegsOk(segs) && InUsed(segs, b, lo, hi) && InUsed(segs, c, l, h)
    ensures b != c ==> Apart(lo, hi, l, h)
  {
    if b != c { assert !Overlap(b, segs[b].tot, c, segs[c].tot); }
  }

  predicate SameExtent(p: Pool, q: Pool)
    requires Shape(p) && Shape(q)
  {
    First(p) == First(q) && End(p) == End(q) && p.table == q.table && TableEnd(p) == TableEnd(q)
  }

  lemma LayoutIgnoresFree(s: State, t: State, p: Pool, free: seq<nat>)
    requires t.segs == s.segs && t.heap == s.heap && Placed(s, p) && |free| <= p.nbr && |free| < IX
    ensures Placed(t, p.(free := free)) && End(p.(free := free)) == End(p) && First(p.(free := free)) == First(p)
  {
  }

  /** Replacing the free list of one pool keeps the invariant. */
  lemma FreeListUpdateKeepsInv(s: State, i: nat, free: seq<nat>)
    requires Inv(s) && i < |s.pools| && |free| <= s.pools[i].nbr && |free| < IX
    requires PoolOk(s, i) && FreeListOk(s.pools[i].(free := free))
    ensures Inv(s.(pools := s.pools[i := s.pools[i].(free := free)]))
  {
    hide CalcTot, IsBlock, SegsOk;
    var t := s.(pools := s.pools[i := s.pools[i].(free := free)]);
    assert s.heap in s.segs;
    forall j | 0 <= j < |t.pools| ensures PoolOk(t, j) && SameExtent(t.pools[j], s.pools[j]) {
      assert PoolOk(s, j);
      LayoutIgnoresFree(s, t, s.pools[j], t.pools[j].free);
    }
    forall j, k | 0 <= j < k < |t.pools| ensures PoolsApart(t.pools[j], t.pools[k]) {
      assert PoolOk(t, j) && PoolOk(t, k) && PoolsApart(s.pools[j], s.pools[k]);
    }
  }

  lemma GetKeepsInv(s: State, i: nat, size: nat)
    requires Inv(s) && i < |s.pools|
    ensures Inv(Get(s, i, size).st)
  {
    hide CalcTot, BlockSeq, IsBlock;
    var p := s.pools[i];
    if Get(s, i, size).err == ErrNone {
      var q := p.(free := p.free[..|p.free| - 1]);
      assert PoolOk(s, i);
      assert FreeListOk(q) by { assert forall b :: Block(p, b) ==> Block(q, b); }
      FreeListUpdateKeepsInv(s, i, q.free);
    }
  }

  lemma FreeKeepsInv(s: State, i: nat, blk: Word)
    requires Inv(s) && i < |s.pools| && Shape(s.pools[i]) && FreeOk(s.pools[i], blk)
    ensures Inv(Free(s, i, blk).st)
  {
    hide CalcTot, BlockSeq, IsBlock, CheckAddr;
    var p := s.pools[i];
    if Free(s, i, blk).err == ErrNone {
      assert PoolOk(s, i);
      CheckAddrIff(p.start, p.nbr, p.size, p.align, blk);
      var q := p.(free := Pushed(p.free, blk));
      assert FreeListOk(q) by { assert forall b :: Block(p, b) ==> Block(q, b); }
      FreeListUpdateKeepsInv(s, i, q.free);
    }
  }

  /** The wrongly accepted address does not, unless the pool is full or the index wraps. */
  lemma FreeKeepsInvIff(s: State, i: nat, blk: Word)
    requires Inv(s) && i < |s.pools| && Shape(s.pools[i])
    ensures Inv(Free(s, i, blk).st) <==>
              FreeOk(s.pools[i], blk) || |s.pools[i].free| == s.pools[i].nbr || |s.pools[i].free| + 1 == IX
  {
    hide CalcTot, BlockSeq, IsBlock, CheckAddr, IsPhantom;
    var p := s.pools[i];
    PoolOkAt(s, i);
    if FreeOk(p, blk) {
      FreeKeepsInv(s, i, blk);
    } else {
      PhantomIsNoBlock(p, blk);
      PhantomIsTaken(s, i, blk);
      if Free(s, i, blk).err == ErrNone {
        if |p.free| + 1 == IX {
          assert FreeListOk(p.(free := []));
          FreeListUpdateKeepsInv(s, i, []);
        } else {
          FreedNotOk(s, i, blk);
        }
      }
    }
  }

  /** It is taken for a block that is out: only a full pool refuses it. */
  lemma PhantomIsTaken(s: State, i: nat, blk: Word)
    requires Inv(s) && i < |s.pools| && Shape(s.pools[i]) && !FreeOk(s.pools[i], blk)
    ensures Free(s, i, blk).err != ErrNone <==> |s.pools[i].free| == s.pools[i].nbr
  {
    hide CalcTot, BlockSeq, IsBlock, CheckAddr, Stride, AlignUp;
    var p := s.pools[i];
    PoolOkAt(s, i);
    PhantomIsNoBlock(p, blk);
    CheckAddrIff(p.start, p.nbr, p.size, p.align, blk);
    SegOkAt(s.segs, p.seg);
    assert blk >= p.start;
    forall k | 0 <= k < |p.free| ensures p.free[k] != blk {
      FreeIsBlock(s, i, k);
    }
  }

  lemma PhantomIsNoBlock(p: Pool, blk: Word)
    requires Shape(p) && !FreeOk(p, blk)
    ensures !Block(p, blk)
  {
    if Block(p, blk) { BlockBounds(p.start, p.nbr, p.size, p.align, blk); }
  }

  lemma FreedNotOk(s: State, i: nat, blk: Word)
    requires i < |s.pools| && Shape(s.pools[i]) && !Block(s.pools[i], blk)
    requires Free(s, i, blk).err == ErrNone && |s.pools[i].free| + 1 < IX
    ensures !Inv(Free(s, i, blk).st)
  {
    hide IsBlock, CalcTot, CheckAddr;
    var t := Free(s, i, blk).st;
    if Inv(t) {
      FreeIsBlock(t, i, |s.pools[i].free|);
    }
  }

  lemma FreeIsBlock(s: State, i: nat, k: nat)
    requires Inv(s) && i < |s.pools| && k < |s.pools[i].free|
    ensures Shape(s.pools[i]) && Block(s.pools[i], s.pools[i].free[k])
  {
    assert PoolOk(s, i);
  }

  // ----- runs

  datatype Op =
    | OpCreate(base: Word, memSize: Word, nbr: Word, size: Word, align: Word)
    | OpGet(pool: nat, size: Word)
    | OpFree(pool: nat, blk: Word)
    | OpWrite(pool: nat, blk: Word, offset: nat, v: Octet)

  datatype Outcome = OutCreate(err: Err, reqd: nat) | OutGet(err: Err, blk: nat) | OutFree(err: Err) | OutWrite

  predicate IsPoolIndex(s: State, i: nat) {
    i < |s.pools| && Shape(s.pools[i])
  }

  /** What callers respect: they name pools that there are, give back no wrongly accepted address, and
      write in blocks that they own. */
  ghost predicate OpOk(s: State, op: Op) {
    match op
    case OpCreate(base, memSize, nbr, size, align) => CreateOk(s, base, memSize, nbr, size, align)
    case OpGet(i, _) => IsPoolIndex(s, i)
    case OpFree(i, blk) => IsPoolIndex(s, i) && FreeOk(s.pools[i], blk)
    case OpWrite(i, blk, offset, _) => IsPoolIndex(s, i) && Outstanding(s.pools[i], blk) && offset < s.pools[i].size
  }

  ghost function Step(s: State, op: Op): State {
    match op
    case OpCreate(base, memSize, nbr, size, align) => Create(s, base, memSize, nbr, size, align).st
    case OpGet(i, size) => if IsPoolIndex(s, i) then Get(s, i, size).st else s
    case OpFree(i, blk) => if IsPoolIndex(s, i) then Free(s, i, blk).st else s
    case OpWrite(_, _, _, _) => s
  }

  ghost function Result(s: State, op: Op): Outcome {
    match op
    case OpCreate(base, memSize, nbr, size, align) =>
      var c := Create(s, base, memSize, nbr, size, align);
      OutCreate(c.err, c.reqd)
    case OpGet(i, size) =>
      if IsPoolIndex(s, i) then OutGet(Get(s, i, size).err, Get(s, i, size).blk) else OutGet(InvalidPool, 0)
    case OpFree(i, blk) => OutFree(if IsPoolIndex(s, i) then Free(s, i, blk).err else InvalidPool)
    case OpWrite(_, _, _, _) => OutWrite
  }

  ghost function Run(s: State, ops: seq<Op>): State {
    if ops == [] then s else Step(Run(s, ops[..|ops| - 1]), ops[|ops| - 1])
  }

  ghost function Results(s: State, ops: seq<Op>): seq<Outcome> {
    if ops == [] then []
    else Results(s, ops[..|ops| - 1]) + [Result(Run(s, ops[..|ops| - 1]), ops[|ops| - 1])]
  }

  ghost predicate RunOk(s: State, ops: seq<Op>) {
    ops == [] || (RunOk(s, ops[..|ops| - 1]) && OpOk(Run(s, ops[..|ops| - 1]), ops[|ops| - 1]))
  }

  lemma StepKeepsInv(s: State, op: Op)
    requires Inv(s) && OpOk(s, op)
    ensures Inv(Step(s, op))
  {
    match op
    case OpCreate(base, memSize, nbr, size, align) => CreateKeepsInv(s, base, memSize, nbr, size, align);
    case OpGet(i, size) => GetKeepsInv(s, i, size);
    case OpFree(i, blk) => FreeKeepsInv(s, i, blk);
    case OpWrite(_, _, _, _) =>
  }

  /** The invariant holds after every run. */
  lemma {:induction false} RunKeepsInv(s: State, ops: seq<Op>)
    requires Inv(s) && RunOk(s, ops)
    ensures Inv(Run(s, ops))
  {
    if ops != [] {
      RunKeepsInv(s, ops[..|ops| - 1]);
      StepKeepsInv(Run(s, ops[..|ops| - 1]), ops[|ops| - 1]);
    }
  }
}
