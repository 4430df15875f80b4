/** What the pools promise over every run of `PoolSpec`. */
module PoolSafety {
  import Arith
  import opened Words
  import PoolAlloc
  import opened PoolMath
  import opened PoolSpec

  // ----- no two owners

  /** Block `b` of pool `i` is aligned, lies in its pool's range and segment, and meets neither the pointer
      table of pool `j` nor its block `c`, unless that is the same block. */
  ghost predicate KeepsApart(t: State, i: nat, b: nat, j: nat, c: nat)
    requires i < |t.pools| && Shape(t.pools[i]) && j < |t.pools| && Shape(t.pools[j])
  {
    var p, q := t.pools[i], t.pools[j];
    && b % p.align == 0 && First(p) <= b && b + p.size <= End(p)
    && p.seg in t.segs && p.seg <= b && b + p.size <= p.seg + t.segs[p.seg].tot
    && Apart(b, b + p.size, q.table, TableEnd(q))
    && (Block(q, c) && (i != j || b != c) ==> Apart(b, b + p.size, c, c + q.size))
  }

  /** After every run: a block that is out is aligned, lies in its own pool's range inside a
      segment, and shares no octet with another block of any pool, out or free, nor with the
      pointer table of any pool. */
  lemma OwnersNeverMeet(s: State, ops: seq<Op>, i: nat, b: nat, j: nat, c: nat)
    requires Inv(s) && RunOk(s, ops)
    requires i < |Run(s, ops).pools| && Shape(Run(s, ops).pools[i]) && Outstanding(Run(s, ops).pools[i], b)
    requires j < |Run(s, ops).pools| && Shape(Run(s, ops).pools[j])
    ensures KeepsApart(Run(s, ops), i, b, j, c)
  {
    RunKeepsInv(s, ops);
    BlocksNeverMeet(Run(s, ops), i, b, j, c);
  }

  lemma BlocksNeverMeet(t: State, i: nat, b: nat, j: nat, c: nat)
    requires Inv(t) && i < |t.pools| && j < |t.pools|
    requires Shape(t.pools[i]) && Shape(t.pools[j]) && Block(t.pools[i], b)
    ensures KeepsApart(t, i, b, j, c)
  {
    hide CalcTot, AlignUp, IsBlock, BlockSeq;
    var p, q := t.pools[i], t.pools[j];
    BlockBounds(p.start, p.nbr, p.size, p.align, b);
    assert PoolOk(t, i) && PoolOk(t, j) && SegOk(p.seg, t.segs[p.seg]);
    if i < j { assert PoolsApart(p, q); } else if j < i { assert PoolsApart(q, p); }
    if Block(q, c) {
      BlockBounds(q.start, q.nbr, q.size, q.align, c);
      if i == j && b != c { BlocksDisjoint(p.start, p.nbr, p.size, p.align, b, c); }
    }
  }

  // ----- a pool is the finite set of its free blocks

  ghost function SetOf(xs: seq<nat>): set<nat> {
    set x | x in xs
  }

  lemma {:induction false} DistinctCard(xs: seq<nat>)
    requires Distinct(xs)
    ensures |SetOf(xs)| == |xs|
  {
    if xs != [] {
      var ys := xs[..|xs| - 1];
      DistinctCard(ys);
      assert xs == ys + [xs[|xs| - 1]];
      assert SetOf(xs) == SetOf(ys) + {xs[|xs| - 1]};
    }
  }

  ghost function BlockSet(p: Pool): set<nat>
    requires Shape(p)
  {
    SetOf(BlockSeq(p.start, p.nbr, p.size, p.align))
  }

  ghost function OutstandingSet(p: Pool): set<nat>
    requires Shape(p)
  {
    BlockSet(p) - SetOf(p.free)
  }

  lemma BlockSetHas(p: Pool, b: nat)
    requires Shape(p)
    ensures b in BlockSet(p) <==> Block(p, b)
    ensures b in OutstandingSet(p) <==> Outstanding(p, b)
  {
  }

  /** Free plus outstanding is always the set created. */
  lemma Conservation(p: Pool)
    requires Shape(p) && FreeListOk(p)
    ensures SetOf(p.free) <= BlockSet(p)
    ensures |BlockSet(p)| == p.nbr && |p.free| + |OutstandingSet(p)| == p.nbr
  {
    var blocks := BlockSeq(p.start, p.nbr, p.size, p.align);
    forall j, k | 0 <= j < k < |blocks| ensures blocks[j] != blocks[k] {
      BlockSeqDistinct(p.start, p.nbr, p.size, p.align, j, k);
    }
    DistinctCard(blocks);
    DistinctCard(p.free);
    forall x | x in SetOf(p.free) ensures x in BlockSet(p) { BlockSetHas(p, x); }
    assert OutstandingSet(p) + SetOf(p.free) == BlockSet(p);
    assert OutstandingSet(p) !! SetOf(p.free);
  }

  /** All blocks of a pool just created are free if and only if their number fits the index. */
  lemma CreatedAllFreeIff(s: State, base: nat, memSize: nat, nbr: nat, size: nat, align: nat)
    requires s.heap in s.segs && nbr >= 1 && size >= 1 && align >= 1
    requires var p := NewPool(s, base, memSize, nbr, size, align); Shape(p) && FreeListOk(p)
    ensures OutstandingSet(NewPool(s, base, memSize, nbr, size, align)) == {} <==> nbr < IX
  {
    hide CalcTot, BlockSeq;
    Conservation(NewPool(s, base, memSize, nbr, size, align));
  }

  // ----- Get and Free

  /** `Get` refuses exactly the sizes above that of the blocks, and else hands out a block that was not out,
      and that holds the octets asked for, unless all of them are out. */
  lemma GetHandsOutFreeBlock(s: State, i: nat, size: nat)
    requires Inv(s) && i < |s.pools| && Shape(s.pools[i])
    ensures var p, g := s.pools[i], Get(s, i, size);
            && Shape(g.st.pools[i])
            && (g.err == ErrNone ==>
                  && Block(p, g.blk) && !Outstanding(p, g.blk) && size <= p.size && g.blk + size <= End(p)
                  && OutstandingSet(g.st.pools[i]) == OutstandingSet(p) + {g.blk})
            && (g.err == InvalidBlkSize <==> size > p.size)
            && (g.err == NoneAvail <==> size <= p.size && OutstandingSet(p) == BlockSet(p))
            && (g.err == ErrNone <==> size <= p.size && OutstandingSet(p) != BlockSet(p))
            && (g.err != ErrNone ==> g.st == s && g.blk == 0)
  {
    hide CalcTot, IsBlock, BlockSeq;
    var p, g := s.pools[i], Get(s, i, size);
    assert PoolOk(s, i);
    AllOutIff(p);
    if g.err == ErrNone {
      PopFree(p);
      BlockSetHas(p, g.blk);
      BlockBounds(p.start, p.nbr, p.size, p.align, g.blk);
    }
  }

  lemma AllOutIff(p: Pool)
    requires Shape(p) && FreeListOk(p)
    ensures p.free == [] <==> OutstandingSet(p) == BlockSet(p)
  {
    Conservation(p);
    if p.free != [] { assert p.free[0] in SetOf(p.free); }
  }

  lemma PopFree(p: Pool)
    requires Shape(p) && FreeListOk(p) && p.free != []
    ensures var q, b := p.(free := p.free[..|p.free| - 1]), p.free[|p.free| - 1];
            Block(p, b) && OutstandingSet(q) == OutstandingSet(p) + {b} && b in p.free
  {
    hide CalcTot, BlockSeq;
    var q, b := p.(free := p.free[..|p.free| - 1]), p.free[|p.free| - 1];
    assert p.free == q.free + [b];
    assert SetOf(p.free) == SetOf(q.free) + {b};
    assert b !in SetOf(q.free);
    BlockSetHas(p, b);
    assert BlockSet(q) == BlockSet(p);
  }

  /** `Free` succeeds exactly on an outstanding block, or on the wrongly accepted address while the pool is
      not full. */
  lemma FreeTakesBackOutstanding(s: State, i: nat, blk: Word)
    requires Inv(s) && i < |s.pools| && Shape(s.pools[i])
    ensures var p, f := s.pools[i], Free(s, i, blk);
            && Shape(f.st.pools[i])
            && (f.err == ErrNone <==> Outstanding(p, blk) || (!FreeOk(p, blk) && |p.free| < p.nbr))
            && (f.err == ErrNone ==>
                  OutstandingSet(f.st.pools[i]) ==
                  (if |p.free| + 1 == IX then BlockSet(p) else OutstandingSet(p) - {blk}))
            && (f.err != ErrNone ==> f.st == s)
  {
    hide CalcTot, IsBlock, BlockSeq, CheckAddr, Stride;
    FreeSucceedsIff(s, i, blk);
    var p, f := s.pools[i], Free(s, i, blk);
    if f.err == ErrNone {
      assert SetOf(p.free + [blk]) == SetOf(p.free) + {blk};
      assert SetOf([]) == {};
      assert BlockSet(f.st.pools[i]) == BlockSet(p);
    }
  }

  lemma FreeSucceedsIff(s: State, i: nat, blk: Word)
    requires Inv(s) && i < |s.pools| && Shape(s.pools[i])
    ensures var p := s.pools[i];
            Free(s, i, blk).err == ErrNone <==> Outstanding(p, blk) || (!FreeOk(p, blk) && |p.free| < p.nbr)
  {
    hide CalcTot, IsBlock, BlockSeq, CheckAddr, Stride;
    var p := s.pools[i];
    PoolOkAt(s, i);
    if FreeOk(p, blk) {
      CheckAddrIff(p.start, p.nbr, p.size, p.align, blk);
      if Outstanding(p, blk) {
        BlockNotNull(s, i, blk);
        Conservation(p);
        BlockSetHas(p, blk);
        assert |OutstandingSet(p)| > 0;
      }
    } else {
      PhantomIsNoBlock(p, blk);
      PhantomIsTaken(s, i, blk);
    }
  }

  /** Which error a failing `Free` gives. */
  lemma FreeErrors(s: State, i: nat, blk: Word)
    requires Inv(s) && i < |s.pools| && Shape(s.pools[i])
    ensures var p, f := s.pools[i], Free(s, i, blk);
            && (f.err == NullPtr <==> blk == 0)
            && (f.err == PoolFull <==> blk != 0 && |p.free| == p.nbr)
            && (f.err == InvalidAddr <==> blk != 0 && |p.free| < p.nbr && !Outstanding(p, blk) && FreeOk(p, blk))
  {
    hide CalcTot, IsBlock, BlockSeq, CheckAddr, Stride;
    FreeSucceedsIff(s, i, blk);
    if s.pools[i].nbr > |s.pools[i].free| && blk == 0 {
      ZeroIsNoBlock(s, i);
    }
  }

  lemma ZeroIsNoBlock(s: State, i: nat)
    requires Inv(s) && i < |s.pools| && Shape(s.pools[i])
    ensures !Outstanding(s.pools[i], 0)
  {
    if Block(s.pools[i], 0) { BlockNotNull(s, i, 0); }
  }

  lemma BlockNotNull(s: State, i: nat, b: nat)
    requires Inv(s) && i < |s.pools| && Shape(s.pools[i]) && Block(s.pools[i], b)
    ensures b > 0
  {
    BlocksNeverMeet(s, i, b, i, b);
    assert SegOk(s.pools[i].seg, s.segs[s.pools[i].seg]);
  }

  /** Freeing a block and asking again returns that block and the state before, unless the index, which
      has 16 bits, wraps. */
  lemma FreeThenGet(s: State, i: nat, blk: Word, size: nat)
    requires Inv(s) && i < |s.pools| && Shape(s.pools[i])
    requires Outstanding(s.pools[i], blk) && size <= s.pools[i].size
    ensures var f := Free(s, i, blk);
            f.err == ErrNone
            && Get(f.st, i, size) ==
               if |s.pools[i].free| + 1 < IX then Got(s, ErrNone, blk) else Got(f.st, NoneAvail, 0)
  {
    hide CalcTot, IsBlock, BlockSeq, CheckAddr;
    var p, f := s.pools[i], Free(s, i, blk);
    BlockIsNoPhantom(p, blk);
    FreeTakesBackOutstanding(s, i, blk);
    assert (p.free + [blk])[..|p.free|] == p.free;
    assert s.pools[i := f.st.pools[i]][i := p] == s.pools;
  }

  lemma BlockIsNoPhantom(p: Pool, blk: Word)
    requires Shape(p) && Block(p, blk)
    ensures FreeOk(p, blk)
  {
    BlockBounds(p.start, p.nbr, p.size, p.align, blk);
  }

  /** Handing a block out and taking it back restores the state. */
  lemma GetThenFree(s: State, i: nat, size: nat)
    requires Inv(s) && i < |s.pools| && Get(s, i, size).err == ErrNone
    requires Shape(s.pools[i]) && Shape(Get(s, i, size).st.pools[i])
    ensures var g := Get(s, i, size);
            g.blk < W32 && Free(g.st, i, g.blk) == Freed(s, ErrNone)
  {
    hide CalcTot, IsBlock, BlockSeq, CheckAddr;
    var p, g := s.pools[i], Get(s, i, size);
    assert PoolOk(s, i) && Block(p, g.blk);
    BlocksNeverMeet(s, i, g.blk, i, g.blk);
    assert SegOk(p.seg, s.segs[p.seg]);
    GetHandsOutFreeBlock(s, i, size);
    GetKeepsInv(s, i, size);
    BlockSetHas(g.st.pools[i], g.blk);
    BlockIsNoPhantom(g.st.pools[i], g.blk);
    FreeTakesBackOutstanding(g.st, i, g.blk);
    assert p.free == p.free[..|p.free| - 1] + [g.blk];
    assert s.pools[i := g.st.pools[i]][i := p] == s.pools;
  }

  // ----- whole runs

  /** One step changes neither the layout of a pool nor the size of a segment, and never
      moves a segment's next available address back. */
  ghost predicate Grows(s: State, t: State) {
    && s.heap == t.heap && s.segs.Keys <= t.segs.Keys && |s.pools| <= |t.pools|
    && (forall b :: b in s.segs ==> t.segs[b].tot == s.segs[b].tot && s.segs[b].next <= t.segs[b].next)
    && (forall i :: 0 <= i < |s.pools| ==> t.pools[i] == s.pools[i].(free := t.pools[i].free))
  }

  lemma StepGrows(s: State, op: Op)
    requires Inv(s) && OpOk(s, op)
    ensures Grows(s, Step(s, op))
  {
    hide CalcTot, IsBlock, BlockSeq, CheckAddr, AlignUp, Inv, Create, SegsOk, Spend, SegsAfter, Passes;
    match op
    case OpCreate(base, memSize, nbr, size, blkAlign) =>
      var align := EffectiveAlign(blkAlign);
      PassesIff(s, base, memSize, nbr, size, blkAlign);
      if Passes(s, base, memSize, nbr, size, align) {
        InvSegs(s);
        CarvedGrows(s, base, memSize, nbr, size, blkAlign);
      }
    case OpGet(i, size) =>
    case OpFree(i, blk) =>
    case OpWrite(_, _, _, _) =>
  }

  lemma CarvedGrows(s: State, base: nat, memSize: nat, nbr: nat, size: nat, blkAlign: nat)
    requires SegsOk(s.segs) && CreateFits(s, base, memSize, nbr, size, blkAlign)
    requires Passes(s, base, memSize, nbr, size, EffectiveAlign(blkAlign))
    ensures Grows(s, Carved(s, base, memSize, nbr, size, EffectiveAlign(blkAlign)).st)
  {
    hide CalcTot, BlockSeq, SegsOk, Spend, SegsAfter;
    PassesLeavesRoom(s, base, memSize, nbr, size, EffectiveAlign(blkAlign));
    SegsAfterOk(s, base, memSize, nbr, size, EffectiveAlign(blkAlign));
  }

  lemma {:induction false} RunGrows(s: State, ops: seq<Op>)
    requires Inv(s) && RunOk(s, ops)
    ensures Grows(s, Run(s, ops))
  {
    if ops != [] {
      var init := ops[..|ops| - 1];
      RunGrows(s, init);
      RunKeepsInv(s, init);
      StepGrows(Run(s, init), ops[|ops| - 1]);
    }
  }

  /** A block stays out until a `Free` names it. */
  lemma {:induction false} OutUntilFreed(s: State, ops: seq<Op>, i: nat, b: Word)
    requires Inv(s) && RunOk(s, ops) && i < |s.pools| && Shape(s.pools[i]) && Outstanding(s.pools[i], b)
    requires OpFree(i, b) !in ops
    ensures i < |Run(s, ops).pools| && Shape(Run(s, ops).pools[i]) && Outstanding(Run(s, ops).pools[i], b)
  {
    RunGrows(s, ops);
    RunKeepsInv(s, ops);
    assert PoolOk(Run(s, ops), i);
    if ops != [] {
      var init, op := ops[..|ops| - 1], ops[|ops| - 1];
      assert op in ops && forall o :: o in init ==> o in ops;
      OutUntilFreed(s, init, i, b);
      RunKeepsInv(s, init);
      OutAfterStep(Run(s, init), op, i, b);
    }
  }

  lemma OutAfterStep(s: State, op: Op, i: nat, b: Word)
    requires Inv(s) && OpOk(s, op) && i < |s.pools| && Shape(s.pools[i]) && Outstanding(s.pools[i], b)
    requires op != OpFree(i, b)
    ensures i < |Step(s, op).pools| && Shape(Step(s, op).pools[i]) && Outstanding(Step(s, op).pools[i], b)
  {
    hide CalcTot, IsBlock, BlockSeq, CheckAddr, AlignUp;
    StepGrows(s, op);
    StepKeepsInv(s, op);
    assert PoolOk(Step(s, op), i);
  }

  /** In a run without a `Free` of it, a block that is out is never handed out again. */
  lemma NoSecondOwner(s: State, ops: seq<Op>, i: nat, b: Word, k: nat)
    requires Inv(s) && RunOk(s, ops) && i < |s.pools| && Shape(s.pools[i]) && Outstanding(s.pools[i], b)
    requires OpFree(i, b) !in ops && k < |ops| && ops[k].OpGet? && ops[k].pool == i
    ensures RunOk(s, ops[..k]) && i < |Run(s, ops[..k]).pools|
    ensures var g := Get(Run(s, ops[..k]), i, ops[k].size);
            g.err == ErrNone ==> g.blk != b
  {
    RunOkPrefix(s, ops, k);
    forall o | o in ops[..k] ensures o in ops { }
    OutUntilFreed(s, ops[..k], i, b);
  }

  lemma {:induction false} RunOkPrefix(s: State, ops: seq<Op>, k: nat)
    requires RunOk(s, ops) && k <= |ops|
    ensures RunOk(s, ops[..k])
  {
    if k < |ops| {
      RunOkPrefix(s, ops[..|ops| - 1], k);
      assert ops[..|ops| - 1][..k] == ops[..k];
    } else {
      assert ops[..k] == ops;
    }
  }

  // ----- power-of-two alignments

  predicate PowerOfTwoPools(s: State) {
    forall i :: 0 <= i < |s.pools| ==> IsPowerOfTwo(s.pools[i].align)
  }

  /** With a power-of-two alignment nothing is asked of the address that is given back. */
  ghost predicate CallOk(s: State, op: Op) {
    match op
    case OpCreate(base, memSize, nbr, size, align) =>
      CreateOk(s, base, memSize, nbr, size, align) && IsPowerOfTwo(EffectiveAlign(align))
    case OpGet(i, _) => IsPoolIndex(s, i)
    case OpFree(i, _) => IsPoolIndex(s, i)
    case OpWrite(_, _, _, _) => OpOk(s, op)
  }

  ghost predicate CallsOk(s: State, ops: seq<Op>) {
    ops == [] || (CallsOk(s, ops[..|ops| - 1]) && CallOk(Run(s, ops[..|ops| - 1]), ops[|ops| - 1]))
  }

  lemma AnyAddressMayBeFreed(s: State, op: Op)
    requires Inv(s) && PowerOfTwoPools(s) && CallOk(s, op)
    ensures OpOk(s, op) && PowerOfTwoPools(Step(s, op))
  {
    hide CalcTot, BlockSeq, IsBlock, CheckAddr, IsPhantom, IsPowerOfTwo, Create, Passes, Inv, SegsAfter, Fits, CreateOk;
    match op
    case OpCreate(base, memSize, nbr, size, align) => PassesIff(s, base, memSize, nbr, size, align);
    case OpGet(i, _) =>
    case OpFree(i, blk) =>
      NoPhantomForPowerOfTwo(s.pools[i].start, s.pools[i].size, s.pools[i].align, blk);
    case OpWrite(_, _, _, _) =>
  }

  /** Every run with power-of-two alignments is one that the other results speak of. */
  lemma {:induction false} PowerOfTwoRun(s: State, ops: seq<Op>)
    requires Inv(s) && PowerOfTwoPools(s) && CallsOk(s, ops)
    ensures RunOk(s, ops) && PowerOfTwoPools(Run(s, ops))
  {
    hide CallOk, OpOk, PowerOfTwoPools, Step;
    if ops != [] {
      PowerOfTwoRun(s, ops[..|ops| - 1]);
      RunKeepsInv(s, ops[..|ops| - 1]);
      AnyAddressMayBeFreed(Run(s, ops[..|ops| - 1]), ops[|ops| - 1]);
    }
  }

  /** From `Mem_Init` on, whatever addresses are given back: no block that is out meets another block of
      any pool or the pointer table of any pool. */
  lemma PowerOfTwoOwnersNeverMeet(heap: nat, heapSize: nat, ops: seq<Op>, i: nat, b: nat, j: nat, c: nat)
    requires heap > 0 && heapSize > 0 && heap + heapSize < W32 && CallsOk(InitState(heap, heapSize), ops)
    requires var t := Run(InitState(heap, heapSize), ops);
             && i < |t.pools| && Shape(t.pools[i]) && Outstanding(t.pools[i], b)
             && j < |t.pools| && Shape(t.pools[j])
    ensures KeepsApart(Run(InitState(heap, heapSize), ops), i, b, j, c)
  {
    hide Inv, Outstanding, KeepsApart, CallsOk, RunOk, Shape;
    InitKeepsInv(heap, heapSize);
    PowerOfTwoRun(InitState(heap, heapSize), ops);
    RunKeepsInv(InitState(heap, heapSize), ops);
    OwnersNeverMeet(InitState(heap, heapSize), ops, i, b, j, c);
  }

  // ----- running out of memory

  /** With `x` more octets in the heap segment. */
  function MoreHeap(s: State, x: nat): State
    requires s.heap in s.segs
  {
    var heap := s.segs[s.heap];
    s.(segs := s.segs[s.heap := heap.(tot := heap.tot + x)])
  }

  /** Pointer table and blocks of a heap pool. */
  function HeapTotal(s: State, nbr: nat, size: nat, align: nat): nat
    requires s.heap in s.segs && nbr >= 1 && size >= 1 && align >= 1
  {
    TableTot(s, nbr) + CalcTot(PoolStart(s, 0, 0, nbr), nbr, size, align)
  }

  /** How much more heap the call needs; what it reports is that, if and only if the total does not wrap. */
  lemma ShortfallIsLeastIff(s: State, memSize: nat, nbr: nat, size: nat, blkAlign: nat, x: nat)
    requires Inv(s) && Create(s, 0, memSize, nbr, size, blkAlign).err == HeapEmpty
    ensures var c, align := Create(s, 0, memSize, nbr, size, blkAlign), EffectiveAlign(blkAlign);
            && nbr >= 1 && size >= 1 && s.heap in s.segs && c.st == s && c.reqd > 0
            && var short := HeapTotal(s, nbr, size, align) - Rem(s.heap, s.segs[s.heap]);
               && (CreateFits(MoreHeap(s, x), 0, memSize, nbr, size, blkAlign) ==>
                     (Create(MoreHeap(s, x), 0, memSize, nbr, size, blkAlign).err == ErrNone <==> x >= short))
               && (c.reqd == short <==> HeapTotal(s, nbr, size, align) < W32)
  {
    hide CalcTot, AlignUp, BlockSeq, Inv, Carved;
    InvSegs(s);
    var align := EffectiveAlign(blkAlign);
    PassesIff(s, 0, memSize, nbr, size, blkAlign);
    CarvedErr(s, 0, memSize, nbr, size, align);
    assert nbr >= 1 && size >= 1 && s.heap in s.segs;
    var h, tot := MoreHeap(s, x), HeapTotal(s, nbr, size, align);
    assert h.segs[s.heap].next == s.segs[s.heap].next;
    assert PoolStart(h, 0, memSize, nbr) == PoolStart(s, 0, memSize, nbr);
    PassesIff(h, 0, memSize, nbr, size, blkAlign);
    CarvedErr(h, 0, memSize, nbr, size, align);
    WrapAtMost(tot);
  }

  lemma CarvedErr(s: State, base: nat, memSize: nat, nbr: nat, size: nat, align: nat)
    ensures s.heap in s.segs && nbr >= 1 && size >= 1 && align >= 1 ==>
              Carved(s, base, memSize, nbr, size, align).err ==
              if Fits(s, base, memSize, nbr, size, align) then ErrNone else SegEmpty
  {
    hide CalcTot, Fits;
  }

  lemma WrapAtMost(x: nat)
    ensures Wrap(x) <= x && (Wrap(x) == x <==> x < W32)
  {
  }

  /** A creation that fails changes something if and only if the size tests are passed by a request that
      does not fit; then the octets of the pointer table, at least, are lost. */
  lemma FailureSpendsIff(s: State, base: nat, memSize: nat, nbr: nat, size: nat, blkAlign: nat)
    requires Inv(s) && CreateFits(s, base, memSize, nbr, size, blkAlign)
    ensures var c, align := Create(s, base, memSize, nbr, size, blkAlign), EffectiveAlign(blkAlign);
            && (c.err != ErrNone && c.st != s <==> Spends(s, base, memSize, nbr, size, align))
            && (Spends(s, base, memSize, nbr, size, align) ==>
                  c.err == SegEmpty && c.reqd == 0 && c.st.pools == s.pools && s.heap in c.st.segs
                  && c.st.segs[s.heap].next >= s.segs[s.heap].next + TableTot(s, nbr))
  {
    hide CalcTot, AlignUp, BlockSeq, Inv, Create, Admits, OverlapsOther, SegsAfter;
    InvSegs(s);
    var align := EffectiveAlign(blkAlign);
    PassesIff(s, base, memSize, nbr, size, blkAlign);
    SpendsIff(s, base, memSize, nbr, size, align);
    if Passes(s, base, memSize, nbr, size, align) {
      PassesLeavesRoom(s, base, memSize, nbr, size, align);
      SegsAfterOk(s, base, memSize, nbr, size, align);
    }
  }

  /** Which requests these are: those whose total wraps to a number that remains and, of those for the
      heap by its own address, where table and blocks are compared with what remains separately, also
      those whose sum does not remain. */
  ghost predicate Spends(s: State, base: nat, memSize: nat, nbr: nat, size: nat, align: nat) {
    && s.heap in s.segs && nbr >= 1 && size >= 1 && align >= 1 && (base != 0 ==> memSize >= 1)
    && var heapRem, start := Rem(s.heap, s.segs[s.heap]), PoolStart(s, base, memSize, nbr);
       var poolTot := CalcTot(start, nbr, size, align);
       if base == 0 then HeapTotal(s, nbr, size, align) >= W32 && Admits(HeapTotal(s, nbr, size, align), heapRem)
       else
         && !OverlapsOther(s, base, memSize) && TableTot(s, nbr) <= heapRem
         && Admits(poolTot, memSize - (start - base))
         && if InHeap(s, base, memSize) then HeapTotal(s, nbr, size, align) > heapRem else poolTot >= W32
  }

  lemma SpendsIff(s: State, base: nat, memSize: nat, nbr: nat, size: nat, align: nat)
    requires SegsOk(s.segs) && (base != 0 ==> base + memSize < W32)
    ensures Spends(s, base, memSize, nbr, size, align) <==>
              Passes(s, base, memSize, nbr, size, align) && !Fits(s, base, memSize, nbr, size, align)
  {
    hide CalcTot, OverlapsOther, SegsOk;
    if s.heap in s.segs && nbr >= 1 && size >= 1 && align >= 1 {
      SegOkAt(s.segs, s.heap);
      if base in s.segs { SegOkAt(s.segs, base); }
      WrapAtMost(HeapTotal(s, nbr, size, align));
      WrapAtMost(CalcTot(PoolStart(s, base, memSize, nbr), nbr, size, align));
    }
  }

  /** An initialised heap, from which `nbr` blocks are asked that do not fit though the tests are passed:
      `k` of them do. */
  lemma SpentExample(heap: nat, heapSize: nat, base: nat, nbr: nat, size: nat, k: nat, tot: nat, spent: nat)
    requires heap > 0 && heap % 4 == 0 && size % 4 == 0 && size >= 4 && heapSize > 0 && heap + heapSize < W32
    requires base == 0 || base == heap
    requires k < nbr && tot == nbr * size && spent == k * size
    requires 4 * nbr + spent <= heapSize < 4 * nbr + spent + size
    requires Admits(if base == 0 then 4 * nbr + tot else tot, heapSize)
    ensures Create(InitState(heap, heapSize), base, heapSize, nbr, size, 4)
         == Created(State(heap, map[heap := Segment(heapSize, heap + 4 * nbr + spent)], []), SegEmpty, 0)
  {
    hide CalcTot, Spend, AlignUp, NextAfter, Create, Admits;
    var s := InitState(heap, heapSize);
    var c := heap + 4 * nbr;
    AlignedTotal(heap, nbr, 4);
    AlignedTotal(heap, nbr, size);
    AlignedTotal(c, nbr, size);
    AlignedNextAfter(c, k, size);
    AlignedMultiple(c, k, size);
    Arith.MulMono(k + 1, nbr, size);
    assert tot >= spent + size by { assert (k + 1) * size == k * size + size; }
    PassesIff(s, base, heapSize, nbr, size, 4);
    assert !OverlapsOther(s, heap, heapSize);
    SpendSome(c, heapSize - 4 * nbr, nbr, size, 4, k);
  }

  lemma AlignedTotal(a: nat, n: nat, size: nat)
    requires a % 4 == 0 && size % 4 == 0 && size >= 4 && n >= 1
    ensures CalcTot(a, n, size, 4) == n * size && AlignUp(a, 4) == a
  {
    PoolAlloc.AlignedTotal(a, n, size, 4);
  }

  lemma {:induction false} AlignedNextAfter(a: nat, k: nat, size: nat)
    requires a % 4 == 0 && size % 4 == 0 && size >= 4
    ensures NextAfter(a, k, size, 4) == a + k * size
    decreases k
  {
    hide AlignUp;
    AlignUpOfAligned(a, 4, 4);
    if k > 0 {
      AlignedNextAfter(a + size, k - 1, size);
      assert (k - 1) * size + size == k * size;
    }
  }

  lemma AlignedMultiple(a: nat, k: nat, size: nat)
    requires a % 4 == 0 && size % 4 == 0
    ensures a + k * size >= a && AlignUp(a + k * size, 4) == a + k * size
  {
    hide AlignUp;
    Arith.MulNonNeg(k, size);
    Arith.MultiplesAligned(a, k, size, 4);
    AlignUpOfAligned(a + k * size, 4, 4);
  }

  /** Four blocks of a gigabyte, asked of a heap of four kilobytes: the total wraps to the 16 octets of the
      pointer table, which are lost. */
  lemma WrappedTotalExample()
    ensures Create(InitState(0x1000, 0x1000), 0, 0x1000, 4, 0x4000_0000, 4)
         == Created(State(0x1000, map[0x1000 := Segment(0x1000, 0x1010)], []), SegEmpty, 0)
  {
    hide Create;
    assert Admits(16 + W32, 0x1000);
    SpentExample(0x1000, 0x1000, 0, 4, 0x4000_0000, 0, W32, 0);
  }

  /** Four blocks of 16 octets, asked of a heap of 64 octets by its own address: table and blocks fit, but
      not both, and the whole heap is lost. */
  lemma ByAddressSpendsExample()
    ensures Create(InitState(0x1000, 0x40), 0x1000, 0x40, 4, 16, 4)
         == Created(State(0x1000, map[0x1000 := Segment(0x40, 0x1040)], []), SegEmpty, 0)
  {
    hide Create;
    assert Admits(64, 0x40);
    SpentExample(0x1000, 0x40, 0x1000, 4, 16, 3, 64, 48);
  }

  // ----- the same in thirty-two bits

  function HeapAccount(s: State): PoolAlloc.Account
    requires s.heap in s.segs && SegOk(s.heap, s.segs[s.heap])
  {
    PoolAlloc.Account(s.segs[s.heap].next, Rem(s.heap, s.segs[s.heap]))
  }

  /** While the end of the pointer table does not wrap, what this model leaves out is exactly the pointer
      table that is null. */
  lemma TableLostIff(s: State, nbr: Word, size: Word, align: Word)
    requires s.heap in s.segs && SegOk(s.heap, s.segs[s.heap]) && nbr >= 1 && size >= 1 && align >= 1
    requires s.segs[s.heap].next + TableTot(s, nbr) < W32
    ensures var r := PoolAlloc.HeapRequest(HeapAccount(s), nbr, size, align);
            TableLost(s, nbr, size, align) <==> r.Started? && r.table == 0
  {
    hide CalcTot, PoolAlloc.HeapRequest, Wrap;
    var a := HeapAccount(s);
    PoolAlloc.PointersNullIff(a, nbr, size, align);
    PartsExact(s, nbr, size, align);
  }

  /** The total that is tested is the exact one modulo 2^32. */
  lemma PartsExact(s: State, nbr: Word, size: Word, align: Word)
    requires s.heap in s.segs && SegOk(s.heap, s.segs[s.heap]) && nbr >= 1 && size >= 1 && align >= 1
    requires s.segs[s.heap].next + TableTot(s, nbr) < W32
    ensures var a := HeapAccount(s);
            && PoolAlloc.TablePart(a, nbr) == TableTot(s, nbr)
            && Wrap(PoolAlloc.TablePart(a, nbr) + PoolAlloc.BlocksPart(a, nbr, size, align))
               == Wrap(HeapTotal(s, nbr, size, align))
  {
    hide CalcTot, Wrap;
    WrapSmall(TableTot(s, nbr));
    WrapSmall(s.segs[s.heap].next + TableTot(s, nbr));
    WrapAdd(CalcTot(PoolStart(s, 0, 0, nbr), nbr, size, align), TableTot(s, nbr));
  }

  /** A creation from the heap with thirty-two bits throughout has the outcome that this model gives. */
  lemma HeapRequestAgrees(s: State, memSize: Word, nbr: Word, size: Word, blkAlign: Word)
    requires Inv(s) && s.heap in s.segs && nbr >= 1 && size >= 1 && CreateFits(s, 0, memSize, nbr, size, blkAlign)
    ensures SegOk(s.heap, s.segs[s.heap])
    ensures var c := Create(s, 0, memSize, nbr, size, blkAlign);
            match PoolAlloc.HeapRequest(HeapAccount(s), nbr, size, EffectiveAlign(blkAlign))
            case Refused(reqd) => c.err == HeapEmpty && c.reqd == reqd
            case Started(table, carving) =>
              && table == AlignUp(s.segs[s.heap].next, WORD_OCTETS) && s.heap in c.st.segs
              && c.st.segs[s.heap].next == carving.account.next && (c.err == ErrNone <==> carving.done == nbr)
  {
    hide CalcTot, Wrap, AlignUp, Inv, Spend, BlockSeq, NewPool, Passes, TotalsOk, CreateFits, Create;
    hide PoolAlloc.HeapRequest;
    var align, t := EffectiveAlign(blkAlign), TableTot(s, nbr);
    var a := HeapAccountOf(s);
    TestedIff(s, memSize, nbr, size, blkAlign);
    if Passes(s, 0, memSize, nbr, size, align) {
      RunAgrees(s, memSize, nbr, size, blkAlign);
    }
  }

  lemma TestedIff(s: State, memSize: Word, nbr: Word, size: Word, blkAlign: Word)
    requires s.heap in s.segs && SegOk(s.heap, s.segs[s.heap]) && nbr >= 1 && size >= 1
    requires CreateFits(s, 0, memSize, nbr, size, blkAlign)
    ensures var c, r := Create(s, 0, memSize, nbr, size, blkAlign),
                        PoolAlloc.HeapRequest(HeapAccount(s), nbr, size, EffectiveAlign(blkAlign));
            if Passes(s, 0, memSize, nbr, size, EffectiveAlign(blkAlign))
            then r.Started? && c == Carved(s, 0, memSize, nbr, size, EffectiveAlign(blkAlign))
            else r.Refused? && c.err == HeapEmpty && c.reqd == r.reqd
  {
    hide CalcTot, Wrap, Carved, TotalsOk, PoolAlloc.TablePart, PoolAlloc.BlocksPart, PoolAlloc.AllocateRun;
    PartsExact(s, nbr, size, EffectiveAlign(blkAlign));
  }

  lemma RunAgrees(s: State, memSize: Word, nbr: Word, size: Word, blkAlign: Word)
    requires SegsOk(s.segs) && s.heap in s.segs && SegOk(s.heap, s.segs[s.heap]) && nbr >= 1 && size >= 1
    requires CreateFits(s, 0, memSize, nbr, size, blkAlign)
    requires Passes(s, 0, memSize, nbr, size, EffectiveAlign(blkAlign))
    ensures var align := EffectiveAlign(blkAlign);
            var c := Carved(s, 0, memSize, nbr, size, align);
            var r := PoolAlloc.HeapRequest(HeapAccount(s), nbr, size, align);
            r.Started? ==>
              && r.table == AlignUp(s.segs[s.heap].next, WORD_OCTETS) && s.heap in c.st.segs
              && c.st.segs[s.heap].next == r.carving.account.next && (c.err == ErrNone <==> r.carving.done == nbr)
  {
    hide CalcTot, Wrap, AlignUp, Spend, BlockSeq, NewPool, Passes, PoolAlloc.Allocate, PoolAlloc.AllocateRun;
    hide PoolAlloc.TablePart, PoolAlloc.BlocksPart;
    var align, a, t := EffectiveAlign(blkAlign), HeapAccount(s), TableTot(s, nbr);
    PassesLeavesRoom(s, 0, memSize, nbr, size, align);
    TableBounds(a.next, nbr);
    WrapSmall(WORD_OCTETS * nbr);
    PoolAlloc.AllocateAt(a, WORD_OCTETS * nbr, WORD_OCTETS);
    PoolAlloc.CarveExact(PoolAlloc.Account(a.next + t, a.rem - t), nbr, size, align);
  }

  lemma HeapAccountOf(s: State) returns (a: PoolAlloc.Account)
    requires Inv(s) && s.heap in s.segs
    ensures SegsOk(s.segs) && SegOk(s.heap, s.segs[s.heap]) && a == HeapAccount(s)
  {
    a := HeapAccount(s);
  }

  // ----- more blocks than the index counts

  /** The pool made of all words of an initialised heap behind its pointer table. */
  function FirstPool(heap: nat, start: nat, nbr: nat): (p: Pool)
    ensures p.seg == heap && p.start == start && p.table == heap && p.nbr == nbr && p.size == p.align == 4
    ensures |p.free| == nbr % IX
    ensures forall k :: 0 <= k < nbr % IX ==> p.free[k] == BlockSeq(heap + 4 * nbr, nbr, 4, 4)[k]
  {
    Pool(heap, start, heap, nbr, 4, 4, BlockSeq(heap + 4 * nbr, nbr, 4, 4)[..nbr % IX])
  }

  /** An initialised heap, from which blocks of a word are asked that fit. */
  lemma FirstCreation(heap: nat, heapSize: nat, base: nat, nbr: nat)
    requires heap > 0 && heap % 4 == 0 && nbr >= 1 && heap + heapSize < W32 && 8 * nbr <= heapSize
    requires base == 0 || base == heap
    ensures Create(InitState(heap, heapSize), base, heapSize, nbr, 4, 4)
         == Created(State(heap, map[heap := Segment(heapSize, heap + 8 * nbr)],
                          [FirstPool(heap, if base == 0 then heap + 4 * nbr else heap, nbr)]), ErrNone, 0)
  {
    hide CalcTot, Spend, AlignUp, Create, Wrap, BlockSeq;
    var s := InitState(heap, heapSize);
    AlignedTotal(heap, nbr, 4);
    AlignedTotal(heap + 4 * nbr, nbr, 4);
    PassesIff(s, base, heapSize, nbr, 4, 4);
    assert !OverlapsOther(s, heap, heapSize);
    WrapSmall(8 * nbr);
    WrapSmall(4 * nbr);
    SpendAll(heap + 4 * nbr, heapSize - 4 * nbr, nbr, 4, 4);
  }

  /** A pool of 65536 blocks, or a multiple of that, is created, and has none to hand out. */
  lemma LargePoolIsEmpty(heap: nat, heapSize: nat, nbr: nat)
    requires heap > 0 && heap % 4 == 0 && nbr >= 1 && heap + heapSize < W32 && 8 * nbr <= heapSize
    requires nbr % IX == 0
    ensures var c := Create(InitState(heap, heapSize), 0, heapSize, nbr, 4, 4);
            c.err == ErrNone && |c.st.pools| == 1 && c.st.pools[0].nbr == nbr && Get(c.st, 0, 4).err == NoneAvail
  {
    hide Create, FirstPool;
    FirstCreation(heap, heapSize, 0, nbr);
  }

  /** A pool of 131071 blocks, say, is created with 65535 of them free.  Its last block, which was never handed
      out, is accepted by `Free`, and then none is free. */
  lemma IndexWrapLosesAll(heap: nat, heapSize: nat, nbr: nat)
    requires heap > 0 && heap % 4 == 0 && heap + heapSize < W32 && 8 * nbr <= heapSize
    requires nbr % IX == IX - 1 && nbr > IX
    ensures var c := Create(InitState(heap, heapSize), 0, heapSize, nbr, 4, 4);
            && c.err == ErrNone && |c.st.pools| == 1 && c.st.pools[0] == FirstPool(heap, heap + 4 * nbr, nbr)
            && var f := Free(c.st, 0, heap + 8 * nbr - 4);
               f.err == ErrNone && f.st.pools[0].free == []
  {
    hide Create, BlockSeq, CalcTot, CheckAddr, FirstPool;
    FirstCreation(heap, heapSize, 0, nbr);
    LastIsAccepted(heap + 4 * nbr, nbr, heap + 8 * nbr - 4);
  }

  /** The last of `n` blocks of a word passes the check, and is none of those before it. */
  lemma LastIsAccepted(start: nat, n: nat, last: Word)
    requires n >= 1 && start % 4 == 0 && last == start + 4 * (n - 1) && last + 4 <= W32
    ensures CheckAddr(start, CalcTot(start, n, 4, 4), 4, 4, last)
    ensures forall k :: 0 <= k < n - 1 ==> BlockSeq(start, n, 4, 4)[k] != last
  {
    hide CalcTot, BlockSeq, CheckAddr, IsPhantom, Stride, AlignUp, IsBlock;
    AlignedTotal(start, n, 4);
    WordBlockAt(start, n, n - 1);
    NthIsBlock(start, n, 4, 4, n - 1);
    CheckAddrIff(start, n, 4, 4, last);
    forall k | 0 <= k < n - 1 ensures BlockSeq(start, n, 4, 4)[k] != last {
      WordBlockAt(start, n, k);
    }
  }

  lemma WordBlockAt(start: nat, n: nat, k: nat)
    requires start % 4 == 0 && k < n
    ensures BlockSeq(start, n, 4, 4)[k] == start + 4 * k
  {
    hide BlockSeq, Stride, AlignUp;
    WordFacts(start);
    BlockSeqAt(start, n, 4, 4, k);
  }

  lemma WordFacts(a: nat)
    requires a % 4 == 0
    ensures Stride(4, 4) == 4 && AlignUp(a, 4) == a
  {
  }

  lemma NthIsBlock(start: nat, n: nat, size: nat, align: nat, k: nat)
    requires size >= 1 && align >= 1 && k < n
    ensures IsBlock(start, n, size, align, BlockSeq(start, n, size, align)[k])
  {
    hide BlockSeq;
  }

  // ----- the heap named by its own address

  /** Asked for the heap by address, the creation records the range that starts where the
      pointer table goes and carves the blocks behind the table.  The address check then
      recognises the carved blocks if and only if the table fits in front of the first
      aligned address, and no other address passes for a block. */
  lemma HeapByAddressCheckIff(next: nat, nbr: nat, size: nat, align: nat)
    requires nbr >= 1 && size >= 1 && align >= 1
    requires next + CalcTot(next, nbr, size, align) <= W32
    requires var start := next + CalcTot(next, nbr, WORD_OCTETS, WORD_OCTETS);
             start + CalcTot(start, nbr, size, align) <= W32
    ensures var start := next + CalcTot(next, nbr, WORD_OCTETS, WORD_OCTETS);
            (forall b: Word :: CheckAddr(next, CalcTot(next, nbr, size, align), size, align, b)
                               <==> IsBlock(start, nbr, size, align, b))
            <==> AlignUp(next, align) == AlignUp(start, align)
                 && (W32 % Stride(size, align) == 0 || W32 % Stride(size, align) > AlignOffset(next, align))
  {
    hide CalcTot, BlockSeq, IsBlock, AlignUp, CheckAddr, Stride, AlignOffset;
    var start := next + CalcTot(next, nbr, WORD_OCTETS, WORD_OCTETS);
    var first, tot := AlignUp(next, align), CalcTot(next, nbr, size, align);
    CheckExactIff(next, nbr, size, align);
    if first == AlignUp(start, align) {
      forall b: Word ensures IsBlock(next, nbr, size, align, b) <==> IsBlock(start, nbr, size, align, b) {
        SameFirstSameIsBlock(next, start, nbr, size, align, b);
      }
    } else {
      FirstIsBlock(next, nbr, size, align);
      CheckAddrIff(next, nbr, size, align, first);
      AlignUpAligned(start, align);
      AlignUpLeast(next, align, AlignUp(start, align));
      if IsBlock(start, nbr, size, align, first) { BlockBounds(start, nbr, size, align, first); }
    }
  }

  lemma SameFirstSameIsBlock(a: nat, c: nat, n: nat, size: nat, align: nat, b: nat)
    requires size >= 1 && align >= 1 && AlignUp(a, align) == AlignUp(c, align)
    ensures IsBlock(a, n, size, align, b) <==> IsBlock(c, n, size, align, b)
  {
    SameFirstSameBlocks(a, c, n, size, align);
  }

  /** One block of four octets, of any heap by its own address: the block handed out is refused by `Free`,
      and the address of the pointer table is accepted. */
  lemma HeapByAddressFails(heap: Word, heapSize: Word)
    requires heap > 0 && heap % 4 == 0 && heapSize >= 8 && heap + heapSize < W32
    ensures var c := Create(InitState(heap, heapSize), heap, heapSize, 1, 4, 4);
            && c.err == ErrNone && c.st.pools == [FirstPool(heap, heap, 1)]
            && var g := Get(c.st, 0, 4);
               && g.err == ErrNone && g.blk == heap + 4 && g.st.pools == [FirstPool(heap, heap, 1).(free := [])]
               && Free(g.st, 0, heap + 4).err == InvalidAddr && Free(g.st, 0, heap).err == ErrNone
  {
    hide Create, CalcTot, BlockSeq, CheckAddr, FirstPool;
    FirstCreation(heap, heapSize, heap, 1);
    OneBlock(heap + 4);
    AlignedTotal(heap, 1, 4);
    TableForBlock(heap);
  }

  lemma OneBlock(a: nat)
    requires a % 4 == 0
    ensures BlockSeq(a, 1, 4, 4)[0] == a
  {
  }

  lemma TableForBlock(next: nat)
    requires next % 4 == 0 && next + 8 <= W32
    ensures CheckAddr(next, 4, 4, 4, next) && next + 4 < W32 && !CheckAddr(next, 4, 4, 4, next + 4)
  {
    WrapSmall(0);
  }
}
