/** What a call on the pools gives for which arguments, said by the arguments, the segments and the addresses
    alone: the functions of `PoolSpec` that the program's own code computes are not used to say it. */
module PoolOutcome {
  import Arith
  import opened Words
  import PoolAlloc
  import opened PoolMath
  import opened PoolSpec
  import opened PoolSafety

  /** `b` is the first multiple of `align` from `a` on. */
  predicate NextMultiple(a: nat, align: nat, b: nat)
    requires align >= 1
  {
    a <= b < a + align && b % align == 0
  }

  /** The end of `n` objects of `size` octets that begin at multiples of `align`, one after the other from `a`
      on, each as near as can be. */
  ghost predicate EndsAt(a: nat, n: nat, size: nat, align: nat, end: nat)
    requires align >= 1
    decreases n
  {
    if n == 0 then end == a
    else exists b: nat :: NextMultiple(a, align, b) && EndsAt(b + size, n - 1, size, align, end)
  }

  lemma NextMultipleIff(a: nat, align: nat, b: nat)
    requires align >= 1
    ensures NextMultiple(a, align, b) <==> b == AlignUp(a, align)
  {
    hide AlignUp;
    AlignUpAligned(a, align);
    if NextMultiple(a, align, b) {
      AlignUpLeast(a, align, b);
      var c := AlignUp(a, align);
      if c < b {
        Arith.ModZeroIsMultiple(b, align);
        Arith.ModZeroIsMultiple(c, align);
        Arith.DivModUnique(b, c / align, b - c, align);
      }
    }
  }

  lemma {:induction false} EndsAtIff(a: nat, n: nat, size: nat, align: nat, end: nat)
    requires align >= 1
    ensures EndsAt(a, n, size, align, end) <==> end == NextAfter(a, n, size, align)
    decreases n
  {
    hide AlignUp, NextMultiple;
    if n > 0 {
      var c := AlignUp(a, align);
      NextMultipleIff(a, align, c);
      EndsAtIff(c + size, n - 1, size, align, end);
      forall b: nat | NextMultiple(a, align, b) ensures b == c {
        NextMultipleIff(a, align, b);
      }
    }
  }

  // ----- creation: arguments

  predicate InRange(x: nat, a: nat, n: nat) {
    a <= x < a + n
  }

  /** The memory has an address in common with a segment that is not the same one. */
  ghost predicate Conflict(s: State, base: nat, memSize: nat) {
    exists b, x :: b in s.segs && InRange(x, b, s.segs[b].tot) && InRange(x, base, memSize)
                   && (b != base || s.segs[b].tot != memSize)
  }

  lemma ConflictIff(s: State, base: nat, memSize: nat)
    requires SegsOk(s.segs) && memSize >= 1
    ensures Conflict(s, base, memSize) <==> OverlapsOther(s, base, memSize)
  {
    if b :| b in s.segs && Overlap(base, memSize, b, s.segs[b].tot) && !(b == base && s.segs[b].tot == memSize) {
      assert SegOk(b, s.segs[b]);
      var x := if base < b then b else base;
      assert InRange(x, b, s.segs[b].tot) && InRange(x, base, memSize);
    }
  }

  /** The order in which arguments are refused. */
  lemma CreateRefuses(s: State, base: nat, memSize: nat, nbr: nat, size: nat, blkAlign: nat)
    requires SegsOk(s.segs)
    ensures var c := Create(s, base, memSize, nbr, size, blkAlign);
            var noMemory := base != 0 && memSize == 0;
            && (c.err == InvalidSegSize <==> noMemory)
            && (c.err == InvalidBlkNbr <==> !noMemory && nbr == 0)
            && (c.err == InvalidBlkSize <==> !noMemory && nbr != 0 && size == 0)
            && (c.err == HeapNotFound <==> !noMemory && nbr != 0 && size != 0 && s.heap !in s.segs)
            && (c.err == InvalidSegOverlap <==>
                  !noMemory && nbr != 0 && size != 0 && s.heap in s.segs && base != 0 && Conflict(s, base, memSize))
            && (c.err in {InvalidSegSize, InvalidBlkNbr, InvalidBlkSize, HeapNotFound, InvalidSegOverlap} ==>
                  c.st == s && c.reqd == 0)
            && (c.err !in {InvalidSegSize, InvalidBlkNbr, InvalidBlkSize, HeapNotFound, InvalidSegOverlap} ==>
                  c.err in {ErrNone, HeapEmpty, SegEmpty})
  {
    hide CalcTot, OverlapsOther, Conflict, Carved, SegsOk, Admits;
    if memSize >= 1 { ConflictIff(s, base, memSize); }
    CarvedOutcome(s, base, memSize, nbr, size, EffectiveAlign(blkAlign));
  }

  lemma CarvedOutcome(s: State, base: nat, memSize: nat, nbr: nat, size: nat, align: nat)
    ensures s.heap in s.segs && nbr >= 1 && size >= 1 && align >= 1 ==>
              var c := Carved(s, base, memSize, nbr, size, align);
              c.err in {ErrNone, SegEmpty} && c.reqd == 0
  {
    hide Fits, SegsAfter, NewPool;
  }

  // ----- creation: sizes

  /** Where the search for the first block begins, when the pointer table ends at `t`. */
  function BlocksFrom(s: State, base: nat, memSize: nat, t: nat): nat {
    if base == 0 || (base == s.heap && base in s.segs && s.segs[base].tot == memSize) then t
    else if base in s.segs && s.segs[base].tot == memSize then s.segs[base].next
    else base
  }

  /** Where it begins as the size tests see it: at the pointer table, if the heap is asked for by address. */
  function TestedFrom(s: State, base: nat, memSize: nat, t: nat): nat {
    if base == 0 then t
    else if base in s.segs && s.segs[base].tot == memSize then s.segs[base].next
    else base
  }

  function AlignAsked(blkAlign: nat): (r: nat)
    ensures r >= 1
    ensures blkAlign >= 1 ==> r == blkAlign
  {
    if blkAlign >= 1 then blkAlign else 1
  }

  /** The valid request of which the pointer table, and the blocks from `from` on, would end at `t` and `e`. */
  ghost predicate Request(s: State, base: nat, memSize: nat, nbr: nat, size: nat, blkAlign: nat, from: nat,
                          t: nat, e: nat)
  {
    && s.heap in s.segs && nbr >= 1 && size >= 1 && (base != 0 ==> memSize >= 1 && !Conflict(s, base, memSize))
    && EndsAt(s.segs[s.heap].next, nbr, 4, 4, t) && EndsAt(from, nbr, size, AlignAsked(blkAlign), e)
  }

  lemma RequestTotals(s: State, base: nat, memSize: nat, nbr: nat, size: nat, blkAlign: nat, from: nat,
                      t: nat, e: nat)
    requires Request(s, base, memSize, nbr, size, blkAlign, from, t, e)
    ensures t == s.segs[s.heap].next + TableTot(s, nbr)
    ensures e == from + CalcTot(from, nbr, size, EffectiveAlign(blkAlign))
    ensures e == NextAfter(from, nbr, size, EffectiveAlign(blkAlign))
  {
    hide EndsAt, CalcTot, Conflict, NextAfter;
    EndsAtIff(s.segs[s.heap].next, nbr, 4, 4, t);
    EndsAtIff(from, nbr, size, AlignAsked(blkAlign), e);
    CalcTotIsIteratedAlloc(s.segs[s.heap].next, nbr, 4, 4);
    CalcTotIsIteratedAlloc(from, nbr, size, AlignAsked(blkAlign));
  }

  /** Which valid requests of the heap fail the size test, and what is then reported: of the total 32 bits
      remain. */
  lemma HeapMisses(s: State, memSize: nat, nbr: nat, size: nat, blkAlign: nat, t: nat, e: nat)
    requires Request(s, 0, memSize, nbr, size, blkAlign, t, t, e)
    ensures var c, next := Create(s, 0, memSize, nbr, size, blkAlign), s.segs[s.heap].next;
            var excess := (e - next) % 0x1_0000_0000 - (s.heap + s.segs[s.heap].tot - next);
            && (c.err == HeapEmpty <==> excess > 0) && (c.err == HeapEmpty ==> c.reqd == excess && c.st == s)
            && (c.err != HeapEmpty ==> c.err in {ErrNone, SegEmpty} && c.reqd == 0)
  {
    hide CalcTot, EndsAt, Create, NextAfter, Wrap, Conflict, OverlapsOther, TableTot, EffectiveAlign;
    RequestTotals(s, 0, memSize, nbr, size, blkAlign, t, t, e);
    CreateTests(s, 0, memSize, nbr, size, blkAlign);
    var start, x := PoolStart(s, 0, memSize, nbr), e - s.segs[s.heap].next;
    assert start == t && x == TableTot(s, nbr) + CalcTot(start, nbr, size, EffectiveAlign(blkAlign));
    WrapIs(x);
  }

  /** And of those with a base address: table and blocks are compared with what remains one after the other. */
  lemma SegMisses(s: State, base: nat, memSize: nat, nbr: nat, size: nat, blkAlign: nat, t: nat, e: nat)
    requires SegsOk(s.segs) && base != 0
    requires Request(s, base, memSize, nbr, size, blkAlign, TestedFrom(s, base, memSize, t), t, e)
    ensures var c, from := Create(s, base, memSize, nbr, size, blkAlign), TestedFrom(s, base, memSize, t);
            var heapEnd := s.heap + s.segs[s.heap].tot;
            var excess := (e - from) % 0x1_0000_0000 - (base + memSize - from);
            if t > heapEnd then c == Created(s, HeapEmpty, t - heapEnd)
            else if excess > 0 then c == Created(s, SegEmpty, excess)
            else c.err in {ErrNone, SegEmpty} && c.reqd == 0
  {
    hide CalcTot, EndsAt, Create, NextAfter, Wrap, Conflict, OverlapsOther, SegsOk, TableTot, EffectiveAlign;
    var from := TestedFrom(s, base, memSize, t);
    RequestTotals(s, base, memSize, nbr, size, blkAlign, from, t, e);
    ConflictIff(s, base, memSize);
    CreateTests(s, base, memSize, nbr, size, blkAlign);
    assert from == PoolStart(s, base, memSize, nbr);
    WrapIs(e - from);
  }

  /** The two tests, for a request without other faults. */
  lemma CreateTests(s: State, base: nat, memSize: nat, nbr: nat, size: nat, blkAlign: nat)
    requires s.heap in s.segs && nbr >= 1 && size >= 1
    requires base != 0 ==> memSize >= 1 && !OverlapsOther(s, base, memSize)
    ensures var c, align := Create(s, base, memSize, nbr, size, blkAlign), EffectiveAlign(blkAlign);
            var heapRem, tableTot := Rem(s.heap, s.segs[s.heap]), TableTot(s, nbr);
            var start := PoolStart(s, base, memSize, nbr);
            var poolTot := CalcTot(start, nbr, size, align);
            if base == 0 && Wrap(tableTot + poolTot) > heapRem then
              c == Created(s, HeapEmpty, Wrap(tableTot + poolTot) - heapRem)
            else if base != 0 && tableTot > heapRem then c == Created(s, HeapEmpty, tableTot - heapRem)
            else if base != 0 && Wrap(poolTot) > memSize - (start - base) then
              c == Created(s, SegEmpty, Wrap(poolTot) - (memSize - (start - base)))
            else c.err in {ErrNone, SegEmpty} && c.reqd == 0
  {
    hide CalcTot, OverlapsOther, Wrap, Fits, SegsAfter, NewPool;
  }

  lemma WrapIs(x: int)
    ensures Wrap(x) == x % 0x1_0000_0000
  {
  }

  /** The segments after a creation: the heap is used up to `t`, and the memory of the blocks up to `e`. */
  function SegsMade(s: State, base: nat, memSize: nat, t: nat, e: nat): map<nat, Segment>
    requires s.heap in s.segs
  {
    var b, heap := if base == 0 then s.heap else base, s.segs[s.heap];
    var segs := s.segs[s.heap := Segment(heap.tot, t)];
    segs[b := Segment(if base == 0 then heap.tot else memSize, e)]
  }

  /** A valid request succeeds if and only if pointer table and blocks, one behind the other, end within the
      heap and the memory given; then just that much is used. */
  lemma CreateSucceedsIff(s: State, base: nat, memSize: nat, nbr: nat, size: nat, blkAlign: nat, t: nat, e: nat)
    requires Inv(s) && CreateFits(s, base, memSize, nbr, size, blkAlign)
    requires Request(s, base, memSize, nbr, size, blkAlign, BlocksFrom(s, base, memSize, t), t, e)
    ensures var c, heapEnd := Create(s, base, memSize, nbr, size, blkAlign), s.heap + s.segs[s.heap].tot;
            && (c.err == ErrNone <==> t <= heapEnd && e <= if base == 0 then heapEnd else base + memSize)
            && (c.err == ErrNone ==> c.st.segs == SegsMade(s, base, memSize, t, e) && c.reqd == 0)
  {
    hide CalcTot, EndsAt, Conflict, OverlapsOther, NextAfter, Inv, SegsOk, AlignUp, Create, BlockSeq, NewPool;
    hide Fits, Passes, SegsAfter, SegsMade;
    var from, align := BlocksFrom(s, base, memSize, t), EffectiveAlign(blkAlign);
    InvSegs(s);
    PassesIff(s, base, memSize, nbr, size, blkAlign);
    RequestFits(s, base, memSize, nbr, size, blkAlign, t, e);
    if Passes(s, base, memSize, nbr, size, align) {
      PassesLeavesRoom(s, base, memSize, nbr, size, align);
      RequestTotals(s, base, memSize, nbr, size, blkAlign, from, t, e);
    }
  }

  /** `Fits`, said by where table and blocks end. */
  lemma RequestFits(s: State, base: nat, memSize: nat, nbr: nat, size: nat, blkAlign: nat, t: nat, e: nat)
    requires SegsOk(s.segs) && (base != 0 ==> base + memSize < W32)
    requires Request(s, base, memSize, nbr, size, blkAlign, BlocksFrom(s, base, memSize, t), t, e)
    ensures var align, heapEnd := EffectiveAlign(blkAlign), s.heap + s.segs[s.heap].tot;
            && (Fits(s, base, memSize, nbr, size, align) <==> e <= if base == 0 then heapEnd else base + memSize)
            && (t <= heapEnd && Fits(s, base, memSize, nbr, size, align) ==>
                  && Passes(s, base, memSize, nbr, size, align)
                  && SegsAfter(s, base, memSize, nbr, size, align) == SegsMade(s, base, memSize, t, e))
  {
    hide CalcTot, EndsAt, Conflict, OverlapsOther, NextAfter, SegsOk, AlignUp, Passes;
    var from, align := BlocksFrom(s, base, memSize, t), EffectiveAlign(blkAlign);
    RequestTotals(s, base, memSize, nbr, size, blkAlign, from, t, e);
    if base != 0 { ConflictIff(s, base, memSize); }
    SegOkAt(s.segs, s.heap);
    if base in s.segs { SegOkAt(s.segs, base); }
    assert from == CarveStart(s, base, memSize, nbr);
    if t <= s.heap + s.segs[s.heap].tot && Fits(s, base, memSize, nbr, size, align) {
      FitsPasses(s, base, memSize, nbr, size, align);
      SpendAll(from, Room(s, base, memSize, nbr), nbr, size, align);
    }
  }

  /** What fits passes the tests, for those of the heap by address too. */
  lemma FitsPasses(s: State, base: nat, memSize: nat, nbr: nat, size: nat, align: nat)
    requires SegsOk(s.segs) && s.heap in s.segs && nbr >= 1 && size >= 1 && align >= 1
    requires base != 0 ==> memSize >= 1 && !OverlapsOther(s, base, memSize) && base + memSize < W32
    requires Fits(s, base, memSize, nbr, size, align) && TableTot(s, nbr) <= Rem(s.heap, s.segs[s.heap])
    ensures Passes(s, base, memSize, nbr, size, align)
  {
    hide CalcTot, OverlapsOther, SegsOk, Wrap;
    var next := s.segs[s.heap].next;
    var start := PoolStart(s, base, memSize, nbr);
    var poolTot := CalcTot(start, nbr, size, align);
    SegOkAt(s.segs, s.heap);
    WrapAtMost(poolTot);
    WrapAtMost(TableTot(s, nbr) + poolTot);
    if base == s.heap && base != 0 {
      CalcTotMono(next, next + TableTot(s, nbr), nbr, size, align);
    }
  }

  // ----- the pool that is made

  /** `p` has `nbr` blocks of `size` octets in the segment asked for, its pointer table in the heap at the next
      word boundary, and its blocks, lowest first as far as 16 bits count them, one behind the other: each at the
      first multiple of the alignment asked for. */
  ghost predicate AsAsked(s: State, p: Pool, base: nat, memSize: nat, nbr: nat, size: nat, blkAlign: nat)
    requires s.heap in s.segs
  {
    && p.nbr == nbr && p.size == size && p.align == AlignAsked(blkAlign)
    && p.seg == (if base == 0 then s.heap else base)
    && NextMultiple(s.segs[s.heap].next, 4, p.table)
    && |p.free| == nbr % 0x1_0000
    && (forall k :: 0 <= k < |p.free| && blkAlign >= 1 ==> p.free[k] % blkAlign == 0)
    && (|p.free| > 0 ==>
          NextMultiple(BlocksFrom(s, base, memSize, p.table + 4 * nbr), AlignAsked(blkAlign), p.free[0]))
    && (forall k :: 0 <= k < |p.free| - 1 ==> NextMultiple(p.free[k] + size, AlignAsked(blkAlign), p.free[k + 1]))
  }

  lemma AskedFields(s: State, p: Pool, base: nat, memSize: nat, nbr: nat, size: nat, blkAlign: nat)
    requires s.heap in s.segs && AsAsked(s, p, base, memSize, nbr, size, blkAlign)
    ensures p.nbr == nbr && p.size == size && (blkAlign >= 1 ==> p.align == blkAlign)
  {
  }

  /** Every creation that succeeds adds that pool. */
  lemma CreatedAsAsked(s: State, base: nat, memSize: nat, nbr: nat, size: nat, blkAlign: nat)
    requires Create(s, base, memSize, nbr, size, blkAlign).err == ErrNone
    ensures s.heap in s.segs
    ensures var t, i := Create(s, base, memSize, nbr, size, blkAlign).st, |s.pools|;
            && |t.pools| == i + 1 && t.pools[..i] == s.pools
            && AsAsked(s, t.pools[i], base, memSize, nbr, size, blkAlign)
  {
    hide CalcTot, AlignUp, BlockSeq, Fits, SegsAfter, AsAsked;
    var align := EffectiveAlign(blkAlign);
    PassesIff(s, base, memSize, nbr, size, blkAlign);
    assert nbr >= 1 && size >= 1 && s.heap in s.segs;
    NewPoolAsAsked(s, base, memSize, nbr, size, blkAlign);
  }

  lemma NewPoolAsAsked(s: State, base: nat, memSize: nat, nbr: nat, size: nat, blkAlign: nat)
    requires s.heap in s.segs && nbr >= 1 && size >= 1
    ensures var p := NewPool(s, base, memSize, nbr, size, EffectiveAlign(blkAlign));
            AsAsked(s, p, base, memSize, nbr, size, blkAlign)
  {
    hide CalcTot, AlignUp, BlockSeq, NextMultiple;
    var next, align := s.segs[s.heap].next, AlignAsked(blkAlign);
    var p := NewPool(s, base, memSize, nbr, size, align);
    var a := CarveStart(s, base, memSize, nbr);
    NextMultipleIff(next, 4, p.table);
    TableEndsThere(next, nbr);
    assert a == BlocksFrom(s, base, memSize, p.table + 4 * nbr);
    forall k | 0 <= k < |p.free| ensures p.free[k] % align == 0 {
      AlignUpAligned(NextAfter(a, k, size, align), align);
      BlockSeqNth(a, nbr, size, align, k);
    }
    if |p.free| > 0 {
      BlockSeqNth(a, nbr, size, align, 0);
      NextMultipleIff(a, align, p.free[0]);
    }
    forall k | 0 <= k < |p.free| - 1 ensures NextMultiple(p.free[k] + size, align, p.free[k + 1]) {
      BlockSeqNth(a, nbr, size, align, k);
      BlockSeqNth(a, nbr, size, align, k + 1);
      BlockSeqSnoc(a, k, size, align);
      NextMultipleIff(p.free[k] + size, align, p.free[k + 1]);
    }
  }

  lemma TableEndsThere(next: nat, nbr: nat)
    requires nbr >= 1
    ensures next + CalcTot(next, nbr, WORD_OCTETS, WORD_OCTETS) == AlignUp(next, WORD_OCTETS) + 4 * nbr
  {
    hide CalcTot, AlignOffset;
    PoolAlloc.TableTotal(next, nbr);
  }

  // ----- in runs

  /** What step `j` of a run has made stays as it was made. */
  lemma {:induction false} MadeStays(s: State, ops: seq<Op>, j: nat)
    requires Inv(s) && RunOk(s, ops) && j < |ops|
    ensures Grows(Run(s, ops[..j + 1]), Run(s, ops))
    decreases |ops|
  {
    hide Inv, RunOk, Step, Run, Grows;
    if j + 1 == |ops| {
      assert ops[..j + 1] == ops;
      GrowsSame(Run(s, ops));
    } else {
      var init := ops[..|ops| - 1];
      assert init[..j + 1] == ops[..j + 1];
      RunStep(s, ops);
      MadeStays(s, init, j);
      GrowsOn(Run(s, ops[..j + 1]), Run(s, init), Run(s, ops));
    }
  }

  lemma GrowsSame(s: State)
    ensures Grows(s, s)
  {
  }

  lemma GrowsOn(s: State, t: State, u: State)
    requires Grows(s, t) && Grows(t, u)
    ensures Grows(s, u)
  {
    assert forall i :: 0 <= i < |s.pools| ==> u.pools[i] == t.pools[i].(free := u.pools[i].free);
  }

  lemma RunStep(s: State, ops: seq<Op>)
    requires Inv(s) && RunOk(s, ops) && ops != []
    ensures Grows(Run(s, ops[..|ops| - 1]), Run(s, ops)) && RunOk(s, ops[..|ops| - 1])
  {
    hide Inv, Grows, Step;
    RunKeepsInv(s, ops[..|ops| - 1]);
    StepGrows(Run(s, ops[..|ops| - 1]), ops[|ops| - 1]);
  }

  /** The memory in which a successful creation places its blocks. */
  lemma CreatedWithin(s: State, base: nat, memSize: nat, nbr: nat, size: nat, blkAlign: nat)
    requires SegsOk(s.segs) && Create(s, base, memSize, nbr, size, blkAlign).err == ErrNone
    ensures var t := Create(s, base, memSize, nbr, size, blkAlign).st;
            && t.heap == s.heap && s.heap in s.segs && s.heap in t.segs && t.segs[s.heap].tot == s.segs[s.heap].tot
            && (base != 0 ==> base in t.segs && t.segs[base].tot == memSize)
  {
    hide CalcTot, Spend, Fits;
    PassesIff(s, base, memSize, nbr, size, blkAlign);
    if base == s.heap && base != 0 {
      SegOkAt(s.segs, base);
      assert Overlap(base, memSize, base, s.segs[base].tot);
    }
  }

  /** A block got from the pool that a creation of this run has added: it is a multiple of the alignment asked
      for there, it holds the octets asked for here, and it lies in the memory given. */
  ghost predicate GotAsAsked(t: State, made: Op, size: nat, blk: nat)
    requires made.OpCreate? && t.heap in t.segs
  {
    && (made.align >= 1 ==> blk % made.align == 0) && size <= made.size
    && (made.base != 0 ==> made.base <= blk && blk + made.size <= made.base + made.memSize)
    && (made.base == 0 ==> t.heap <= blk && blk + made.size <= t.heap + t.segs[t.heap].tot)
  }

  /** Step `j` creates a pool, step `k` gets a block from it. */
  lemma GetFromCreated(s: State, ops: seq<Op>, j: nat, k: nat)
    requires Inv(s) && RunOk(s, ops) && j < k < |ops| && ops[j].OpCreate? && ops[k].OpGet?
    requires ops[k].pool == |Run(s, ops[..j]).pools|
    requires Result(Run(s, ops[..j]), ops[j]).err == Result(Run(s, ops[..k]), ops[k]).err == ErrNone
    ensures var t := Run(s, ops[..k]);
            t.heap in t.segs && GotAsAsked(t, ops[j], ops[k].size, Result(t, ops[k]).blk)
  {
    hide Inv, RunOk, Run, Create, Get, SegsOk, Outstanding, CalcTot;
    RunOkPrefix(s, ops, k);
    RunKeepsInv(s, ops[..k]);
    RunOkPrefix(s, ops, j);
    RunKeepsInv(s, ops[..j]);
    InvSegs(Run(s, ops[..j]));
    MadeStays(s, ops[..k], j);
    assert ops[..k][..j + 1] == ops[..j + 1];
    RunTo(s, ops, j);
    var u, t, c := Run(s, ops[..j]), Run(s, ops[..k]), ops[j];
    MadeAlign(u, t, c);
    GotWithin(t, ops[k].pool, ops[k].size);
  }

  lemma RunTo(s: State, ops: seq<Op>, j: nat)
    requires j < |ops|
    ensures Run(s, ops[..j + 1]) == Step(Run(s, ops[..j]), ops[j])
  {
    assert ops[..j + 1][..j] == ops[..j];
  }

  /** What of the pool made is there later on. */
  lemma MadeAlign(u: State, t: State, c: Op)
    requires c.OpCreate? && SegsOk(u.segs) && Grows(Step(u, c), t)
    requires Create(u, c.base, c.memSize, c.nbr, c.size, c.align).err == ErrNone
    ensures |u.pools| < |t.pools| && t.heap == u.heap && t.heap in t.segs
    ensures var p := t.pools[|u.pools|];
            && p.align == AlignAsked(c.align) && p.size == c.size && p.seg == if c.base == 0 then t.heap else c.base
    ensures c.base != 0 ==> c.base in t.segs && t.segs[c.base].tot == c.memSize
  {
    hide Create, SegsOk;
    CreatedAsAsked(u, c.base, c.memSize, c.nbr, c.size, c.align);
    CreatedWithin(u, c.base, c.memSize, c.nbr, c.size, c.align);
  }

  lemma GotWithin(t: State, i: nat, size: nat)
    requires Inv(t) && i < |t.pools| && Get(t, i, size).err == ErrNone
    ensures var p, blk := t.pools[i], Get(t, i, size).blk;
            && 1 <= p.align && blk % p.align == 0 && size <= p.size && p.seg in t.segs
            && p.seg <= blk && blk + p.size <= p.seg + t.segs[p.seg].tot
  {
    hide Inv, CalcTot, IsBlock, AlignUp, Get;
    PoolOkAt(t, i);
    GetHandsOutFreeBlock(t, i, size);
    var blk := Get(t, i, size).blk;
    BlocksNeverMeet(t, i, blk, i, blk);
  }
}
