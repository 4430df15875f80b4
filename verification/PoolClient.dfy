/** Programs that use the pools: they write inside the blocks they own, and call the
    operations in any order. */
module PoolClient {
  import opened Words
  import opened PoolMath
  import opened PoolSpec
  import opened PoolSafety
  import opened PoolTable

  /** Writing an octet of a block that is out changes nothing of the allocator. */
  method WriteOwned(lib: MemLib, pool: MemPool, blk: nat, offset: nat, v: Octet)
    requires lib.Valid() && IsPool(lib.objs, pool) && pool.slot < |lib.st.pools| && Shape(lib.st.pools[pool.slot])
    requires Outstanding(lib.st.pools[pool.slot], blk) && offset < lib.st.pools[pool.slot].size
    modifies lib.ram
    ensures blk + offset < lib.ram.Length && lib.ram[..] == old(lib.ram[..])[blk + offset := v]
    ensures lib.Valid()
  {
    hide Inv, TableOk, Slots, Shape, CalcTot, Stride, TableHolds, IsBlock;
    ghost var i, m, s := pool.slot, lib.ram[..], lib.st;
    BlockInMemory(s, i, blk);
    lib.ram[blk + offset] := v;
    forall j | 0 <= j < |lib.objs| ensures PoolStored(lib.ram[..], lib.objs, s.pools, j) {
      assert old(PoolStored(m, lib.objs, s.pools, j));
      TableKept(m, s, i, blk, blk + offset, v, j);
    }
  }

  lemma TableKept(m: seq<Octet>, s: State, i: nat, blk: nat, a: nat, v: Octet, j: nat)
    requires Inv(s) && i < |s.pools| && j < |s.pools| && Shape(s.pools[i]) && Block(s.pools[i], blk)
    requires blk <= a < blk + s.pools[i].size && a < |m| && TableHolds(m, s.pools[j])
    ensures TableHolds(m[a := v], s.pools[j])
  {
    hide Inv, CalcTot, Stride, IsBlock;
    InvPool(s, j);
    BlocksNeverMeet(s, i, blk, j, blk);
    TableFrame(m, m[a := v], s.pools[j]);
  }

  lemma InvPool(s: State, j: nat)
    requires Inv(s) && j < |s.pools|
    ensures PoolOk(s, j)
  {
  }

  lemma BlockInMemory(s: State, i: nat, blk: nat)
    requires Inv(s) && i < |s.pools| && Shape(s.pools[i]) && Block(s.pools[i], blk)
    ensures var p := s.pools[i];
            p.seg in s.segs && blk + p.size <= p.seg + s.segs[p.seg].tot
  {
    BlocksNeverMeet(s, i, blk, i, blk);
  }

  // ----- what a block holds is its owner's

  /** What octet `offset` of the block holds after `ops`, if it held `v` before. */
  function Written(ops: seq<Op>, i: nat, blk: nat, offset: nat, v: Octet): Octet {
    if ops == [] then v
    else
      match ops[|ops| - 1]
      case OpWrite(j, b, o, w) =>
        if j == i && b == blk && o == offset then w else Written(ops[..|ops| - 1], i, blk, offset, v)
      case _ => Written(ops[..|ops| - 1], i, blk, offset, v)
  }

  ghost predicate InMemory(s: State, n: nat) {
    forall b :: b in s.segs ==> b + s.segs[b].tot <= n
  }

  ghost predicate Owned(s: State, ops: seq<Op>, i: nat, blk: Word, offset: nat) {
    IsPoolIndex(s, i) && Outstanding(s.pools[i], blk) && offset < s.pools[i].size && OpFree(i, blk) !in ops
  }

  ghost predicate PrivateAt(ops: seq<Op>, m: seq<Octet>, n: seq<Octet>, i: nat, blk: Word, offset: nat) {
    blk + offset < |m| == |n| && n[blk + offset] == Written(ops, i, blk, offset, m[blk + offset])
  }

  /** From memory `m` the operations `ops` have made `n`: every octet of a block that was out in `s`, and
      that they did not give back, holds what they last wrote there, or what it held. */
  ghost predicate Private(s: State, ops: seq<Op>, m: seq<Octet>, n: seq<Octet>) {
    forall i: nat, blk: Word, offset: nat :: Owned(s, ops, i, blk, offset) ==> PrivateAt(ops, m, n, i, blk, offset)
  }

  lemma OwnedInMemory(s: State, ops: seq<Op>, i: nat, blk: Word, offset: nat, n: nat)
    requires Inv(s) && InMemory(s, n) && Owned(s, ops, i, blk, offset)
    ensures blk + offset < n
  {
    hide Inv;
    BlockInMemory(s, i, blk);
  }

  lemma NothingDone(s: State, m: seq<Octet>)
    requires Inv(s) && InMemory(s, |m|)
    ensures Private(s, [], m, m)
  {
    forall i: nat, blk: Word, offset: nat | Owned(s, [], i, blk, offset) ensures PrivateAt([], m, m, i, blk, offset) {
      OwnedInMemory(s, [], i, blk, offset, |m|);
    }
  }

  /** One operation more. */
  lemma PrivateNext(s: State, ops: seq<Op>, m: seq<Octet>, n: seq<Octet>, op: Op, n': seq<Octet>)
    requires Inv(s) && RunOk(s, ops) && Private(s, ops, m, n) && Private(Run(s, ops), [op], n, n')
    ensures Private(s, ops + [op], m, n')
  {
    hide Inv, RunOk, Run, Outstanding, Shape;
    var all := ops + [op];
    assert all[..|ops|] == ops;
    forall i: nat, blk: Word, offset: nat | Owned(s, all, i, blk, offset)
      ensures PrivateAt(all, m, n', i, blk, offset)
    {
      assert forall o :: o in ops ==> o in all;
      assert op in all;
      OutUntilFreed(s, ops, i, blk);
      RunGrows(s, ops);
      assert Owned(s, ops, i, blk, offset) && Owned(Run(s, ops), [op], i, blk, offset);
      assert PrivateAt(ops, m, n, i, blk, offset) && PrivateAt([op], n, n', i, blk, offset);
      WrittenOne(op, i, blk, offset, n[blk + offset]);
      WrittenOne(op, i, blk, offset, m[blk + offset]);
    }
  }

  lemma WrittenOne(op: Op, i: nat, blk: nat, offset: nat, v: Octet)
    ensures Written([op], i, blk, offset, v) == match op
              case OpWrite(j, b, o, w) => if j == i && b == blk && o == offset then w else v
              case _ => v
  {
    assert [op][..0] == [];
  }

  lemma CreatePrivate(s: State, op: Op, m: seq<Octet>, n: seq<Octet>)
    requires Inv(s) && InMemory(s, |m|) && !op.OpWrite? && KeepsInUse(s, m, n)
    ensures Private(s, [op], m, n)
  {
    hide Inv, Outstanding, Shape, CalcTot;
    forall i: nat, blk: Word, offset: nat | Owned(s, [op], i, blk, offset)
      ensures PrivateAt([op], m, n, i, blk, offset)
    {
      OwnedInMemory(s, [op], i, blk, offset, |m|);
      OwnedInUse(s, i, blk, offset);
      WrittenOne(op, i, blk, offset, m[blk + offset]);
    }
  }

  lemma OwnedInUse(s: State, i: nat, blk: nat, offset: nat)
    requires Inv(s) && IsPoolIndex(s, i) && Outstanding(s.pools[i], blk) && offset < s.pools[i].size
    ensures var b := s.pools[i].seg; b in s.segs && b <= blk + offset < s.segs[b].next
  {
    hide CalcTot, IsBlock, AlignUp, Stride;
    InvPool(s, i);
    BlocksNeverMeet(s, i, blk, i, blk);
  }

  lemma FreePrivate(s: State, j: nat, b: Word, m: seq<Octet>, n: seq<Octet>)
    requires Inv(s) && InMemory(s, |m|) && IsPoolIndex(s, j) && WritesOnly(m, n, s.pools[j])
    ensures Private(s, [OpFree(j, b)], m, n)
  {
    hide Inv, CalcTot;
    var op := OpFree(j, b);
    forall i: nat, blk: Word, offset: nat | Owned(s, [op], i, blk, offset)
      ensures PrivateAt([op], m, n, i, blk, offset)
    {
      OwnedInMemory(s, [op], i, blk, offset, |m|);
      BlocksNeverMeet(s, i, blk, j, blk);
      WrittenOne(op, i, blk, offset, m[blk + offset]);
    }
  }

  lemma WritePrivate(s: State, j: nat, b: Word, o: nat, v: Octet, m: seq<Octet>, n: seq<Octet>)
    requires Inv(s) && InMemory(s, |m|) && OpOk(s, OpWrite(j, b, o, v)) && b + o < |m| && n == m[b + o := v]
    ensures Private(s, [OpWrite(j, b, o, v)], m, n)
  {
    hide Inv, CalcTot;
    var op := OpWrite(j, b, o, v);
    forall i: nat, blk: Word, offset: nat | Owned(s, [op], i, blk, offset)
      ensures PrivateAt([op], m, n, i, blk, offset)
    {
      OwnedInMemory(s, [op], i, blk, offset, |m|);
      BlocksNeverMeet(s, i, blk, j, b);
      WrittenOne(op, i, blk, offset, m[blk + offset]);
    }
  }

  // ----- any sequence of operations

  /** One operation on the structures and memory: its outcome, the state after it, and the owners'
      octets are what the abstract machine says. */
  method Perform(lib: MemLib, pools: seq<MemPool>, op: Op) returns (out: Outcome, now: seq<MemPool>)
    requires lib.Valid() && pools == lib.objs && OpOk(lib.st, op)
    requires op.OpCreate? && op.base != 0 ==> op.base + op.memSize <= lib.ram.Length
    modifies lib, lib.Repr, lib.ram
    ensures lib.Valid() && now == lib.objs && fresh(lib.Repr - old(lib.Repr))
    ensures lib.st == Step(old(lib.st), op) && out == Result(old(lib.st), op)
    ensures Private(old(lib.st), [op], old(lib.ram[..]), lib.ram[..])
  {
    hide Inv, TableOk, Slots, Create, Get, Free, CreateOk, FreeOk, CalcTot, Stride, Private, Stored, Outstanding;
    now := pools;
    ghost var s, m := lib.st, lib.ram[..];
    Everything(lib);
    match op {
      case OpCreate(base, memSize, nbr, size, align) =>
        var pool := new MemPool();
        var reqd, err := lib.PoolCreate(pool, base, memSize, nbr, size, align);
        CreatePrivate(s, op, m, lib.ram[..]);
        if err == ErrNone {
          now := now + [pool];
        }
        out := OutCreate(err, reqd);
      case OpGet(i, size) =>
        PoolKnown(lib, i);
        var blk, err := lib.BlkGet(pools[i], size);
        SamePrivate(s, op, m);
        out := OutGet(err, blk);
      case OpFree(i, blk) =>
        PoolKnown(lib, i);
        var err := lib.BlkFree(pools[i], blk);
        FreePrivate(s, i, blk, m, lib.ram[..]);
        out := OutFree(err);
      case OpWrite(i, blk, offset, v) =>
        PoolKnown(lib, i);
        WriteOwned(lib, pools[i], blk, offset, v);
        WritePrivate(s, i, blk, offset, v, m, lib.ram[..]);
        out := OutWrite;
    }
  }

  lemma Everything(lib: MemLib)
    requires lib.Valid()
    ensures Inv(lib.st) && InMemory(lib.st, |lib.ram[..]|) && |lib.objs| == |lib.st.pools|
  {
    hide Inv, TableOk, Slots, Stored;
  }

  lemma SamePrivate(s: State, op: Op, m: seq<Octet>)
    requires Inv(s) && InMemory(s, |m|) && !op.OpWrite?
    ensures Private(s, [op], m, m)
  {
    CreatePrivate(s, op, m, m);
  }

  /** Any run of operations gives the outcomes and the state of the abstract machine, and in the blocks
      that stay out the octets that their owners wrote. */
  method Execute(lib: MemLib, handles: seq<MemPool>, ops: seq<Op>) returns (outs: seq<Outcome>)
    requires lib.Valid() && handles == lib.objs && RunOk(lib.st, ops)
    requires forall op :: op in ops && op.OpCreate? && op.base != 0 ==> op.base + op.memSize <= lib.ram.Length
    modifies lib, lib.Repr, lib.ram
    ensures lib.Valid() && lib.st == Run(old(lib.st), ops) && outs == Results(old(lib.st), ops)
    ensures Private(old(lib.st), ops, old(lib.ram[..]), lib.ram[..])
  {
    hide Inv, TableOk, Slots, Private, Stored, OpOk, Step, Result, RunOk, Run, Results;
    ghost var s, m := lib.st, lib.ram[..];
    var pools := handles;
    outs := [];
    var k := 0;
    Everything(lib);
    NothingDone(s, m);
    RunStart(s, ops);
    while k < |ops|
      invariant 0 <= k <= |ops| && lib.Valid() && pools == lib.objs && fresh(lib.Repr - old(lib.Repr))
      invariant RunOk(s, ops[..k]) && lib.st == Run(s, ops[..k]) && outs == Results(s, ops[..k])
      invariant Private(s, ops[..k], m, lib.ram[..])
    {
      RunNext(s, ops, k);
      ghost var n := lib.ram[..];
      var out;
      assert ops[k] in ops;
      out, pools := Perform(lib, pools, ops[k]);
      PrivateNext(s, ops[..k], m, n, ops[k], lib.ram[..]);
      assert ops[..k] + [ops[k]] == ops[..k + 1];
      outs := outs + [out];
      k := k + 1;
    }
    assert ops[..k] == ops;
  }

  lemma RunStart(s: State, ops: seq<Op>)
    ensures ops[..0] == [] && RunOk(s, []) && Run(s, []) == s && Results(s, []) == []
  {
  }

  lemma RunNext(s: State, ops: seq<Op>, k: nat)
    requires RunOk(s, ops) && k < |ops|
    ensures var t := Run(s, ops[..k]);
            && RunOk(s, ops[..k + 1]) && OpOk(t, ops[k])
            && Run(s, ops[..k + 1]) == Step(t, ops[k])
            && Results(s, ops[..k + 1]) == Results(s, ops[..k]) + [Result(t, ops[k])]
  {
    hide OpOk, Step, Result;
    RunOkPrefix(s, ops, k + 1);
    assert ops[..k + 1][..k] == ops[..k];
  }

  lemma PoolKnown(lib: MemLib, i: nat)
    requires lib.Valid() && i < |lib.objs|
    ensures lib.objs[i].slot == i && lib.objs[i].Type == TypePool && IsPool(lib.objs, lib.objs[i])
  {
    hide Inv, TableOk;
    assert PoolStored(lib.ram[..], lib.objs, lib.st.pools, i);
  }

  // ----- the table, as a reader of the structures sees it

  /** The segments are doubly linked from the head of the table, each below the next and apart from
      it, and what a segment has used and what remains of it always make up its size. */
  lemma SegmentsInOrder(lib: MemLib, i: nat)
    requires lib.Valid() && i < |lib.heads|
    ensures lib.table == lib.heads[0]
    ensures lib.heads[i].SegPrevPtr == if i == 0 then null else lib.heads[i - 1]
    ensures lib.heads[i].SegNextPtr == if i == |lib.heads| - 1 then null else lib.heads[i + 1]
    ensures lib.heads[i].SegAddrNextAvail - lib.heads[i].SegAddr + lib.heads[i].SegSizeRem == lib.heads[i].SegSizeTot
    ensures i + 1 < |lib.heads| ==> lib.heads[i].SegAddr + lib.heads[i].SegSizeTot <= lib.heads[i + 1].SegAddr
  {
    hide Columns, AllLinked, Stored, Slots;
    assert SegLinkedAt(lib.heads, i) && HeadOk(lib.heads, lib.st.segs, i);
    if i + 1 < |lib.heads| {
      assert HeadOk(lib.heads, lib.st.segs, i + 1);
      SegmentsApart(lib.st, lib.heads[i].SegAddr, lib.heads[i + 1].SegAddr);
    }
  }

  lemma SegmentsApart(s: State, b: nat, c: nat)
    requires Inv(s) && b in s.segs && c in s.segs && b < c
    ensures b + s.segs[b].tot <= c
  {
    assert SegOk(b, s.segs[b]) && SegOk(c, s.segs[c]);
    assert !Overlap(b, s.segs[b].tot, c, s.segs[c].tot);
  }

  /** The heap heads its segment, and every pool is somewhere in the doubly linked list that the head
      of its own segment starts. */
  lemma PoolInItsList(lib: MemLib, i: nat) returns (head: MemPool, col: seq<MemPool>, k: nat)
    requires lib.Valid() && i < |lib.objs|
    ensures lib.heap in lib.heads
    ensures head in lib.heads && head.SegAddr == lib.st.pools[i].seg
    ensures k < |col| && col[0] == head && col[k] == lib.objs[i] && Nodup(col) && PoolLinks(col)
  {
    hide Stored, AllLinked, SegFields, SegLinks, Shape, CalcTot;
    InvPool(lib.st, i);
    assert InItsColumn(lib.objs, lib.column, lib.st.pools, i);
    var b := lib.st.pools[i].seg;
    var at := HeadOf(lib.Repr, lib.heap, lib.objs, lib.heads, lib.column, lib.table, lib.st, b);
    var heapAt := HeadOf(lib.Repr, lib.heap, lib.objs, lib.heads, lib.column, lib.table, lib.st, lib.st.heap);
    head, col := lib.heads[at], lib.column[b];
    k :| 0 <= k < |col| && col[k] == lib.objs[i];
  }
}
