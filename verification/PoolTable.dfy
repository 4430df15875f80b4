/** The allocator as the program keeps it: `MEM_POOL` structures in a two-dimensional, doubly
    linked table, and each pool's stack of block pointers in memory.  Every operation is
    proved to do to the abstract state what `PoolSpec` says. */
module PoolTable {
  import opened Words
  import opened PoolMath
  import opened PoolAlloc
  import opened PoolSpec
  import opened PoolOutcome

  datatype PoolType = TypeNone | TypeHeap | TypePool

  /** struct mem_pool. */
  class MemPool {
    var Type: PoolType
    var SegPrevPtr: MemPool?
    var SegNextPtr: MemPool?
    var PoolPrevPtr: MemPool?
    var PoolNextPtr: MemPool?
    var PoolAddrStart: Word
    var PoolAddrEnd: Word
    var PoolPtrs: Word
    var BlkIx: Word
    var PoolSize: Word
    var BlkNbr: Word
    var BlkSize: Word
    var BlkAlign: Word
    var SegAddr: Word
    var SegAddrNextAvail: Word
    var SegSizeTot: Word
    var SegSizeRem: Word

    ghost var slot: int  // place among the pools created, or -1

    /** A declared, zeroed structure. */
    constructor ()
      ensures Type == TypeNone && slot == -1
    {
      Type, slot := TypeNone, -1;
      SegPrevPtr, SegNextPtr, PoolPrevPtr, PoolNextPtr := null, null, null, null;
      PoolAddrStart, PoolAddrEnd, PoolPtrs, BlkIx, PoolSize, BlkNbr, BlkSize, BlkAlign := 0, 0, 0, 0, 0, 0, 0, 0;
      SegAddr, SegAddrNextAvail, SegSizeTot, SegSizeRem := 0, 0, 0, 0;
    }

    /** Nothing is left of what the structure held. */
    method Reset()
      modifies this
      ensures Type == TypeNone && slot == old(slot) && PoolPrevPtr == PoolNextPtr == null
    {
      Type := TypeNone;
      Unlink();
      ClearPool();
      FoundSeg(0, 0);
    }

    method Unlink()
      modifies `SegPrevPtr, `SegNextPtr, `PoolPrevPtr, `PoolNextPtr
      ensures SegPrevPtr == SegNextPtr == PoolPrevPtr == PoolNextPtr == null
    {
      SegPrevPtr, SegNextPtr := null, null;
      PoolPrevPtr, PoolNextPtr := null, null;
    }

    method ClearPool()
      modifies `PoolAddrStart, `PoolAddrEnd, `PoolPtrs, `PoolSize, `BlkAlign, `BlkSize, `BlkNbr, `BlkIx
      ensures PoolAddrStart == PoolAddrEnd == PoolPtrs == PoolSize == BlkAlign == BlkSize == BlkNbr == BlkIx == 0
    {
      PoolAddrStart, PoolAddrEnd := 0, 0;
      PoolPtrs, PoolSize := 0, 0;
      BlkAlign, BlkSize, BlkNbr, BlkIx := 0, 0, 0, 0;
    }

    /** The heap's structure, an unused segment of `size` octets at `addr`. */
    method InitHeap(addr: Word, size: Word)
      modifies this
      ensures Type == TypeHeap && slot == old(slot)
      ensures SegPrevPtr == SegNextPtr == PoolPrevPtr == PoolNextPtr == null
      ensures SegAddr == SegAddrNextAvail == addr && SegSizeTot == SegSizeRem == size
    {
      Type := TypeHeap;
      Unlink();
      ClearPool();
      FoundSeg(addr, size);
    }

    /** An unused segment. */
    method FoundSeg(base: Word, size: Word)
      modifies `SegAddr, `SegAddrNextAvail, `SegSizeTot, `SegSizeRem
      ensures SegAddr == SegAddrNextAvail == base && SegSizeTot == SegSizeRem == size
    {
      SegAddr, SegAddrNextAvail := base, base;
      SegSizeTot, SegSizeRem := size, size;
    }

    /** The structure's segment fields describe segment `seg`; what is used and what
        remains always make up the whole. */
    ghost predicate Manages(seg: Segment)
      reads `SegAddr, `SegAddrNextAvail, `SegSizeTot, `SegSizeRem
    {
      SegAddrNextAvail == seg.next && SegSizeTot == seg.tot && SegAddrNextAvail - SegAddr + SegSizeRem == SegSizeTot
    }

    /** The structure's pool fields describe pool `p`. */
    ghost predicate Describes(p: Pool)
      requires Shape(p)
      reads `Type, `PoolAddrStart, `PoolAddrEnd, `PoolPtrs, `PoolSize, `BlkNbr, `BlkSize, `BlkAlign, `BlkIx
    {
      && Type == TypePool && PoolAddrStart == p.start && PoolAddrEnd == End(p) - 1 && PoolPtrs == p.table
      && PoolSize == CalcTot(p.start, p.nbr, p.size, p.align)
      && BlkNbr == p.nbr && BlkSize == p.size && BlkAlign == p.align && BlkIx == |p.free|
    }

    /** The structure of a pool just carved.  `BlkIx` keeps 16 bits of the block count. */
    method Configure(start: Word, tot: Word, ptrs: Word, align: Word, size: Word, nbr: Word, ghost p: Pool)
      requires start + tot <= W32 && tot >= 1 && Shape(p)
      requires p == Pool(p.seg, start, ptrs, nbr, size, align, p.free) && |p.free| == nbr % IX
      requires tot == CalcTot(start, nbr, size, align)
      modifies `Type, `PoolAddrStart, `PoolAddrEnd, `PoolPtrs, `PoolSize, `BlkAlign, `BlkSize, `BlkNbr, `BlkIx
      ensures Describes(p)
    {
      Type := TypePool;
      PoolAddrStart, PoolAddrEnd := start, start + tot - 1;
      PoolPtrs, PoolSize := ptrs, tot;
      BlkAlign, BlkSize, BlkNbr, BlkIx := align, size, nbr, nbr % 0x1_0000;
    }

    /** `Mem_PoolBlkIsValidAddr`. */
    method BlkIsValidAddr(blk: Word) returns (valid: bool)
      requires BlkSize >= 1 && BlkAlign >= 1 && Stride(BlkSize, BlkAlign) < W32
      ensures valid == (PoolAddrStart <= blk <= PoolAddrEnd
                        && Wrap(blk - AlignUp(PoolAddrStart, BlkAlign)) % Stride(BlkSize, BlkAlign) == 0)
    {
      if blk < PoolAddrStart || blk > PoolAddrEnd {
        return false;
      }
      var memAlignOffset: Word, blkAlignOffset: Word;
      var alignOffset: Word := PoolAddrStart % BlkAlign;
      if alignOffset != 0 { memAlignOffset := BlkAlign - alignOffset; } else { memAlignOffset := 0; }
      alignOffset := BlkSize % BlkAlign;
      if alignOffset != 0 { blkAlignOffset := BlkAlign - alignOffset; } else { blkAlignOffset := 0; }
      var memDiff := Wrap(blk - (PoolAddrStart + memAlignOffset));
      var memAlign: Word := BlkSize + blkAlignOffset;
      valid := memDiff % memAlign == 0;
    }

    /** `Mem_PoolSegAlloc`, for any arguments: every operation is one of 32 bits. */
    method SegAlloc(size: Word, align: Word) returns (addr: Word)
      requires align >= 1
      modifies `SegAddrNextAvail, `SegSizeRem
      ensures Allocated(Account(SegAddrNextAvail, SegSizeRem), addr) ==
                Allocate(old(Account(SegAddrNextAvail, SegSizeRem)), size, align)
    {
      var memAddr := SegAddrNextAvail;
      var memAlign: Word := memAddr % align;
      var alignOffset: Word;
      if memAlign != 0 { alignOffset := align - memAlign; } else { alignOffset := 0; }
      var sizeTot := Wrap(alignOffset + size);
      var sizeRem := SegSizeRem;
      if sizeTot > sizeRem {
        return 0;
      }
      addr := Wrap(memAddr + alignOffset);
      SegAddrNextAvail := Wrap(addr + size);
      SegSizeRem := SegSizeRem - sizeTot;
    }
  }

  /** The pointer table of `p` holds its free blocks. */
  ghost predicate TableHolds(m: seq<Octet>, p: Pool) {
    && TableEnd(p) <= |m| && |p.free| <= p.nbr
    && forall k :: 0 <= k < |p.free| ==> WordAt(m, p.table + 4 * k) == p.free[k]
  }

  /** Nothing is written but the pointer table of `p`. */
  ghost predicate WritesOnly(m: seq<Octet>, n: seq<Octet>, p: Pool) {
    |n| == |m| && forall a :: 0 <= a < |m| && !(p.table <= a < TableEnd(p)) ==> n[a] == m[a]
  }

  lemma TableFrame(m: seq<Octet>, n: seq<Octet>, p: Pool)
    requires TableHolds(m, p) && |n| == |m|
    requires forall a :: p.table <= a < TableEnd(p) ==> n[a] == m[a]
    ensures TableHolds(n, p)
  {
  }

  ghost predicate SegLinkedAt(heads: seq<MemPool>, i: nat)
    requires i < |heads|
    reads heads`SegPrevPtr, heads`SegNextPtr
  {
    && heads[i].SegPrevPtr == (if i == 0 then null else heads[i - 1])
    && heads[i].SegNextPtr == (if i == |heads| - 1 then null else heads[i + 1])
  }

  /** The heads of the segments, linked in both directions. */
  ghost predicate SegLinks(heads: seq<MemPool>)
    reads heads`SegPrevPtr, heads`SegNextPtr
  {
    forall i :: 0 <= i < |heads| ==> SegLinkedAt(heads, i)
  }

  ghost predicate HeadOk(heads: seq<MemPool>, segs: map<nat, Segment>, i: nat)
    requires i < |heads|
    reads heads`SegAddr, heads`SegAddrNextAvail, heads`SegSizeTot, heads`SegSizeRem
  {
    heads[i].SegAddr in segs && heads[i].Manages(segs[heads[i].SegAddr])
  }

  ghost predicate HasHead(heads: seq<MemPool>, b: nat)
    reads heads`SegAddr
  {
    exists i :: 0 <= i < |heads| && heads[i].SegAddr == b
  }

  ghost predicate Accounts(heads: seq<MemPool>, segs: map<nat, Segment>)
    reads heads`SegAddr, heads`SegAddrNextAvail, heads`SegSizeTot, heads`SegSizeRem
  {
    forall i :: 0 <= i < |heads| ==> HeadOk(heads, segs, i)
  }

  ghost predicate Ascending(heads: seq<MemPool>)
    reads heads`SegAddr
  {
    forall i, j :: 0 <= i < j < |heads| ==> heads[i].SegAddr < heads[j].SegAddr
  }

  /** The heads manage exactly the segments, in strictly ascending order of base address. */
  ghost predicate SegFields(heads: seq<MemPool>, segs: map<nat, Segment>)
    reads heads`SegAddr, heads`SegAddrNextAvail, heads`SegSizeTot, heads`SegSizeRem
  {
    Accounts(heads, segs) && Ascending(heads) && Covered(heads, segs)
  }

  ghost predicate Covered(heads: seq<MemPool>, segs: map<nat, Segment>)
    reads heads`SegAddr
  {
    forall b :: b in segs ==> HasHead(heads, b)
  }

  ghost predicate PoolLinkedAt(col: seq<MemPool>, k: nat)
    requires k < |col|
    reads col`PoolPrevPtr, col`PoolNextPtr
  {
    && col[k].PoolPrevPtr == (if k == 0 then null else col[k - 1])
    && col[k].PoolNextPtr == (if k == |col| - 1 then null else col[k + 1])
  }

  /** The pools of one segment, linked in both directions. */
  ghost predicate PoolLinks(col: seq<MemPool>)
    reads col`PoolPrevPtr, col`PoolNextPtr
  {
    forall k :: 0 <= k < |col| ==> PoolLinkedAt(col, k)
  }

  ghost predicate IsPool(objs: seq<MemPool>, x: MemPool)
    reads x`slot
  {
    0 <= x.slot < |objs| && objs[x.slot] == x
  }

  ghost predicate Slots(heap: MemPool, objs: seq<MemPool>)
    reads heap`slot, objs`slot
  {
    heap.slot == -1 && forall i :: 0 <= i < |objs| ==> objs[i].slot == i
  }

  /** Column `col` holds, once each, pools of segment `b`; the heap heads its own. */
  ghost predicate ColumnOf(heap: MemPool, heapAddr: nat, objs: seq<MemPool>, pools: seq<Pool>, b: nat,
                           col: seq<MemPool>)
    requires |objs| == |pools|
    reads col`slot
  {
    && |col| > 0
    && (forall j, k :: 0 <= j < k < |col| ==> col[j] != col[k])
    && (forall k :: 0 <= k < |col| ==>
          if b == heapAddr && k == 0 then col[k] == heap
          else IsPool(objs, col[k]) && pools[col[k].slot].seg == b)
  }

  ghost predicate ColumnOk(heap: MemPool, objs: seq<MemPool>, heads: seq<MemPool>,
                           column: map<nat, seq<MemPool>>, st: State, b: nat)
    requires |objs| == |st.pools| && b in column
    reads column[b]`slot, heads`SegAddr
  {
    && ColumnOf(heap, st.heap, objs, st.pools, b, column[b])
    && column[b][0] in heads && column[b][0].SegAddr == b
  }

  /** Column `b` is linked, within the structures of `repr`. */
  ghost predicate LinkedIn(repr: set<MemPool>, column: map<nat, seq<MemPool>>, b: nat)
    requires b in column
    reads repr`PoolPrevPtr, repr`PoolNextPtr
  {
    (forall k :: 0 <= k < |column[b]| ==> column[b][k] in repr) && PoolLinks(column[b])
  }

  ghost predicate AllLinked(repr: set<MemPool>, column: map<nat, seq<MemPool>>)
    reads repr`PoolPrevPtr, repr`PoolNextPtr
  {
    forall b {:trigger LinkedIn(repr, column, b)} :: b in column ==> LinkedIn(repr, column, b)
  }

  ghost predicate InItsColumn(objs: seq<MemPool>, column: map<nat, seq<MemPool>>, pools: seq<Pool>, i: nat)
    requires i < |objs| == |pools|
  {
    pools[i].seg in column && objs[i] in column[pools[i].seg]
  }

  /** Every segment has a column, headed by its head, and every pool is in its column. */
  ghost predicate Columns(repr: set<MemPool>, heap: MemPool, objs: seq<MemPool>, heads: seq<MemPool>,
                          column: map<nat, seq<MemPool>>, st: State)
    requires |objs| == |st.pools|
    reads repr`slot, repr`SegAddr
  {
    && column.Keys == st.segs.Keys
    && (forall x :: x in heads ==> x in repr)
    && (forall b, k {:trigger column[b][k]} :: b in column && 0 <= k < |column[b]| ==> column[b][k] in repr)
    && (forall b {:trigger ColumnOk(heap, objs, heads, column, st, b)} :: b in column ==>
          ColumnOk(heap, objs, heads, column, st, b))
    && (forall i :: 0 <= i < |objs| ==> InItsColumn(objs, column, st.pools, i))
  }

  lemma ColumnsIgnoreFree(repr: set<MemPool>, heap: MemPool, objs: seq<MemPool>, heads: seq<MemPool>,
                          column: map<nat, seq<MemPool>>, s: State, t: State)
    requires |objs| == |s.pools| == |t.pools| && s.segs.Keys == t.segs.Keys && s.heap == t.heap
    requires forall i :: 0 <= i < |s.pools| ==> t.pools[i].seg == s.pools[i].seg
    requires Columns(repr, heap, objs, heads, column, s)
    ensures Columns(repr, heap, objs, heads, column, t)
  {
    forall b | b in column ensures ColumnOk(heap, objs, heads, column, t, b) {
      assert ColumnOk(heap, objs, heads, column, s, b);
    }
    forall i | 0 <= i < |objs| ensures InItsColumn(objs, column, t.pools, i) {
      assert InItsColumn(objs, column, s.pools, i);
    }
  }

  /** A column with a new pool behind its head. */
  function WithPool(col: seq<MemPool>, pool: MemPool): seq<MemPool>
    requires |col| > 0
  {
    [col[0], pool] + col[1..]
  }

  lemma ColumnsAddPool(repr: set<MemPool>, heap: MemPool, objs: seq<MemPool>, heads: seq<MemPool>,
                       column: map<nat, seq<MemPool>>, s: State, t: State, b: nat, pool: MemPool)
    requires |objs| == |s.pools| && |t.pools| == |s.pools| + 1 && s.segs.Keys == t.segs.Keys && s.heap == t.heap
    requires t.pools[..|s.pools|] == s.pools && t.pools[|s.pools|].seg == b
    requires Columns(repr, heap, objs, heads, column, s)
    requires b in column && |column[b]| > 0 && pool !in repr && pool.slot == |objs|
    ensures Columns(repr + {pool}, heap, objs + [pool], heads, column[b := WithPool(column[b], pool)], t)
  {
    var column' := column[b := WithPool(column[b], pool)];
    assert forall i :: 0 <= i < |s.pools| ==> t.pools[i] == s.pools[i];
    forall c | c in column' ensures ColumnOk(heap, objs + [pool], heads, column', t, c) {
      assert ColumnOk(heap, objs, heads, column, s, c);
      WithPoolColumn(heap, objs, heads, column, s, t, c, pool, b, repr);
    }
    forall i | 0 <= i < |objs| + 1 ensures InItsColumn(objs + [pool], column', t.pools, i) {
      if i < |objs| {
        assert InItsColumn(objs, column, s.pools, i);
        if s.pools[i].seg == b { assert column[b] == [column[b][0]] + column[b][1..]; }
      } else {
        assert column'[b][1] == pool;
      }
    }
  }

  lemma WithPoolColumn(heap: MemPool, objs: seq<MemPool>, heads: seq<MemPool>, column: map<nat, seq<MemPool>>,
                       s: State, t: State, c: nat, pool: MemPool, b: nat, repr: set<MemPool>)
    requires |objs| == |s.pools| && |t.pools| == |s.pools| + 1 && s.heap == t.heap
    requires t.pools[..|s.pools|] == s.pools && t.pools[|s.pools|].seg == b
    requires c in column && b in column && |column[b]| > 0 && ColumnOk(heap, objs, heads, column, s, c)
    requires pool !in repr && pool.slot == |objs| && forall k :: 0 <= k < |column[c]| ==> column[c][k] in repr
    ensures ColumnOk(heap, objs + [pool], heads, column[b := WithPool(column[b], pool)], t, c)
  {
    var col := column[b := WithPool(column[b], pool)][c];
    assert forall i :: 0 <= i < |s.pools| ==> t.pools[i] == s.pools[i];
    if c == b {
      assert forall k :: 2 <= k < |col| ==> col[k] == column[c][k - 1];
    }
  }

  lemma ColumnsAddSeg(repr: set<MemPool>, heap: MemPool, objs: seq<MemPool>, heads: seq<MemPool>,
                      column: map<nat, seq<MemPool>>, s: State, t: State, b: nat, pool: MemPool, heads': seq<MemPool>)
    requires |objs| == |s.pools| && |t.pools| == |s.pools| + 1 && s.heap == t.heap != b
    requires b !in s.segs && t.segs.Keys == s.segs.Keys + {b}
    requires t.pools[..|s.pools|] == s.pools && t.pools[|s.pools|].seg == b
    requires Columns(repr, heap, objs, heads, column, s)
    requires pool !in repr && pool.slot == |objs| && pool.SegAddr == b
    requires pool in heads' && (forall x :: x in heads ==> x in heads')
    requires (forall x :: x in heads' ==> x in heads || x == pool)
    ensures Columns(repr + {pool}, heap, objs + [pool], heads', column[b := [pool]], t)
  {
    var column' := column[b := [pool]];
    assert forall i :: 0 <= i < |s.pools| ==> t.pools[i] == s.pools[i];
    forall c | c in column' ensures ColumnOk(heap, objs + [pool], heads', column', t, c) {
      if c != b { assert ColumnOk(heap, objs, heads, column, s, c); }
    }
    forall i | 0 <= i < |objs| + 1 ensures InItsColumn(objs + [pool], column', t.pools, i) {
      if i < |objs| { assert InItsColumn(objs, column, s.pools, i); } else { assert column'[b][0] == pool; }
    }
  }

  /** The two-dimensional table: segments across, in order, and the pools of each below it. */
  ghost predicate TableOk(repr: set<MemPool>, heap: MemPool, objs: seq<MemPool>, heads: seq<MemPool>,
                          column: map<nat, seq<MemPool>>, table: MemPool?, st: State)
    requires |objs| == |st.pools|
    reads repr`slot, repr`SegAddr, repr`SegAddrNextAvail, repr`SegSizeTot, repr`SegSizeRem
    reads repr`SegPrevPtr, repr`SegNextPtr, repr`PoolPrevPtr, repr`PoolNextPtr
  {
    && Columns(repr, heap, objs, heads, column, st) && AllLinked(repr, column)
    && table == (if heads == [] then null else heads[0])
    && SegLinks(heads) && SegFields(heads, st.segs)
  }

  lemma TableIgnoresFree(repr: set<MemPool>, heap: MemPool, objs: seq<MemPool>, heads: seq<MemPool>,
                         column: map<nat, seq<MemPool>>, table: MemPool?, s: State, i: nat, free: seq<nat>)
    requires i < |objs| == |s.pools| && TableOk(repr, heap, objs, heads, column, table, s)
    ensures TableOk(repr, heap, objs, heads, column, table, s.(pools := s.pools[i := s.pools[i].(free := free)]))
  {
    hide AllLinked, SegLinks, SegFields;
    ColumnsIgnoreFree(repr, heap, objs, heads, column, s, s.(pools := s.pools[i := s.pools[i].(free := free)]));
  }

  /** The table of `Mem_Init`: the heap alone. */
  lemma InitialTable(heap: MemPool, column: map<nat, seq<MemPool>>, st: State, heapSize: nat)
    requires st == InitState(heap.SegAddr, heapSize) && column == map[st.heap := [heap]]
    requires heap.SegPrevPtr == heap.SegNextPtr == heap.PoolPrevPtr == heap.PoolNextPtr == null
    requires heap.SegAddrNextAvail == heap.SegAddr && heap.SegSizeTot == heap.SegSizeRem == heapSize
    ensures TableOk({heap}, heap, [], [heap], column, heap, st)
  {
    var col := column[st.heap];
    assert col == [heap] && col[0] == heap;
    assert SegFields(col, st.segs) by { assert HeadOk(col, st.segs, 0) && col[0].SegAddr == st.heap; }
    assert column.Keys == {st.heap} == st.segs.Keys;
    assert ColumnOk(heap, [], col, column, st, st.heap);
    assert LinkedIn({heap}, column, st.heap);
  }

  /** Structure `i` and its table in memory are what pool `i` says. */
  ghost predicate PoolStored(m: seq<Octet>, objs: seq<MemPool>, pools: seq<Pool>, i: nat)
    requires i < |objs| == |pools|
    reads objs`Type, objs`PoolAddrStart, objs`PoolAddrEnd, objs`PoolPtrs, objs`PoolSize
    reads objs`BlkNbr, objs`BlkSize, objs`BlkAlign, objs`BlkIx
  {
    Shape(pools[i]) && objs[i].Describes(pools[i]) && TableHolds(m, pools[i])
  }

  ghost predicate Stored(m: seq<Octet>, objs: seq<MemPool>, pools: seq<Pool>)
    requires |objs| == |pools|
    reads objs`Type, objs`PoolAddrStart, objs`PoolAddrEnd, objs`PoolPtrs, objs`PoolSize
    reads objs`BlkNbr, objs`BlkSize, objs`BlkAlign, objs`BlkIx
  {
    forall i :: 0 <= i < |objs| ==> PoolStored(m, objs, pools, i)
  }

  lemma TablesApart(s: State, i: nat, j: nat)
    requires Inv(s) && i < |s.pools| && j < |s.pools| && i != j
    ensures Apart(s.pools[i].table, TableEnd(s.pools[i]), s.pools[j].table, TableEnd(s.pools[j]))
  {
    assert PoolOk(s, i) && PoolOk(s, j);
    if i < j { assert PoolsApart(s.pools[i], s.pools[j]); } else { assert PoolsApart(s.pools[j], s.pools[i]); }
  }

  /** Storing a pointer on top of the stack. */
  lemma TablePush(m: seq<Octet>, p: Pool, blk: Word)
    requires TableHolds(m, p) && |p.free| < p.nbr
    ensures TableHolds(PutWord(m, p.table + 4 * |p.free|, blk), p.(free := Pushed(p.free, blk)))
  {
    LoadAfterStore(m, p.table + 4 * |p.free|, blk);
  }

  /** A change of one pool's free list, written nowhere but in its own table. */
  lemma StoredUpdate(m: seq<Octet>, n: seq<Octet>, objs: seq<MemPool>, s: State, i: nat, free: seq<nat>)
    requires Inv(s) && i < |objs| == |s.pools| && |n| == |m|
    requires forall j :: 0 <= j < |objs| && j != i ==> PoolStored(m, objs, s.pools, j)
    requires var q := s.pools[i].(free := free); Shape(q) && objs[i].Describes(q) && TableHolds(n, q)
    requires forall a :: 0 <= a < |m| && !(s.pools[i].table <= a < TableEnd(s.pools[i])) ==> n[a] == m[a]
    ensures Stored(n, objs, s.pools[i := s.pools[i].(free := free)])
  {
    hide Inv, CalcTot, Stride;
    var pools := s.pools[i := s.pools[i].(free := free)];
    forall j | 0 <= j < |objs| ensures PoolStored(n, objs, pools, j) {
      if j != i {
        assert PoolStored(m, objs, s.pools, j);
        TablesApart(s, i, j);
        TableFrame(m, n, s.pools[j]);
      }
    }
  }

  function AtOrNull(heads: seq<MemPool>, i: int): MemPool? {
    if 0 <= i < |heads| then heads[i] else null
  }

  /** A segment at `base` belongs between heads `k - 1` and `k`. */
  ghost predicate Between(heads: seq<MemPool>, base: nat, k: nat)
    reads heads`SegAddr
  {
    && k <= |heads|
    && (forall i :: 0 <= i < k ==> heads[i].SegAddr < base)
    && (forall i :: k <= i < |heads| ==> base < heads[i].SegAddr)
  }

  lemma SharedMeansNoOverlap(s: State, base: nat, memSize: nat)
    requires SegsOk(s.segs) && Shares(s, base, memSize)
    ensures !OverlapsOther(s, base, memSize)
  {
  }

  /** The segments below head `k` end before `base`, the others start after the new end. */
  lemma GapMeansNoOverlap(heads: seq<MemPool>, s: State, base: nat, memSize: nat, k: nat)
    requires SegFields(heads, s.segs) && SegsOk(s.segs) && k <= |heads| && memSize > 0
    requires forall i :: 0 <= i < k ==> heads[i].SegAddr + heads[i].SegSizeTot <= base
    requires k < |heads| ==> base + memSize <= heads[k].SegAddr
    ensures !OverlapsOther(s, base, memSize) && base !in s.segs && Between(heads, base, k)
  {
    forall i | 0 <= i < |heads|
      ensures if i < k then heads[i].SegAddr < base else base + memSize <= heads[i].SegAddr
      ensures !Overlap(base, memSize, heads[i].SegAddr, heads[i].SegSizeTot)
    {
      assert HeadOk(heads, s.segs, i) && SegOk(heads[i].SegAddr, s.segs[heads[i].SegAddr]);
    }
    forall b | b in s.segs ensures !Overlap(base, memSize, b, s.segs[b].tot) && b != base {
      assert HasHead(heads, b);
      var i :| 0 <= i < |heads| && heads[i].SegAddr == b;
      assert HeadOk(heads, s.segs, i);
    }
  }

  ghost predicate Nodup(xs: seq<MemPool>) {
    forall i, j :: 0 <= i < j < |xs| ==> xs[i] != xs[j]
  }

  lemma NodupHeads(heads: seq<MemPool>)
    requires Ascending(heads)
    ensures Nodup(heads)
  {
  }

  /** The new pool goes behind the head of its segment's list. */
  method LinkPool(pool: MemPool, head: MemPool, ghost col: seq<MemPool>)
    requires |col| > 0 && head == col[0] && pool !in col && Nodup(col) && PoolLinks(col)
    modifies pool`PoolPrevPtr, pool`PoolNextPtr, col`PoolPrevPtr, col`PoolNextPtr
    ensures PoolLinks(WithPool(col, pool))
  {
    assert PoolLinkedAt(col, 0);
    var next := head.PoolNextPtr;
    pool.PoolPrevPtr, pool.PoolNextPtr := head, next;
    head.PoolNextPtr := pool;
    if next != null {
      next.PoolPrevPtr := pool;
    }
    ghost var col' := WithPool(col, pool);
    forall k | 0 <= k < |col'| ensures PoolLinkedAt(col', k) {
      if k >= 2 {
        assert old(PoolLinkedAt(col, k - 1));
        assert col'[k] == col[k - 1] && (k + 1 < |col'| ==> col'[k + 1] == col[k]);
      }
    }
  }

  /** A list of heads with a new one at place `k`. */
  function WithHead(heads: seq<MemPool>, k: nat, pool: MemPool): seq<MemPool>
    requires k <= |heads|
  {
    heads[..k] + [pool] + heads[k..]
  }

  lemma WithHeadMembers(heads: seq<MemPool>, k: nat, pool: MemPool)
    requires k <= |heads|
    ensures var heads' := WithHead(heads, k, pool);
            && pool in heads' && (forall x :: x in heads ==> x in heads')
            && (forall x :: x in heads' ==> x in heads || x == pool)
  {
    var heads' := WithHead(heads, k, pool);
    assert heads'[k] == pool;
    assert heads == heads[..k] + heads[k..];
  }

  /** Structure `b` heads its segment and keeps its account. */
  lemma HeadOf(repr: set<MemPool>, heap: MemPool, objs: seq<MemPool>, heads: seq<MemPool>,
               column: map<nat, seq<MemPool>>, table: MemPool?, st: State, b: nat)
    returns (i: nat)
    requires |objs| == |st.pools| && TableOk(repr, heap, objs, heads, column, table, st) && b in st.segs
    ensures b in column && |column[b]| > 0 && i < |heads| && heads[i] == column[b][0]
    ensures heads[i].SegAddr == b && heads[i].Manages(st.segs[b]) && (b == st.heap ==> heads[i] == heap)
    ensures heads[i] in repr && Nodup(column[b]) && PoolLinks(column[b])
    ensures forall k :: 0 <= k < |column[b]| ==> column[b][k] in repr
    ensures (forall x :: x in heads ==> x in repr) && column.Keys == st.segs.Keys
    ensures forall j :: 0 <= j < |heads| && heads[j].SegAddr == b ==> j == i
  {
    assert ColumnOk(heap, objs, heads, column, st, b);
    i :| 0 <= i < |heads| && heads[i] == column[b][0];
    assert HeadOk(heads, st.segs, i);
    assert LinkedIn(repr, column, b);
  }

  /** The table is empty until `Mem_Init`. */
  lemma TableNullIff(repr: set<MemPool>, heap: MemPool, objs: seq<MemPool>, heads: seq<MemPool>,
                     column: map<nat, seq<MemPool>>, table: MemPool?, st: State)
    requires |objs| == |st.pools| && TableOk(repr, heap, objs, heads, column, table, st) && Inv(st)
    ensures table == null <==> st.heap !in st.segs
  {
    assert heads != [] ==> HeadOk(heads, st.segs, 0);
    if st.heap in st.segs {
      var i := HeadOf(repr, heap, objs, heads, column, table, st, st.heap);
    }
  }

  /** Two columns have no structure in common. */
  lemma ColumnsDisjoint(repr: set<MemPool>, heap: MemPool, objs: seq<MemPool>, heads: seq<MemPool>,
                        column: map<nat, seq<MemPool>>, st: State, b: nat, c: nat)
    requires |objs| == |st.pools| && Slots(heap, objs) && Columns(repr, heap, objs, heads, column, st)
    requires b in column && c in column && b != c
    ensures forall x :: x in column[b] ==> x !in column[c]
    ensures forall x :: x in column[c] ==> x in repr
  {
    assert ColumnOk(heap, objs, heads, column, st, b) && ColumnOk(heap, objs, heads, column, st, c);
  }

  lemma LinkedAddPool(repr: set<MemPool>, column: map<nat, seq<MemPool>>, b: nat, col: seq<MemPool>, pool: MemPool)
    requires forall x :: x in col ==> x in repr || x == pool
    requires PoolLinks(col)
    requires forall c :: c in column && c != b ==> PoolLinks(column[c]) && forall x :: x in column[c] ==> x in repr
    ensures AllLinked(repr + {pool}, column[b := col])
  {
    var column' := column[b := col];
    forall c | c in column' ensures LinkedIn(repr + {pool}, column', c) {
      assert forall k :: 0 <= k < |column'[c]| ==> column'[c][k] in column'[c];
    }
  }

  lemma LinkedAddSeg(repr: set<MemPool>, column: map<nat, seq<MemPool>>, b: nat, pool: MemPool)
    requires AllLinked(repr, column) && b !in column && pool.PoolPrevPtr == pool.PoolNextPtr == null
    ensures AllLinked(repr + {pool}, column[b := [pool]])
  {
    forall c | c in column ensures PoolLinks(column[c]) && forall x :: x in column[c] ==> x in repr {
      assert LinkedIn(repr, column, c);
    }
    LinkedAddPool(repr, column, b, [pool], pool);
  }

  lemma FieldsAddSeg(heads: seq<MemPool>, s: map<nat, Segment>, t: map<nat, Segment>, b: nat, pool: MemPool, k: nat)
    requires Accounts(heads, t) && Ascending(heads) && Covered(heads, s) && t.Keys == s.Keys + {b}
    requires pool.SegAddr == b && pool.Manages(t[b]) && Between(heads, b, k)
    ensures SegFields(WithHead(heads, k, pool), t)
  {
    hide Accounts, Covered;
    var heads' := WithHead(heads, k, pool);
    AccountsAddSeg(heads, t, b, pool, k);
    CoveredAddSeg(heads, s, t, b, pool, k);
  }

  lemma AccountsAddSeg(heads: seq<MemPool>, t: map<nat, Segment>, b: nat, pool: MemPool, k: nat)
    requires Accounts(heads, t) && b in t && pool.SegAddr == b && pool.Manages(t[b]) && k <= |heads|
    ensures Accounts(WithHead(heads, k, pool), t)
  {
    var heads' := WithHead(heads, k, pool);
    forall i | 0 <= i < |heads'| ensures HeadOk(heads', t, i) {
      if i < k { assert HeadOk(heads, t, i); } else if i > k { assert HeadOk(heads, t, i - 1); }
    }
  }

  lemma CoveredAddSeg(heads: seq<MemPool>, s: map<nat, Segment>, t: map<nat, Segment>, b: nat, pool: MemPool, k: nat)
    requires Covered(heads, s) && t.Keys == s.Keys + {b} && pool.SegAddr == b && k <= |heads|
    ensures Covered(WithHead(heads, k, pool), t)
  {
    var heads' := WithHead(heads, k, pool);
    assert heads'[k] == pool;
    forall c | c in t ensures HasHead(heads', c) {
      if c != b {
        assert HasHead(heads, c);
        var i :| 0 <= i < |heads| && heads[i].SegAddr == c;
        assert heads[i] == heads'[if i < k then i else i + 1];
      }
    }
  }

  /** The new pool joins those whose tables are intact. */
  lemma StoredAddPool(m: seq<Octet>, n: seq<Octet>, objs: seq<MemPool>, s: State, t: State, p: Pool, pool: MemPool)
    requires Inv(t) && |objs| == |s.pools| && t.pools == s.pools + [p] && |m| == |n|
    requires Stored(m, objs, s.pools)
    requires Shape(p) && pool.Describes(p) && TableHolds(n, p)
    requires forall a :: 0 <= a < |m| && !(p.table <= a < TableEnd(p)) ==> n[a] == m[a]
    ensures Stored(n, objs + [pool], t.pools)
  {
    hide Inv, CalcTot, Stride;
    forall j | 0 <= j < |objs| + 1 ensures PoolStored(n, objs + [pool], t.pools, j) {
      if j < |objs| {
        assert PoolStored(m, objs, s.pools, j) && t.pools[j] == s.pools[j];
        TablesApart(t, |objs|, j);
        TableFrame(m, n, s.pools[j]);
      }
    }
  }

  lemma InvSeg(s: State, b: nat)
    requires Inv(s) && b in s.segs
    ensures SegOk(b, s.segs[b])
  {
  }

  /** A creation whose arguments are valid, and that passes the size tests. */
  ghost predicate Passing(s: State, base: Word, memSize: Word, nbr: Word, size: Word, blkAlign: Word) {
    && Inv(s) && CreateOk(s, base, memSize, nbr, size, blkAlign)
    && Passes(s, base, memSize, nbr, size, EffectiveAlign(blkAlign))
  }

  /** Blocks come from segment `b`, the heap's or a shared one. */
  predicate Sharing(s: State, base: Word, memSize: Word, b: nat) {
    (base != 0 ==> Shares(s, base, memSize)) && b == if base == 0 then s.heap else base
  }

  /** What the carving starts from, and what it makes of the segments. */
  lemma PassingCarves(s: State, base: Word, memSize: Word, nbr: Word, size: Word, blkAlign: Word)
    requires Passing(s, base, memSize, nbr, size, blkAlign)
    ensures s.heap in s.segs && nbr >= 1 && size >= 1 && SegOk(s.heap, s.segs[s.heap])
    ensures TableTot(s, nbr) <= Rem(s.heap, s.segs[s.heap]) && Room(s, base, memSize, nbr) >= 0
    ensures Fits(s, base, memSize, nbr, size, EffectiveAlign(blkAlign)) || size + EffectiveAlign(blkAlign) <= W32
    ensures base == 0 || Shares(s, base, memSize) ==>
              SegsAfter(s, base, memSize, nbr, size, EffectiveAlign(blkAlign)).Keys == s.segs.Keys
    ensures base != 0 && !Shares(s, base, memSize) ==> base !in s.segs
  {
    hide CalcTot, Spend, Stride, Admits, OverlapsOther, Overlap;
    PassesLeavesRoom(s, base, memSize, nbr, size, EffectiveAlign(blkAlign));
    SegsAfterOk(s, base, memSize, nbr, size, EffectiveAlign(blkAlign));
    SegOkAt(s.segs, s.heap);
  }

  /** What it leaves: a state that satisfies the invariant, with a pool more if the blocks fitted. */
  lemma CarvedKeeps(s: State, base: Word, memSize: Word, nbr: Word, size: Word, blkAlign: Word)
    requires Passing(s, base, memSize, nbr, size, blkAlign)
    ensures s.heap in s.segs && nbr >= 1 && size >= 1
    ensures var align := EffectiveAlign(blkAlign);
            var t, p := Carved(s, base, memSize, nbr, size, align).st, NewPool(s, base, memSize, nbr, size, align);
            && Inv(t) && t.heap == s.heap && s.segs.Keys <= t.segs.Keys
            && t == CarvedState(s, base, memSize, nbr, size, align)
            && (forall c :: c in s.segs ==> t.segs[c].tot == s.segs[c].tot)
            && p == Pool(if base == 0 then s.heap else base, PoolStart(s, base, memSize, nbr), p.table, nbr, size,
                         align, p.free)
            && s.segs[s.heap].next <= p.table && |p.free| == nbr % IX
            && (Fits(s, base, memSize, nbr, size, align) ==> Shape(p) && p.start < End(p) < W32)
  {
    hide CalcTot, AlignUp, BlockSeq, Stride, OverlapsOther, Create, Inv, Spend, SegsAfter, Admits, SegsOk, CreateOk;
    var align := EffectiveAlign(blkAlign);
    CreateKeepsInv(s, base, memSize, nbr, size, blkAlign);
    PassesIff(s, base, memSize, nbr, size, blkAlign);
    assert nbr % IX <= nbr;
    PassingCarves(s, base, memSize, nbr, size, blkAlign);
    InvSegs(s);
    PassingGrows(s, base, memSize, nbr, size, blkAlign);
    if Fits(s, base, memSize, nbr, size, align) {
      CarvedExtends(s, base, memSize, nbr, size, blkAlign);
      var t, p := Carved(s, base, memSize, nbr, size, align).st, NewPool(s, base, memSize, nbr, size, align);
      SegOkAt(t.segs, p.seg);
    }
  }

  lemma PassingGrows(s: State, base: Word, memSize: Word, nbr: Word, size: Word, blkAlign: Word)
    requires Passing(s, base, memSize, nbr, size, blkAlign)
    requires s.heap in s.segs && nbr >= 1 && size >= 1
    ensures SegsGrow(s.segs, SegsAfter(s, base, memSize, nbr, size, EffectiveAlign(blkAlign)))
  {
    hide CalcTot, Spend, Stride, Admits, OverlapsOther, Overlap, SegsAfter;
    PassesLeavesRoom(s, base, memSize, nbr, size, EffectiveAlign(blkAlign));
    SegsAfterOk(s, base, memSize, nbr, size, EffectiveAlign(blkAlign));
  }

  /** The state after the carving, spelt out. */
  function CarvedState(s: State, base: Word, memSize: Word, nbr: Word, size: Word, align: Word): State
    requires s.heap in s.segs && nbr >= 1 && size >= 1 && align >= 1
  {
    State(s.heap, SegsAfter(s, base, memSize, nbr, size, align),
          if Fits(s, base, memSize, nbr, size, align) then s.pools + [NewPool(s, base, memSize, nbr, size, align)]
          else s.pools)
  }

  lemma WholeTotal(p: Pool)
    requires Shape(p) && End(p) < W32
    ensures Wrap(CalcTot(p.start, p.nbr, p.size, p.align)) == CalcTot(p.start, p.nbr, p.size, p.align)
  {
    hide CalcTot;
    WrapSmall(CalcTot(p.start, p.nbr, p.size, p.align));
  }

  /** The accounts after a carving from segment `b`. */
  lemma SharedAfter(s: State, base: Word, memSize: Word, nbr: Word, size: Word, align: Word, b: nat)
    requires s.heap in s.segs && nbr >= 1 && size >= 1 && align >= 1 && Sharing(s, base, memSize, b)
    ensures b in s.segs && (InHeap(s, base, memSize) <==> b == s.heap)
    ensures var start, room := CarveStart(s, base, memSize, nbr), Room(s, base, memSize, nbr);
            var segs, next := SegsAfter(s, base, memSize, nbr, size, align), Spend(start, room, nbr, size, align);
            && b in segs && segs[b] == Segment(s.segs[b].tot, next)
            && room - (next - start) == s.segs[b].tot - (next - b)
            && s.heap in segs
            && (b != s.heap ==> segs[s.heap] == s.segs[s.heap].(next := s.segs[s.heap].next + TableTot(s, nbr)))
            && forall c :: c in s.segs && c != b && c != s.heap ==> c in segs && segs[c] == s.segs[c]
    ensures b != s.heap ==> PoolStart(s, base, memSize, nbr) == s.segs[b].next && s.segs[b].tot == memSize && b == base
  {
    hide Spend, CalcTot, Fits;
  }

  /** A state `t` that keeps every segment, with pool `p` more, or with none. */
  ghost predicate Follows(s: State, t: State, p: Pool, nbr: nat, more: bool) {
    && Inv(t) && t.heap == s.heap && s.heap in s.segs && s.segs.Keys <= t.segs.Keys
    && (forall c :: c in s.segs ==> t.segs[c].tot == s.segs[c].tot)
    && s.segs[s.heap].next <= p.table && |p.free| == nbr % IX && p.nbr == nbr
    && t.pools == (if more then s.pools + [p] else s.pools)
    && (more ==> Shape(p) && p.start < End(p) < W32
                 && Wrap(CalcTot(p.start, nbr, p.size, p.align)) == CalcTot(p.start, nbr, p.size, p.align))
  }

  lemma CarvedFollows(s: State, base: Word, memSize: Word, nbr: Word, size: Word, blkAlign: Word)
    requires Passing(s, base, memSize, nbr, size, blkAlign)
    ensures s.heap in s.segs && nbr >= 1 && size >= 1
    ensures var align := EffectiveAlign(blkAlign);
            var p := NewPool(s, base, memSize, nbr, size, align);
            && Follows(s, CarvedState(s, base, memSize, nbr, size, align), p, nbr,
                       Fits(s, base, memSize, nbr, size, align))
            && p == Pool(if base == 0 then s.heap else base, PoolStart(s, base, memSize, nbr), p.table, nbr, size,
                         align, p.free)
  {
    hide Inv, CalcTot, SegsAfter, NewPool, Fits, Shape, Wrap, Passes, CreateOk;
    CarvedKeeps(s, base, memSize, nbr, size, blkAlign);
    var align := EffectiveAlign(blkAlign);
    if Fits(s, base, memSize, nbr, size, align) { WholeTotal(NewPool(s, base, memSize, nbr, size, align)); }
  }

  /** A segment that there is stays the only place for the new pool. */
  lemma SharingKeys(s: State, base: Word, memSize: Word, nbr: Word, size: Word, blkAlign: Word, b: nat)
    requires Passing(s, base, memSize, nbr, size, blkAlign) && Sharing(s, base, memSize, b)
    ensures s.heap in s.segs && nbr >= 1 && size >= 1 && b in s.segs
    ensures CarvedState(s, base, memSize, nbr, size, EffectiveAlign(blkAlign)).segs.Keys == s.segs.Keys
  {
    hide Inv, CalcTot, SegsAfter, NewPool, Fits;
    PassingCarves(s, base, memSize, nbr, size, blkAlign);
  }

  /** The outcomes of a creation without a base address. */
  lemma HeapOutcome(s: State, memSize: Word, nbr: Word, size: Word, blkAlign: Word)
    requires Inv(s) && CreateOk(s, 0, memSize, nbr, size, blkAlign) && nbr >= 1 && size >= 1 && s.heap in s.segs
    ensures s.segs[s.heap].next + TableTot(s, nbr) < W32
    ensures var c, align := Create(s, 0, memSize, nbr, size, blkAlign), EffectiveAlign(blkAlign);
            var tot := TableTot(s, nbr) + CalcTot(PoolStart(s, 0, memSize, nbr), nbr, size, align);
            var rem := Rem(s.heap, s.segs[s.heap]);
            if !Admits(tot, rem) then c == Created(s, HeapEmpty, Wrap(tot) - rem)
            else Passing(s, 0, memSize, nbr, size, blkAlign)
                 && c == Created(CarvedState(s, 0, memSize, nbr, size, align),
                                 if Fits(s, 0, memSize, nbr, size, align) then ErrNone else SegEmpty, 0)
  {
    hide CalcTot, SegsAfter, NewPool, Fits, Wrap, Inv, TotalsOk, ByAddressOk;
  }

  /** The outcomes of a creation with a base address. */
  lemma SegOutcome(s: State, base: Word, memSize: Word, nbr: Word, size: Word, blkAlign: Word)
    requires Inv(s) && CreateOk(s, base, memSize, nbr, size, blkAlign) && nbr >= 1 && size >= 1 && s.heap in s.segs
    requires base > 0 && memSize > 0
    ensures base + memSize < W32 && s.segs[s.heap].next + TableTot(s, nbr) < W32
    ensures base in s.segs && !OverlapsOther(s, base, memSize) ==> Shares(s, base, memSize)
    ensures var c, align := Create(s, base, memSize, nbr, size, blkAlign), EffectiveAlign(blkAlign);
            var start := PoolStart(s, base, memSize, nbr);
            var tableTot, heapRem := TableTot(s, nbr), Rem(s.heap, s.segs[s.heap]);
            var poolTot, rem := CalcTot(start, nbr, size, align), memSize - (start - base);
            if OverlapsOther(s, base, memSize) then c == Created(s, InvalidSegOverlap, 0)
            else if tableTot > heapRem then c == Created(s, HeapEmpty, tableTot - heapRem)
            else if !Admits(poolTot, rem) then c == Created(s, SegEmpty, Wrap(poolTot) - rem)
            else Passing(s, base, memSize, nbr, size, blkAlign)
                 && c == Created(CarvedState(s, base, memSize, nbr, size, align),
                                 if Fits(s, base, memSize, nbr, size, align) then ErrNone else SegEmpty, 0)
  {
    hide CalcTot, SegsAfter, NewPool, Fits, Wrap, Inv, TotalsOk, ByAddressOk, OverlapsOther;
    InvSegs(s);
    if !OverlapsOther(s, base, memSize) { NewSegOk(s, base, memSize); }
  }

  /** A carving takes the pointer table from the heap, so that its state is a new one. */
  lemma PassingMoves(s: State, base: Word, memSize: Word, nbr: Word, size: Word, blkAlign: Word)
    requires Passing(s, base, memSize, nbr, size, blkAlign)
    ensures s.heap in s.segs && nbr >= 1 && size >= 1
    ensures CarvedState(s, base, memSize, nbr, size, EffectiveAlign(blkAlign)) != s
  {
    hide CalcTot, Spend, Stride, Admits, OverlapsOther, SegsAfter;
    PassesLeavesRoom(s, base, memSize, nbr, size, EffectiveAlign(blkAlign));
    SegsAfterOk(s, base, memSize, nbr, size, EffectiveAlign(blkAlign));
    TableBounds(s.segs[s.heap].next, nbr);
  }

  lemma PassingFounds(s: State, base: Word, memSize: Word, nbr: Word, size: Word, blkAlign: Word)
    requires Passing(s, base, memSize, nbr, size, blkAlign) && base != 0 && !Shares(s, base, memSize)
    ensures s.heap in s.segs && nbr >= 1 && size >= 1 && base !in s.segs && base != s.heap
    ensures var segs := SegsAfter(s, base, memSize, nbr, size, EffectiveAlign(blkAlign));
            if Fits(s, base, memSize, nbr, size, EffectiveAlign(blkAlign))
            then segs.Keys == s.segs.Keys + {base as nat} && segs[base].tot == memSize
            else segs.Keys == s.segs.Keys
  {
    hide CalcTot, Spend, Fits;
    PassingCarves(s, base, memSize, nbr, size, blkAlign);
  }

  /** Octets below the next available address of their segment are as they were. */
  ghost predicate KeepsInUse(s: State, m: seq<Octet>, n: seq<Octet>) {
    |n| == |m| && forall b, a: nat :: b in s.segs && b <= a < s.segs[b].next && a < |m| ==> n[a] == m[a]
  }

  /** The carving writes no octet in use. */
  lemma CarvedKeepsInUse(s: State, base: Word, memSize: Word, nbr: Word, size: Word, blkAlign: Word,
                         m: seq<Octet>, n: seq<Octet>)
    requires Passing(s, base, memSize, nbr, size, blkAlign)
    requires s.heap in s.segs && nbr >= 1 && size >= 1
    requires WritesOnly(m, n, NewPool(s, base, memSize, nbr, size, EffectiveAlign(blkAlign)))
    ensures KeepsInUse(s, m, n)
  {
    hide CalcTot, BlockSeq, CreateOk, Passes, SegsAfter, Fits;
    PassingCarves(s, base, memSize, nbr, size, blkAlign);
    TableBounds(s.segs[s.heap].next, nbr);
    forall b, a: nat | b in s.segs && b <= a < s.segs[b].next && a < |m| ensures n[a] == m[a] {
      if b != s.heap { assert !Overlap(b, s.segs[b].tot, s.heap, s.segs[s.heap].tot) && SegOk(b, s.segs[b]); }
    }
  }

  /** The pointer table of a pool is in use. */
  lemma TableInUse(s: State, i: nat)
    requires Inv(s) && i < |s.pools| && s.heap in s.segs
    ensures Shape(s.pools[i]) && TableEnd(s.pools[i]) <= s.segs[s.heap].next
  {
    assert PoolOk(s, i);
  }

  class MemLib {
    const ram: array<Octet>
    const heapAddr: Word   // &Mem_Heap[0]
    const heapSize: Word   // LIB_MEM_CFG_HEAP_SIZE
    const heap: MemPool    // Mem_PoolHeap
    var table: MemPool?    // Mem_PoolTbl

    ghost var st: State
    ghost var objs: seq<MemPool>              // the pools, in order of creation
    ghost var heads: seq<MemPool>             // the segments, lowest base address first
    ghost var column: map<nat, seq<MemPool>>  // the pools of each segment, its head first
    ghost var Repr: set<MemPool>

    /** The heap lies in memory, and no buffer reaches the end of the address space. */
    ghost predicate Configured() {
      0 < heapAddr && 0 < heapSize && heapAddr + heapSize <= ram.Length < W32
    }

    ghost predicate Valid()
      reads this, Repr, ram
    {
      && Configured()
      && heap in Repr && (forall i :: 0 <= i < |objs| ==> objs[i] in Repr)
      && Inv(st) && st.heap == heapAddr && |objs| == |st.pools|
      && (forall b :: b in st.segs ==> b + st.segs[b].tot <= ram.Length)
      && Slots(heap, objs) && TableOk(Repr, heap, objs, heads, column, table, st)
      && Stored(ram[..], objs, st.pools)
      && (heapAddr in st.segs ==> heap.Type == TypeHeap)
    }

    /** A structure that claims to be a pool has been created as one. */
    ghost predicate Known(pool: MemPool)
      reads this, pool
    {
      pool.Type == TypePool ==> IsPool(objs, pool)
    }

    constructor (ram: array<Octet>, heapAddr: Word, heapSize: Word)
      requires 0 < heapAddr && 0 < heapSize && heapAddr + heapSize <= ram.Length < W32
      ensures Valid() && fresh(Repr) && this.ram == ram && this.heapAddr == heapAddr && this.heapSize == heapSize
      ensures st == State(heapAddr, map[], []) && table == null && objs == []
    {
      this.ram, this.heapAddr, this.heapSize := ram, heapAddr, heapSize;
      heap := new MemPool();
      table := null;
      st := State(heapAddr, map[], []);
      objs, heads, column := [], [], map[];
      new;
      Repr := {heap};
    }

    /** `Mem_Init`. */
    method Init()
      requires Configured() && heap.slot == -1
      modifies this, heap
      ensures Valid() && Repr == {heap} && st == InitState(heapAddr, heapSize) && objs == []
    {
      hide Inv, TableOk;
      heap.InitHeap(heapAddr, heapSize);
      table := heap;
      st := InitState(heapAddr, heapSize);
      objs, heads, column, Repr := [], [heap], map[heapAddr as nat := [heap]], {heap};
      InitKeepsInv(heapAddr, heapSize);
      InitialTable(heap, column, st, heapSize);
    }

    /** `Mem_PoolBlkGet`. */
    method BlkGet(pool: MemPool?, size: Word) returns (blk: Word, err: Err)
      requires Valid() && (pool != null ==> Known(pool))
      modifies `st, objs`BlkIx
      ensures pool == null ==> blk == 0 && err == NullPtr && st == old(st)
      ensures pool != null && pool.Type != TypePool ==> blk == 0 && err == InvalidPool && st == old(st)
      ensures pool != null && pool.Type == TypePool ==> Got(st, err, blk) == Get(old(st), pool.slot, size)
      ensures pool != null && pool.Type == TypePool ==> (err == InvalidBlkSize <==> size > pool.BlkSize)
      ensures Valid()
    {
      hide Inv, TableOk, CalcTot, Stride;
      if pool == null {
        return 0, NullPtr;
      }
      if pool.Type != TypePool {
        return 0, InvalidPool;
      }
      assert PoolStored(ram[..], objs, st.pools, pool.slot);
      if size > pool.BlkSize {
        return 0, InvalidBlkSize;
      }
      if pool.BlkIx < 1 {
        return 0, NoneAvail;
      }
      assert pool.BlkIx <= pool.BlkNbr;  // InvalidBlkIx cannot arise
      blk := Pop(pool, size);
      err := ErrNone;
    }

    /** The block on top of the stack is taken off. */
    method Pop(pool: MemPool, ghost size: nat) returns (blk: Word)
      requires Valid() && IsPool(objs, pool) && Get(st, pool.slot, size).err == ErrNone
      modifies `st, pool`BlkIx
      ensures Got(st, ErrNone, blk) == Get(old(st), pool.slot, size)
      ensures Valid()
    {
      hide Inv, TableOk, CalcTot, Stride;
      ghost var i, s := pool.slot, st;
      assert PoolStored(ram[..], objs, st.pools, i);
      pool.BlkIx := pool.BlkIx - 1;
      blk := ReadWord(ram, pool.PoolPtrs + 4 * pool.BlkIx);
      GetKeepsInv(s, i, size);
      st := Get(s, i, size).st;
      TableIgnoresFree(Repr, heap, objs, heads, column, table, s, i, st.pools[i].free);
      forall j | 0 <= j < |objs| && j != i ensures PoolStored(ram[..], objs, s.pools, j) {
        assert old(PoolStored(ram[..], objs, s.pools, j)) && objs[j].slot == j;
      }
      StoredUpdate(ram[..], ram[..], objs, s, i, st.pools[i].free);
    }

    /** Whether the block is among the pool's free blocks. */
    method IsListed(pool: MemPool, blk: Word, ghost p: Pool) returns (listed: bool)
      requires TableHolds(ram[..], p) && ram.Length < W32
      requires pool.PoolPtrs == p.table && p.table % 4 == 0 && pool.BlkIx == |p.free|
      ensures listed <==> blk in p.free
    {
      var k: Word := 0;
      while k < pool.BlkIx
        invariant k <= pool.BlkIx && blk !in p.free[..k]
      {
        var ptr := ReadWord(ram, pool.PoolPtrs + 4 * k);
        if blk == ptr {
          assert p.free[k] == blk;
          return true;
        }
        assert p.free[..k + 1] == p.free[..k] + [p.free[k]];
        k := k + 1;
      }
      assert p.free[..k] == p.free;
      return false;
    }

    /** The address goes on top of the stack, and the 16-bit index is one more. */
    method PushWord(pool: MemPool, blk: Word, ghost p: Pool)
      requires Shape(p) && pool.Describes(p) && TableHolds(ram[..], p) && |p.free| < p.nbr && ram.Length < W32
      modifies pool`BlkIx, ram
      ensures var q := p.(free := Pushed(p.free, blk));
              Shape(q) && pool.Describes(q) && TableHolds(ram[..], q) && WritesOnly(old(ram[..]), ram[..], p)
    {
      hide CalcTot, Stride;
      TablePush(ram[..], p, blk);
      WriteWord(ram, pool.PoolPtrs + 4 * pool.BlkIx, blk);
      pool.BlkIx := if pool.BlkIx == 0xFFFF then 0 else pool.BlkIx + 1;
    }

    /** The block goes on top of the stack. */
    method Push(pool: MemPool, blk: Word)
      requires Valid() && IsPool(objs, pool) && Shape(st.pools[pool.slot])
      requires Free(st, pool.slot, blk).err == ErrNone
      modifies `st, pool`BlkIx, ram
      ensures st == Free(old(st), pool.slot, blk).st
      ensures Valid() <==> Inv(st)
      ensures WritesOnly(old(ram[..]), ram[..], old(st.pools[pool.slot]))
    {
      hide Inv, TableOk, CalcTot, AlignUp, Stride, IsPhantom, CheckAddr, TableHolds;
      ghost var i, s, m := pool.slot, st, ram[..];
      ghost var p := st.pools[i];
      assert PoolStored(m, objs, st.pools, i);
      PushWord(pool, blk, p);
      st := Free(s, i, blk).st;
      TableIgnoresFree(Repr, heap, objs, heads, column, table, s, i, st.pools[i].free);
      forall j | 0 <= j < |objs| && j != i ensures PoolStored(m, objs, s.pools, j) {
        assert old(PoolStored(m, objs, s.pools, j)) && objs[j].slot == j;
      }
      StoredUpdate(m, ram[..], objs, s, i, st.pools[i].free);
    }

    /** `Mem_PoolBlkFree`.  The structures stay valid if and only if the address is not the one that is wrongly
        accepted, or the pool is full, or the index wraps. */
    method BlkFree(pool: MemPool?, blk: Word) returns (err: Err)
      requires Valid() && (pool != null ==> Known(pool))
      modifies `st, objs`BlkIx, ram
      ensures pool == null || blk == 0 ==> err == NullPtr && st == old(st)
      ensures pool != null && blk != 0 && pool.Type != TypePool ==> err == InvalidPool && st == old(st)
      ensures pool != null && pool.Type == TypePool ==>
                && IsPoolIndex(old(st), pool.slot) && Freed(st, err) == Free(old(st), pool.slot, blk)
                && WritesOnly(old(ram[..]), ram[..], old(st).pools[pool.slot])
      ensures Valid() <==> (pool == null || pool.Type != TypePool ||
                            var p := old(st).pools[pool.slot];
                            FreeOk(p, blk) || |p.free| == p.nbr || |p.free| + 1 == IX)
      ensures err != ErrNone ==> ram[..] == old(ram[..])
    {
      hide Inv, TableOk, CalcTot, AlignUp, Stride, IsPhantom;
      if pool == null {
        return NullPtr;
      }
      if blk == 0 {
        if pool.Type == TypePool {
          assert PoolStored(ram[..], objs, st.pools, pool.slot);
          FreeKeepsInvIff(st, pool.slot, blk);
        }
        return NullPtr;
      }
      if pool.Type != TypePool {
        return InvalidPool;
      }
      ghost var i := pool.slot;
      ghost var p := st.pools[i];
      assert PoolStored(ram[..], objs, st.pools, i) && TableHolds(ram[..], p) && |p.free| == pool.BlkIx;
      FreeKeepsInvIff(st, i, blk);
      if pool.BlkIx >= pool.BlkNbr {
        return PoolFull;
      }
      var addrValid := pool.BlkIsValidAddr(blk);
      if !addrValid {
        return InvalidAddr;
      }
      var listed := IsListed(pool, blk, p);
      if listed {
        return InvalidAddr;
      }
      Push(pool, blk);
      err := ErrNone;
    }

    /** The search of the table for a segment with this base address and size. */
    method FindSeg(base: Word, memSize: Word)
      returns (overlaps: bool, blk: MemPool?, prev: MemPool?, next: MemPool?, ghost k: nat)
      requires Valid() && st.heap in st.segs && base > 0 && memSize > 0 && base + memSize < W32
      ensures overlaps <==> OverlapsOther(st, base, memSize)
      ensures !overlaps ==> (prev == next <==> Shares(st, base, memSize))
      ensures !overlaps && Shares(st, base, memSize) ==>
                blk == prev == next && blk != null && blk in heads && blk.SegAddr == base
      ensures !overlaps && !Shares(st, base, memSize) ==>
                && blk == null && base !in st.segs && Between(heads, base, k)
                && prev == AtOrNull(heads, k - 1) && next == AtOrNull(heads, k)
    {
      hide CalcTot, Columns, AllLinked, Stored;
      var start, end := base, base + memSize - 1;
      blk, prev, next, k := null, null, table, 0;
      while next != null
        invariant k <= |heads| && blk == null && prev == AtOrNull(heads, k - 1) && next == AtOrNull(heads, k)
        invariant forall i :: 0 <= i < k ==> heads[i].SegAddr + heads[i].SegSizeTot <= base
        decreases |heads| - k
      {
        assert SegLinkedAt(heads, k) && HeadOk(heads, st.segs, k);
        assert SegOk(next.SegAddr, st.segs[next.SegAddr]);
        if base == next.SegAddr && memSize == next.SegSizeTot {
          SharedMeansNoOverlap(st, base, memSize);
          return false, next, next, next, k;
        }
        var segStart, segEnd := next.SegAddr, next.SegAddr + next.SegSizeTot - 1;
        if end < segStart {
          break;
        } else if (start <= segStart && end >= segStart) || (start >= segStart && end <= segEnd)
                  || (start <= segEnd && end >= segEnd) {
          assert Overlap(base, memSize, next.SegAddr, st.segs[next.SegAddr].tot);
          return true, null, prev, next, k;
        }
        prev, next, k := next, next.SegNextPtr, k + 1;
      }
      GapMeansNoOverlap(heads, st, base, memSize, k);
      assert HasHead(heads, st.heap);
      overlaps := false;
    }

    /** A head's account is that of its segment, and there is one head for an address. */
    lemma HeadAccount(head: MemPool)
      requires Valid() && head in heads
      ensures head.SegAddr in st.segs && head.Manages(st.segs[head.SegAddr])
      ensures SegOk(head.SegAddr, st.segs[head.SegAddr])
      ensures head in Repr && (head.SegAddr == heapAddr <==> head == heap)
      ensures head.SegAddrNextAvail + head.SegSizeRem <= ram.Length
    {
      hide Inv, AllLinked, SegLinks, Stored, CalcTot;
      var i :| 0 <= i < |heads| && heads[i] == head;
      assert HeadOk(heads, st.segs, i);
      InvSeg(st, head.SegAddr);
      TableNullIff(Repr, heap, objs, heads, column, table, st);
      var hi := HeadOf(Repr, heap, objs, heads, column, table, st, heapAddr);
    }

    lemma HeadPositive(head: MemPool)
      requires Valid() && head in heads
      ensures head.SegAddrNextAvail > 0
    {
      hide Inv, TableOk, Stored;
      HeadAccount(head);
    }

    lemma HeapHeads()
      requires Valid() && heapAddr in st.segs
      ensures heap in heads && heap.SegAddr == heapAddr && column.Keys == st.segs.Keys
      ensures forall x :: x in heads ==> x in Repr
    {
      hide Inv, AllLinked, SegLinks, Stored;
      var hi := HeadOf(Repr, heap, objs, heads, column, table, st, heapAddr);
    }

    /** The blocks, one allocation each, their addresses stored in the table at `ptrs`, until one fails. */
    method CarveBlocks(blkPool: MemPool, ptrs: Word, nbr: Word, size: Word, align: Word) returns (ok: bool)
      requires Configured() && nbr >= 1 && size >= 1 && align >= 1 && ptrs % 4 == 0 && ptrs + 4 * nbr <= ram.Length
      requires 0 < blkPool.SegAddrNextAvail && blkPool.SegAddrNextAvail + blkPool.SegSizeRem <= ram.Length
      requires CalcTot(blkPool.SegAddrNextAvail, nbr, size, align) <= blkPool.SegSizeRem || size + align <= W32
      modifies blkPool`SegAddrNextAvail, blkPool`SegSizeRem, ram
      ensures var start, room := old(blkPool.SegAddrNextAvail), old(blkPool.SegSizeRem);
              && (ok <==> CalcTot(start, nbr, size, align) <= room)
              && (ok ==> forall k :: 0 <= k < nbr ==>
                    WordAt(ram[..], ptrs + 4 * k) == BlockSeq(start, nbr, size, align)[k])
              && blkPool.SegAddrNextAvail == Spend(start, room, nbr, size, align)
              && blkPool.SegSizeRem == room - (blkPool.SegAddrNextAvail - start)
      ensures forall a :: 0 <= a < ram.Length && !(ptrs <= a < ptrs + 4 * nbr) ==> ram[a] == old(ram[a])
    {
      hide CalcTot, AlignUp, BlockSeq, NextAfter, Spend, Allocate;
      ghost var start: nat, room: nat := blkPool.SegAddrNextAvail, blkPool.SegSizeRem;
      ghost var blocks := BlockSeq(start, nbr, size, align);
      CalcTotIsIteratedAlloc(start, nbr, size, align);
      NextAfterZero(start, size, align);
      var i: Word := 0;
      while i < nbr
        invariant i <= nbr
        invariant blkPool.SegAddrNextAvail == NextAfter(start, i, size, align) <= start + room
        invariant blkPool.SegSizeRem == room - (blkPool.SegAddrNextAvail - start)
        invariant forall k :: 0 <= k < i ==> WordAt(ram[..], ptrs + 4 * k) == blocks[k]
        invariant forall a :: 0 <= a < ram.Length && !(ptrs <= a < ptrs + 4 * nbr) ==> ram[a] == old(ram[a])
      {
        NextAfterMono(start, i, nbr, size, align);
        BlockSeqNth(start, nbr, size, align, i);
        BlockSeqSnoc(start, i, size, align);
        AllocateAt(Account(blkPool.SegAddrNextAvail, blkPool.SegSizeRem), size, align);
        var blk := blkPool.SegAlloc(size, align);
        if blk == 0 {
          SpendSome(start, room, nbr, size, align, i);
          return false;
        }
        ghost var m := ram[..];
        WriteWord(ram, ptrs + 4 * i, blk);
        LoadAfterStore(m, ptrs + 4 * i, blk);
        i := i + 1;
      }
      SpendAll(start, room, nbr, size, align);
      return true;
    }

    /** The pointer table from the heap, then the blocks from `blkPool`'s segment. */
    method Carve(blkPool: MemPool, nbr: Word, size: Word, align: Word) returns (ptrs: Word, ok: bool)
      requires Configured() && nbr >= 1 && size >= 1 && align >= 1
      requires 0 < heap.SegAddrNextAvail && heap.SegAddrNextAvail + heap.SegSizeRem <= ram.Length
      requires 0 < blkPool.SegAddrNextAvail && blkPool.SegAddrNextAvail + blkPool.SegSizeRem <= ram.Length
      requires CalcTot(heap.SegAddrNextAvail, nbr, 4, 4) <= heap.SegSizeRem
      requires size + align <= W32 || CalcTot(FirstFree(blkPool, nbr), nbr, size, align) <= Left(blkPool, nbr)
      modifies heap`SegAddrNextAvail, heap`SegSizeRem, blkPool`SegAddrNextAvail, blkPool`SegSizeRem, ram
      ensures ptrs == AlignUp(old(heap.SegAddrNextAvail), 4) && ptrs + 4 * nbr <= |old(ram[..])|
      ensures var start, room := old(FirstFree(blkPool, nbr)), old(Left(blkPool, nbr));
              && (ok <==> CalcTot(start, nbr, size, align) <= room)
              && (ok ==> forall k :: 0 <= k < nbr ==>
                    WordAt(ram[..], ptrs + 4 * k) == BlockSeq(start, nbr, size, align)[k])
              && blkPool.SegAddrNextAvail == Spend(start, room, nbr, size, align)
              && blkPool.SegSizeRem == room - (blkPool.SegAddrNextAvail - start)
      ensures var tableTot := CalcTot(old(heap.SegAddrNextAvail), nbr, 4, 4);
              blkPool != heap ==>
                && heap.SegAddrNextAvail == old(heap.SegAddrNextAvail) + tableTot
                && heap.SegSizeRem == old(heap.SegSizeRem) - tableTot
      ensures forall a :: 0 <= a < ram.Length && !(ptrs <= a < ptrs + 4 * nbr) ==> ram[a] == old(ram[a])
    {
      hide CalcTot, AlignUp, BlockSeq, Spend, Allocate;
      TableBounds(heap.SegAddrNextAvail, nbr);
      AllocateAt(Account(heap.SegAddrNextAvail, heap.SegSizeRem), 4 * nbr, 4);
      ptrs := heap.SegAlloc(4 * nbr, 4);
      ok := CarveBlocks(blkPool, ptrs, nbr, size, align);
    }

    /** Where the blocks start, and what there is for them, once the pointer table is allocated. */
    ghost function FirstFree(blkPool: MemPool, nbr: nat): nat
      requires nbr >= 1
      reads this, heap`SegAddrNextAvail, blkPool`SegAddrNextAvail
    {
      if blkPool == heap then heap.SegAddrNextAvail + CalcTot(heap.SegAddrNextAvail, nbr, 4, 4)
      else blkPool.SegAddrNextAvail
    }

    ghost function Left(blkPool: MemPool, nbr: nat): int
      requires nbr >= 1
      reads this, heap`SegAddrNextAvail, heap`SegSizeRem, blkPool`SegSizeRem
    {
      if blkPool == heap then heap.SegSizeRem - CalcTot(heap.SegAddrNextAvail, nbr, 4, 4) else blkPool.SegSizeRem
    }

    /** The new structure goes between two segments. */
    method LinkSeg(pool: MemPool, prev: MemPool?, next: MemPool?, ghost k: nat)
      requires k <= |heads| && Nodup(heads) && pool !in heads && SegLinks(heads)
      requires prev == AtOrNull(heads, k - 1) && next == AtOrNull(heads, k)
      requires table == (if heads == [] then null else heads[0])
      modifies `table, pool`SegPrevPtr, pool`SegNextPtr, heads`SegPrevPtr, heads`SegNextPtr
      ensures SegLinks(WithHead(heads, k, pool)) && table == WithHead(heads, k, pool)[0]
    {
      pool.SegPrevPtr, pool.SegNextPtr := prev, next;
      if prev != null {
        prev.SegNextPtr := pool;
      } else {
        table := pool;
      }
      if next != null {
        next.SegPrevPtr := pool;
      }
      ghost var heads' := WithHead(heads, k, pool);
      forall i | 0 <= i < |heads'| ensures SegLinkedAt(heads', i) {
        if i < k { assert old(SegLinkedAt(heads, i)); } else if i > k { assert old(SegLinkedAt(heads, i - 1)); }
      }
    }

    /** The table is still that of `s`, while the segments' accounts are those of `t`. */
    ghost predicate Midway(s: State, t: State)
      requires |objs| == |s.pools|
      reads this, Repr
    {
      && heap in Repr && (forall i :: 0 <= i < |objs| ==> objs[i] in Repr) && (forall x :: x in heads ==> x in Repr)
      && Slots(heap, objs) && Columns(Repr, heap, objs, heads, column, s) && AllLinked(Repr, column)
      && table == (if heads == [] then null else heads[0])
      && SegLinks(heads) && Ascending(heads) && Accounts(heads, t.segs) && Covered(heads, s.segs)
      && heap.Type == TypeHeap
    }

    /** Memory is carved for pool `p`; the pools there were have their tables as in memory `m`. */
    ghost predicate Ready(s: State, t: State, p: Pool, m: seq<Octet>)
      reads this, Repr, ram
    {
      && Configured() && |objs| == |s.pools| && Midway(s, t)
      && Shape(p) && |p.free| == p.nbr % IX && TableHolds(ram[..], p) && p.start < End(p) <= W32
      && WritesOnly(m, ram[..], p) && Stored(m, objs, s.pools)
      && Inv(t) && t.heap == s.heap == heapAddr && t.pools == s.pools + [p]
      && (forall b :: b in t.segs ==> b + t.segs[b].tot <= ram.Length)
    }

    /** Memory was carved for nothing; nothing but the accounts has changed for the pools there are. */
    ghost method Waste(t: State, p: Pool, m: seq<Octet>)
      requires |objs| == |st.pools| && Midway(st, t) && Configured() && Inv(st) && Inv(t)
      requires t.heap == st.heap == heapAddr && t.pools == st.pools && t.segs.Keys == st.segs.Keys
      requires heapAddr in st.segs
      requires forall b :: b in t.segs ==> b + t.segs[b].tot <= ram.Length
      requires Stored(m, objs, st.pools) && WritesOnly(m, ram[..], p) && st.segs[heapAddr].next <= p.table
      modifies `st
      ensures st == t && Valid()
    {
      hide Inv, Columns, AllLinked, SegLinks, Accounts, Ascending, HasHead, Shape, CalcTot, Stride;
      forall i | 0 <= i < |objs| ensures PoolStored(ram[..], objs, t.pools, i) {
        assert PoolStored(m, objs, st.pools, i);
        TableInUse(st, i);
        TableFrame(m, ram[..], st.pools[i]);
      }
      ColumnsIgnoreFree(Repr, heap, objs, heads, column, st, t);
      st := t;
    }

    /** The accounts that the carving draws on are those of the abstract state. */
    ghost predicate Draws(blkPool: MemPool, base: Word, memSize: Word, nbr: Word)
      requires heapAddr in st.segs && st.heap == heapAddr && nbr >= 1
      reads this, heap`SegAddrNextAvail, heap`SegSizeRem, blkPool`SegAddrNextAvail, blkPool`SegSizeRem
    {
      && heap.SegAddrNextAvail == st.segs[heapAddr].next && heap.SegSizeRem == Rem(heapAddr, st.segs[heapAddr])
      && if InHeap(st, base, memSize) then blkPool == heap
         else blkPool != heap && blkPool.SegAddrNextAvail == PoolStart(st, base, memSize, nbr)
              && blkPool.SegSizeRem == memSize - (blkPool.SegAddrNextAvail - base)
    }

    /** The carving for a pool: its table is written, and holds its free blocks if all of them fitted. */
    method CarveFor(blkPool: MemPool, nbr: Word, size: Word, align: Word, ghost base: Word, ghost memSize: Word)
      returns (ptrs: Word, ok: bool)
      requires Configured() && nbr >= 1 && size >= 1 && align >= 1 && heapAddr in st.segs && st.heap == heapAddr
      requires Draws(blkPool, base, memSize, nbr)
      requires 0 < heap.SegAddrNextAvail && heap.SegAddrNextAvail + heap.SegSizeRem <= ram.Length
      requires 0 < blkPool.SegAddrNextAvail && blkPool.SegAddrNextAvail + blkPool.SegSizeRem <= ram.Length
      requires TableTot(st, nbr) <= heap.SegSizeRem
      requires Fits(st, base, memSize, nbr, size, align) || size + align <= W32
      modifies heap`SegAddrNextAvail, heap`SegSizeRem, blkPool`SegAddrNextAvail, blkPool`SegSizeRem, ram
      ensures ok <==> Fits(st, base, memSize, nbr, size, align)
      ensures var p := NewPool(st, base, memSize, nbr, size, align);
              ptrs == p.table && WritesOnly(old(ram[..]), ram[..], p) && (ok ==> TableHolds(ram[..], p))
      ensures var start, room := CarveStart(st, base, memSize, nbr), Room(st, base, memSize, nbr);
              blkPool.SegAddrNextAvail == Spend(start, room, nbr, size, align)
              && blkPool.SegSizeRem == room - (blkPool.SegAddrNextAvail - start)
      ensures blkPool != heap ==>
                && heap.SegAddrNextAvail == old(heap.SegAddrNextAvail) + TableTot(st, nbr)
                && heap.SegSizeRem == old(heap.SegSizeRem) - TableTot(st, nbr)
    {
      hide CalcTot, AlignUp, BlockSeq, Spend;
      ptrs, ok := Carve(blkPool, nbr, size, align);
    }

    /** The carving from a segment that there is: of the pools only the new one's table is written. */
    method CarveShared(head: MemPool, nbr: Word, size: Word, align: Word,
                       ghost base: Word, ghost memSize: Word, ghost blkAlign: Word, ghost b: nat)
      returns (ptrs: Word, ok: bool)
      requires Valid() && Passing(st, base, memSize, nbr, size, blkAlign) && Sharing(st, base, memSize, b)
      requires align == EffectiveAlign(blkAlign) && head in heads && head.SegAddr == b
      modifies heap`SegAddrNextAvail, heap`SegSizeRem, head`SegAddrNextAvail, head`SegSizeRem, ram
      ensures ok <==> Fits(st, base, memSize, nbr, size, align)
      ensures var p := NewPool(st, base, memSize, nbr, size, align);
              ptrs == p.table && WritesOnly(old(ram[..]), ram[..], p) && (ok ==> TableHolds(ram[..], p))
      ensures Midway(st, CarvedState(st, base, memSize, nbr, size, align))
    {
      hide Inv, Columns, AllLinked, SegLinks, Covered, Stored, CalcTot, AlignUp, Stride, BlockSeq, OverlapsOther;
      hide PoolLinks;
      hide Overlap, Spend, CreateOk, Passes, NewPool, TableHolds, WritesOnly, Fits, Slots, SegsAfter, Passing, Shares;
      hide CarveStart, Room, PoolStart, InHeap, SegOk;
      PassingCarves(st, base, memSize, nbr, size, blkAlign);
      ghost var segs := SegsAfter(st, base, memSize, nbr, size, align);
      HeapHeads();
      HeadAccount(heap);
      HeadAccount(head);
      HeadPositive(head);
      HeadPositive(heap);
      SharedAfter(st, base, memSize, nbr, size, align, b);
      ptrs, ok := CarveFor(head, nbr, size, align, base, memSize);
      forall i | 0 <= i < |heads| ensures HeadOk(heads, segs, i) {
        assert old(HeadOk(heads, st.segs, i));
      }
    }

    method LinkColumn(pool: MemPool, head: MemPool, ghost b: nat)
      requires |objs| == |st.pools| && Slots(heap, objs) && Columns(Repr, heap, objs, heads, column, st)
      requires AllLinked(Repr, column) && pool !in Repr && b in column && |column[b]| > 0 && head == column[b][0]
      modifies pool`PoolPrevPtr, pool`PoolNextPtr, Repr`PoolPrevPtr, Repr`PoolNextPtr
      ensures AllLinked(Repr + {pool}, column[b := WithPool(column[b], pool)])
    {
      ghost var col := column[b];
      assert LinkedIn(Repr, column, b) && ColumnOk(heap, objs, heads, column, st, b);
      LinkPool(pool, head, col);
      forall c | c in column && c != b ensures PoolLinks(column[c]) && forall x :: x in column[c] ==> x in Repr {
        ColumnsDisjoint(Repr, heap, objs, heads, column, st, b, c);
        assert old(LinkedIn(Repr, column, c));
        forall k | 0 <= k < |column[c]| ensures PoolLinkedAt(column[c], k) {
          assert old(PoolLinkedAt(column[c], k)) && column[c][k] in column[c];
        }
      }
      LinkedAddPool(Repr, column, b, WithPool(col, pool), pool);
    }

    /** The new pool takes its blocks from the segment that `head` manages. */
    method InstallShared(pool: MemPool, head: MemPool, start: Word, poolTot: Word, nbr: Word, size: Word, align: Word,
                         ghost base: Word, ghost memSize: Word, ghost blkAlign: Word, ghost b: nat)
      returns (err: Err)
      requires Valid() && pool !in Repr && Passing(st, base, memSize, nbr, size, blkAlign)
      requires Sharing(st, base, memSize, b) && align == EffectiveAlign(blkAlign) && head in heads && head.SegAddr == b
      requires start == PoolStart(st, base, memSize, nbr) && poolTot == Wrap(CalcTot(start, nbr, size, align))
      modifies this, Repr, pool, ram
      ensures st == CarvedState(old(st), base, memSize, nbr, size, align)
      ensures err == if Fits(old(st), base, memSize, nbr, size, align) then ErrNone else SegEmpty
      ensures heads == old(heads) && table == old(table)
      ensures err == ErrNone ==> Made(old(objs), old(Repr), old(column), pool, b, true)
      ensures err != ErrNone ==> Unmade(old(objs), old(Repr), old(column)) && unchanged(pool)
      ensures WritesOnly(old(ram[..]), ram[..], NewPool(old(st), base, memSize, nbr, size, align))
      ensures Valid()
    {
      hide Inv, Columns, AllLinked, SegLinks, Accounts, Ascending, Covered, Stored, TableHolds, Shape, Fits;
      hide CalcTot, AlignUp, Stride, BlockSeq, NewPool, WritesOnly, Midway, Slots, SegFields, Wrap, PoolStart, Passing;
      hide CarvedState, Shares;
      CarvedFollows(st, base, memSize, nbr, size, blkAlign);
      SharingKeys(st, base, memSize, nbr, size, blkAlign, b);
      ghost var t, p := CarvedState(st, base, memSize, nbr, size, align), NewPool(st, base, memSize, nbr, size, align);
      ghost var m := ram[..];
      ghost var bi := HeadOf(Repr, heap, objs, heads, column, table, st, b);
      var ptrs, ok := CarveShared(head, nbr, size, align, base, memSize, blkAlign, b);
      if !ok {
        Waste(t, p, m);
        return SegEmpty;
      }
      assert Ready(st, t, p, m);
      Join(pool, head, start, poolTot, ptrs, nbr, size, align, st, t, p, m, b);
      return ErrNone;
    }

    /** There is a pool more, behind the head of a column that there was or in a column of its own. */
    ghost predicate Made(objs: seq<MemPool>, Repr: set<MemPool>, column: map<nat, seq<MemPool>>, pool: MemPool,
                         b: nat, known: bool)
      reads this, pool`slot
    {
      && this.objs == objs + [pool] && pool.slot == |objs| && this.Repr == Repr + {pool}
      && (known ==> b in column && |column[b]| > 0 && this.column == column[b := WithPool(column[b], pool)])
      && (!known ==> this.column == column[b := [pool]])
    }

    /** There is no pool more. */
    ghost predicate Unmade(objs: seq<MemPool>, Repr: set<MemPool>, column: map<nat, seq<MemPool>>)
      reads this
    {
      this.objs == objs && this.Repr == Repr && this.column == column
    }

    method Join(pool: MemPool, head: MemPool, start: Word, poolTot: Word, ptrs: Word, nbr: Word, size: Word,
                align: Word, ghost s: State, ghost t: State, ghost p: Pool, ghost m: seq<Octet>, ghost b: nat)
      requires Ready(s, t, p, m) && pool !in Repr && b in s.segs && t.segs.Keys == s.segs.Keys
      requires b in column && |column[b]| > 0 && head == column[b][0] && st == s
      requires p == Pool(b, start, ptrs, nbr, size, align, p.free) && poolTot == CalcTot(start, nbr, size, align)
      modifies this, Repr`PoolPrevPtr, Repr`PoolNextPtr, pool
      ensures st == t && objs == old(objs) + [pool] && pool.slot == |old(objs)| && Repr == old(Repr) + {pool}
      ensures heads == old(heads) && table == old(table)
      ensures column == old(column)[b := WithPool(old(column)[b], pool)]
      ensures Valid()
    {
      hide Inv, Columns, AllLinked, SegLinks, Accounts, Ascending, HasHead, Stored, TableHolds, Shape, CalcTot, Stride;
      LinkColumn(pool, head, b);
      pool.slot := |objs|;
      ColumnsAddPool(Repr, heap, objs, heads, column, s, t, b, pool);
      Seat(pool, start, poolTot, ptrs, nbr, size, align, s, t, p, m, heads, column[b := WithPool(column[b], pool)]);
    }

    /** The carving from a segment of its own. */
    method CarveNew(pool: MemPool, nbr: Word, size: Word, align: Word,
                    ghost base: Word, ghost memSize: Word, ghost blkAlign: Word)
      returns (ptrs: Word, ok: bool)
      requires Valid() && Passing(st, base, memSize, nbr, size, blkAlign) && align == EffectiveAlign(blkAlign)
      requires base != 0 && !Shares(st, base, memSize) && pool !in Repr && base + memSize <= ram.Length
      requires pool.SegAddr == pool.SegAddrNextAvail == base && pool.SegSizeTot == pool.SegSizeRem == memSize
      modifies heap`SegAddrNextAvail, heap`SegSizeRem, pool`SegAddrNextAvail, pool`SegSizeRem, ram
      ensures ok <==> Fits(st, base, memSize, nbr, size, align)
      ensures var p := NewPool(st, base, memSize, nbr, size, align);
              ptrs == p.table && WritesOnly(old(ram[..]), ram[..], p) && (ok ==> TableHolds(ram[..], p))
      ensures Midway(st, CarvedState(st, base, memSize, nbr, size, align))
      ensures var segs := SegsAfter(st, base, memSize, nbr, size, align);
              ok ==> base in segs && pool.Manages(segs[base])
    {
      hide Inv, Columns, AllLinked, SegLinks, Covered, Stored, CalcTot, AlignUp, Stride, BlockSeq, OverlapsOther;
      hide PoolLinks;
      hide Overlap, Spend, CreateOk, Passes, NewPool, TableHolds, WritesOnly, Fits, Slots;
      PassingCarves(st, base, memSize, nbr, size, blkAlign);
      ghost var segs := SegsAfter(st, base, memSize, nbr, size, align);
      HeapHeads();
      HeadAccount(heap);
      ptrs, ok := CarveFor(pool, nbr, size, align, base, memSize);
      forall i | 0 <= i < |heads| ensures HeadOk(heads, segs, i) {
        assert old(HeadOk(heads, st.segs, i));
      }
    }

    /** The new pool takes its blocks from a segment of its own, which it heads. */
    method InstallNew(pool: MemPool, prev: MemPool?, next: MemPool?, start: Word, poolTot: Word, nbr: Word, size: Word,
                      align: Word, ghost base: Word, ghost memSize: Word, ghost blkAlign: Word, ghost k: nat)
      returns (err: Err)
      requires Valid() && pool !in Repr && Passing(st, base, memSize, nbr, size, blkAlign)
      requires base != 0 && !Shares(st, base, memSize) && align == EffectiveAlign(blkAlign)
      requires pool.SegAddr == pool.SegAddrNextAvail == base && pool.SegSizeTot == pool.SegSizeRem == memSize
      requires pool.PoolPrevPtr == pool.PoolNextPtr == null && base + memSize <= ram.Length
      requires Between(heads, base, k) && prev == AtOrNull(heads, k - 1) && next == AtOrNull(heads, k)
      requires start == PoolStart(st, base, memSize, nbr) && poolTot == Wrap(CalcTot(start, nbr, size, align))
      modifies this, Repr, pool, ram
      ensures st == CarvedState(old(st), base, memSize, nbr, size, align)
      ensures err == if Fits(old(st), base, memSize, nbr, size, align) then ErrNone else SegEmpty
      ensures err == ErrNone ==> Made(old(objs), old(Repr), old(column), pool, base, false)
      ensures err == ErrNone ==> k <= |old(heads)| && heads == WithHead(old(heads), k, pool)
      ensures err != ErrNone ==> Unmade(old(objs), old(Repr), old(column)) && heads == old(heads) && table == old(table)
      ensures err != ErrNone ==> pool.Type == old(pool.Type) && pool.slot == old(pool.slot)
      ensures WritesOnly(old(ram[..]), ram[..], NewPool(old(st), base, memSize, nbr, size, align))
      ensures Valid()
    {
      hide Inv, Columns, AllLinked, SegLinks, Accounts, Ascending, Covered, Stored, TableHolds, Shape, Fits;
      hide CalcTot, AlignUp, Stride, BlockSeq, NewPool, WritesOnly, Midway, Slots, SegFields, Wrap, PoolStart, Passing;
      CarvedFollows(st, base, memSize, nbr, size, blkAlign);
      PassingFounds(st, base, memSize, nbr, size, blkAlign);
      ghost var t, p := CarvedState(st, base, memSize, nbr, size, align), NewPool(st, base, memSize, nbr, size, align);
      ghost var m := ram[..];
      HeapHeads();
      var ptrs, ok := CarveNew(pool, nbr, size, align, base, memSize, blkAlign);
      if !ok {
        Waste(t, p, m);
        return SegEmpty;
      }
      assert Ready(st, t, p, m);
      JoinNew(pool, prev, next, start, poolTot, ptrs, nbr, size, align, st, t, p, m, base, k);
      return ErrNone;
    }

    method JoinNew(pool: MemPool, prev: MemPool?, next: MemPool?, start: Word, poolTot: Word, ptrs: Word, nbr: Word,
                   size: Word, align: Word, ghost s: State, ghost t: State, ghost p: Pool, ghost m: seq<Octet>,
                   ghost base: nat, ghost k: nat)
      requires Ready(s, t, p, m) && pool !in Repr && base !in s.segs && base !in column
      requires t.segs.Keys == s.segs.Keys + {base} && base != s.heap
      requires pool.SegAddr == base && pool.Manages(t.segs[base]) && pool.PoolPrevPtr == pool.PoolNextPtr == null
      requires st == s
      requires k <= |heads| && Between(heads, base, k) && prev == AtOrNull(heads, k - 1) && next == AtOrNull(heads, k)
      requires p == Pool(base, start, ptrs, nbr, size, align, p.free) && poolTot == CalcTot(start, nbr, size, align)
      modifies this, Repr`SegPrevPtr, Repr`SegNextPtr, pool
      ensures st == t && objs == old(objs) + [pool] && pool.slot == |old(objs)| && Repr == old(Repr) + {pool}
      ensures k <= |old(heads)| && heads == WithHead(old(heads), k, pool)
      ensures column == old(column)[base := [pool]]
      ensures Valid()
    {
      hide Inv, Columns, AllLinked, SegLinks, SegFields, Accounts, Ascending, Between, Covered, Stored, TableHolds;
      hide Shape;
      hide CalcTot, Stride, WithHead;
      WithHeadMembers(heads, k, pool);
      ghost var heads' := WithHead(heads, k, pool);
      GrowTable(pool, prev, next, s, t, base, k);
      pool.slot := |objs|;
      ColumnsAddSeg(Repr, heap, objs, heads, column, s, t, base, pool, heads');
      Seat(pool, start, poolTot, ptrs, nbr, size, align, s, t, p, m, heads', column[base := [pool]]);
    }

    /** The new structure, already in the table, is filled in. */
    method Seat(pool: MemPool, start: Word, poolTot: Word, ptrs: Word, nbr: Word, size: Word, align: Word,
                ghost s: State, ghost t: State, ghost p: Pool, ghost m: seq<Octet>,
                ghost heads': seq<MemPool>, ghost column': map<nat, seq<MemPool>>)
      requires Configured() && heap in Repr && (forall i :: 0 <= i < |objs| ==> objs[i] in Repr) && pool !in Repr
      requires |objs| == |s.pools| && Slots(heap, objs) && pool.slot == |objs| && heap.Type == TypeHeap
      requires Inv(t) && t.heap == heapAddr && t.pools == s.pools + [p]
      requires forall b :: b in t.segs ==> b + t.segs[b].tot <= ram.Length
      requires Shape(p) && |p.free| == p.nbr % IX && TableHolds(ram[..], p) && p.start < End(p) <= W32
      requires WritesOnly(m, ram[..], p) && Stored(m, objs, s.pools)
      requires TableOk(Repr + {pool}, heap, objs + [pool], heads', column', table, t)
      requires p == Pool(p.seg, start, ptrs, nbr, size, align, p.free) && poolTot == CalcTot(start, nbr, size, align)
      modifies `st, `objs, `heads, `column, `Repr, pool
      ensures st == t && objs == old(objs) + [pool] && heads == heads' && column == column'
      ensures Repr == old(Repr) + {pool}
      ensures pool.slot == old(pool.slot) && Valid()
    {
      hide Inv, TableOk, Stored, TableHolds, Shape, CalcTot, Stride;
      pool.Configure(start, poolTot, ptrs, align, size, nbr, p);
      StoredAddPool(m, ram[..], objs, s, t, p, pool);
      Adopt(pool, t, heads', column');
    }

    method GrowTable(pool: MemPool, prev: MemPool?, next: MemPool?, ghost s: State, ghost t: State, ghost base: nat,
                     ghost k: nat)
      requires |objs| == |s.pools| && Midway(s, t) && pool !in Repr && base !in column
      requires t.segs.Keys == s.segs.Keys + {base}
      requires pool.SegAddr == base && pool.Manages(t.segs[base]) && pool.PoolPrevPtr == pool.PoolNextPtr == null
      requires k <= |heads| && Between(heads, base, k) && prev == AtOrNull(heads, k - 1) && next == AtOrNull(heads, k)
      modifies `table, Repr`SegPrevPtr, Repr`SegNextPtr, pool`SegPrevPtr, pool`SegNextPtr
      ensures var heads' := WithHead(heads, k, pool);
              SegLinks(heads') && table == (if heads' == [] then null else heads'[0])
      ensures SegFields(WithHead(heads, k, pool), t.segs)
      ensures AllLinked(Repr + {pool}, column[base := [pool]])
    {
      hide Columns, AllLinked, SegLinks, Accounts, Between, Covered;
      NodupHeads(heads);
      hide Ascending, Nodup;
      LinkSeg(pool, prev, next, k);
      LinkedAddSeg(Repr, column, base, pool);
      FieldsAddSeg(heads, s.segs, t.segs, base, pool, k);
    }

    /** The abstract state catches up with the structures. */
    ghost method Adopt(pool: MemPool, t: State, heads': seq<MemPool>, column': map<nat, seq<MemPool>>)
      requires Configured() && heap in Repr && (forall i :: 0 <= i < |objs| ==> objs[i] in Repr)
      requires Inv(t) && t.heap == heapAddr && |t.pools| == |objs| + 1
      requires forall b :: b in t.segs ==> b + t.segs[b].tot <= ram.Length
      requires Slots(heap, objs) && pool.slot == |objs| && heap.Type == TypeHeap
      requires TableOk(Repr + {pool}, heap, objs + [pool], heads', column', table, t)
      requires Stored(ram[..], objs + [pool], t.pools)
      modifies `st, `objs, `heads, `column, `Repr
      ensures st == t && objs == old(objs) + [pool] && heads == heads' && column == column'
      ensures Repr == old(Repr) + {pool}
      ensures Valid()
    {
      hide Inv, TableOk, Stored;
      st, objs, heads, column, Repr := t, objs + [pool], heads', column', Repr + {pool};
    }

    /** Whether pointer table and blocks together fit the heap, as 32 bits hold their sum. */
    method CheckHeap(nbr: Word, size: Word, align: Word)
      returns (reqd: Word, err: Err, addrPool: Word, totPool: Word)
      requires nbr >= 1 && size >= 1 && align >= 1
      requires heap.SegAddrNextAvail + CalcTot(heap.SegAddrNextAvail, nbr, 4, 4) < W32
      ensures var tableTot := CalcTot(heap.SegAddrNextAvail, nbr, 4, 4);
              var poolTot := CalcTot(addrPool, nbr, size, align);
              && addrPool == heap.SegAddrNextAvail + tableTot && totPool == Wrap(poolTot)
              && if Admits(tableTot + poolTot, heap.SegSizeRem) then err == ErrNone && reqd == 0
                 else err == HeapEmpty && reqd == Wrap(tableTot + poolTot) - heap.SegSizeRem
    {
      hide CalcTot, Wrap;
      WrapSmall(CalcTot(heap.SegAddrNextAvail, nbr, 4, 4));
      var addrPtrs := heap.SegAddrNextAvail;
      var totPtrs := CalcTotSize(addrPtrs, nbr, 4, 4);
      addrPool := addrPtrs + totPtrs;
      totPool := CalcTotSize(addrPool, nbr, size, align);
      WrapAdd(CalcTot(addrPool, nbr, size, align), totPtrs);
      var tot, rem := Wrap(totPtrs + totPool), heap.SegSizeRem;
      if tot > rem {
        return tot - rem, HeapEmpty, addrPool, totPool;
      }
      return 0, ErrNone, addrPool, totPool;
    }

    /** `Mem_PoolCreate` without a base address. */
    method CreateFromHeap(pool: MemPool, nbr: Word, size: Word, align: Word, ghost memSize: Word, ghost blkAlign: Word)
      returns (reqd: Word, err: Err)
      requires Valid() && pool !in Repr && pool.Type == TypeNone && heapAddr in st.segs && nbr >= 1 && size >= 1
      requires CreateOk(st, 0, memSize, nbr, size, blkAlign) && align == EffectiveAlign(blkAlign)
      modifies this, Repr, pool, ram
      ensures Created(st, err, reqd) == Create(old(st), 0, memSize, nbr, size, blkAlign)
      ensures err == ErrNone ==> Made(old(objs), old(Repr), old(column), pool, heapAddr, true)
      ensures err != ErrNone ==> Unmade(old(objs), old(Repr), old(column)) && unchanged(pool)
      ensures err != ErrNone && st == old(st) ==> unchanged(this, old(Repr), ram)
      ensures KeepsInUse(old(st), old(ram[..]), ram[..])
      ensures Valid()
    {
      hide Inv, TableOk, Stored, CalcTot, Stride, BlockSeq, Create, Slots, CreateOk, WritesOnly, CarvedState, Fits;
      hide NewPool;
      hide Made, Wrap, Admits, Unmade;
      HeapOutcome(st, memSize, nbr, size, blkAlign);
      HeapHeads();
      HeadAccount(heap);
      var addrPool, totPool;
      reqd, err, addrPool, totPool := CheckHeap(nbr, size, align);
      if err != ErrNone {
        assert Unmade(old(objs), old(Repr), old(column)) by { NotMade(); }
        return;
      }
      PassingMoves(st, 0, memSize, nbr, size, blkAlign);
      err := InstallShared(pool, heap, addrPool, totPool, nbr, size, align, 0, memSize, blkAlign, heapAddr);
      CarvedKeepsInUse(old(st), 0, memSize, nbr, size, blkAlign, old(ram[..]), ram[..]);
    }

    lemma NotMade()
      ensures Unmade(objs, Repr, column)
    {
    }

    /** Whether the pointer table fits the heap and the blocks fit the segment of `blk`. */
    method CheckSizes(blk: MemPool, nbr: Word, size: Word, align: Word)
      returns (reqd: Word, err: Err, addrPool: Word, totPool: Word)
      requires nbr >= 1 && size >= 1 && align >= 1 && CalcTot(heap.SegAddrNextAvail, nbr, 4, 4) < W32
      ensures addrPool == blk.SegAddrNextAvail
      ensures var tableTot, poolTot := CalcTot(heap.SegAddrNextAvail, nbr, 4, 4), CalcTot(addrPool, nbr, size, align);
              if tableTot > heap.SegSizeRem then err == HeapEmpty && reqd == tableTot - heap.SegSizeRem
              else if !Admits(poolTot, blk.SegSizeRem) then err == SegEmpty && reqd == Wrap(poolTot) - blk.SegSizeRem
              else err == ErrNone && reqd == 0 && totPool == Wrap(poolTot)
    {
      hide CalcTot, Wrap;
      WrapSmall(CalcTot(heap.SegAddrNextAvail, nbr, 4, 4));
      addrPool, totPool := blk.SegAddrNextAvail, 0;
      var totPtrs := CalcTotSize(heap.SegAddrNextAvail, nbr, 4, 4);
      var rem := heap.SegSizeRem;
      if totPtrs > rem {
        return totPtrs - rem, HeapEmpty, addrPool, 0;
      }
      totPool := CalcTotSize(addrPool, nbr, size, align);
      rem := blk.SegSizeRem;
      if totPool > rem {
        return totPool - rem, SegEmpty, addrPool, totPool;
      }
      return 0, ErrNone, addrPool, totPool;
    }

    /** The search found the segment of `blk`, or a place for a new one. */
    ghost predicate Placing(base: Word, memSize: Word, pool: MemPool, blk: MemPool, prev: MemPool?, next: MemPool?,
                            k: nat)
      reads this, Repr, pool
    {
      && (forall x :: x in heads ==> x in Repr) && (prev == next <==> Shares(st, base, memSize))
      && if Shares(st, base, memSize) then blk in heads && blk.SegAddr == base
         else
           && blk == pool && Between(heads, base, k) && prev == AtOrNull(heads, k - 1) && next == AtOrNull(heads, k)
           && pool.SegAddr == pool.SegAddrNextAvail == base && pool.SegSizeTot == pool.SegSizeRem == memSize
           && pool.PoolPrevPtr == pool.PoolNextPtr == null
    }

    /** The search, and if no segment is found, a new one. */
    method FindPlace(pool: MemPool, base: Word, memSize: Word)
      returns (overlaps: bool, blk: MemPool, prev: MemPool?, next: MemPool?, ghost k: nat)
      requires Valid() && heapAddr in st.segs && base > 0 && memSize > 0 && base + memSize < W32
      requires pool !in Repr && pool.PoolPrevPtr == pool.PoolNextPtr == null
      modifies pool`SegAddr, pool`SegAddrNextAvail, pool`SegSizeTot, pool`SegSizeRem
      ensures overlaps <==> OverlapsOther(st, base, memSize)
      ensures !overlaps ==>
                && Placing(base, memSize, pool, blk, prev, next, k)
                && blk.SegAddrNextAvail == (if Shares(st, base, memSize) then st.segs[base].next else base)
                && blk.SegSizeRem == memSize - (blk.SegAddrNextAvail - base)
      ensures Valid()
    {
      hide Inv, Stored, CalcTot, OverlapsOther, AllLinked, Between;
      blk := pool;
      var found;
      overlaps, found, prev, next, k := FindSeg(base, memSize);
      if overlaps {
        return;
      }
      if found == null {
        pool.FoundSeg(base, memSize);
      } else {
        blk := found;
        HeadAccount(found);
      }
    }

    /** What follows the size tests, for a segment that there is or a new one. */
    method Install(pool: MemPool, blk: MemPool, prev: MemPool?, next: MemPool?, start: Word, poolTot: Word, nbr: Word,
                   size: Word, align: Word, ghost base: Word, ghost memSize: Word, ghost blkAlign: Word, ghost k: nat)
      returns (err: Err)
      requires Valid() && pool !in Repr && pool.Type == TypeNone && Passing(st, base, memSize, nbr, size, blkAlign)
      requires base != 0 && base + memSize <= ram.Length && align == EffectiveAlign(blkAlign)
      requires Placing(base, memSize, pool, blk, prev, next, k)
      requires start == PoolStart(st, base, memSize, nbr) && poolTot == Wrap(CalcTot(start, nbr, size, align))
      modifies this, Repr, pool, ram
      ensures st == CarvedState(old(st), base, memSize, nbr, size, align)
      ensures err == if Fits(old(st), base, memSize, nbr, size, align) then ErrNone else SegEmpty
      ensures err == ErrNone ==>
                Made(old(objs), old(Repr), old(column), pool, base, Shares(old(st), base, memSize))
      ensures err != ErrNone ==> Unmade(old(objs), old(Repr), old(column)) && pool.Type == TypeNone
      ensures err != ErrNone ==> pool.slot == old(pool.slot)
      ensures KeepsInUse(old(st), old(ram[..]), ram[..])
      ensures Valid()
    {
      hide Inv, TableOk, Stored, CalcTot, Stride, BlockSeq, Slots, CreateOk, WritesOnly, CarvedState, Fits, NewPool;
      hide Passes;
      hide Made, Unmade, Between, SegsAfter;
      PassingMoves(st, base, memSize, nbr, size, blkAlign);
      if prev == next {
        err := InstallShared(pool, blk, start, poolTot, nbr, size, align, base, memSize, blkAlign, base);
      } else {
        err := InstallNew(pool, prev, next, start, poolTot, nbr, size, align, base, memSize, blkAlign, k);
      }
      CarvedKeepsInUse(old(st), base, memSize, nbr, size, blkAlign, old(ram[..]), ram[..]);
    }

    /** `Mem_PoolCreate` with a base address. */
    method CreateFromSeg(pool: MemPool, base: Word, memSize: Word, nbr: Word, size: Word, align: Word,
                         ghost blkAlign: Word)
      returns (reqd: Word, err: Err)
      requires Valid() && pool !in Repr && pool.Type == TypeNone && heapAddr in st.segs && nbr >= 1 && size >= 1
      requires pool.PoolPrevPtr == pool.PoolNextPtr == null && base > 0 && memSize > 0 && base + memSize <= ram.Length
      requires CreateOk(st, base, memSize, nbr, size, blkAlign) && align == EffectiveAlign(blkAlign)
      modifies this, Repr, pool, ram
      ensures Created(st, err, reqd) == Create(old(st), base, memSize, nbr, size, blkAlign)
      ensures err == ErrNone ==>
                Made(old(objs), old(Repr), old(column), pool, base, base as nat in old(st).segs)
      ensures err != ErrNone ==> Unmade(old(objs), old(Repr), old(column)) && pool.Type == TypeNone
      ensures err != ErrNone ==> pool.slot == old(pool.slot)
      ensures err != ErrNone && st == old(st) ==> unchanged(this, old(Repr), ram)
      ensures KeepsInUse(old(st), old(ram[..]), ram[..])
      ensures Valid()
    {
      hide Inv, TableOk, Stored, CalcTot, Stride, BlockSeq, Create, Slots, CreateOk, CarvedState, Fits, OverlapsOther;
      hide Made, Wrap, Placing;
      SegOutcome(st, base, memSize, nbr, size, blkAlign);
      HeapHeads();
      HeadAccount(heap);
      var overlaps, blk, prev, next;
      ghost var k;
      overlaps, blk, prev, next, k := FindPlace(pool, base, memSize);
      if overlaps {
        return 0, InvalidSegOverlap;
      }
      var addrPool, totPool;
      reqd, err, addrPool, totPool := CheckSizes(blk, nbr, size, align);
      if err != ErrNone {
        return;
      }
      PassingMoves(st, base, memSize, nbr, size, blkAlign);
      err := Install(pool, blk, prev, next, addrPool, totPool, nbr, size, align, base, memSize, blkAlign, k);
    }

    /** The structure of the pool just made says what was asked. */
    lemma MadeFields(pool: MemPool, s: State, base: nat, memSize: nat, nbr: nat, size: nat, blkAlign: nat,
                     was: seq<MemPool>, repr: set<MemPool>, col: map<nat, seq<MemPool>>, b: nat, known: bool)
      requires Valid() && |was| == |s.pools| && Made(was, repr, col, pool, b, known)
      requires var c := Create(s, base, memSize, nbr, size, blkAlign); c.err == ErrNone && st == c.st
      ensures pool.BlkNbr == nbr && pool.BlkSize == size && (blkAlign >= 1 ==> pool.BlkAlign == blkAlign)
    {
      hide Inv, TableOk, Create, AsAsked, Shape, TableHolds;
      CreatedAsAsked(s, base, memSize, nbr, size, blkAlign);
      AskedFields(s, st.pools[|s.pools|], base, memSize, nbr, size, blkAlign);
      assert PoolStored(ram[..], objs, st.pools, |s.pools|);
    }

    /** `Mem_PoolCreate`. */
    method PoolCreate(pool: MemPool?, base: Word, memSize: Word, nbr: Word, size: Word, blkAlign: Word)
      returns (reqd: Word, err: Err)
      requires Valid() && (pool != null ==> pool !in Repr)
      requires CreateOk(st, base, memSize, nbr, size, blkAlign) && (base != 0 ==> base + memSize <= ram.Length)
      modifies this, Repr, (if pool == null then {} else {pool}), ram
      ensures pool == null ==> err == NullPtr && reqd == 0 && st == old(st)
      ensures pool != null ==> Created(st, err, reqd) == Create(old(st), base, memSize, nbr, size, blkAlign)
      ensures err == ErrNone ==>
                pool != null
                && var b: nat := if base == 0 then heapAddr else base;
                   Made(old(objs), old(Repr), old(column), pool, b, b in old(st).segs)
      ensures err == ErrNone ==>
                pool.BlkNbr == nbr && pool.BlkSize == size && (blkAlign >= 1 ==> pool.BlkAlign == blkAlign)
      ensures err != ErrNone ==> Unmade(old(objs), old(Repr), old(column)) && (pool != null ==> pool.Type == TypeNone)
      ensures err != ErrNone && st == old(st) ==> unchanged(this, old(Repr), ram)
      ensures KeepsInUse(old(st), old(ram[..]), ram[..])
      ensures Valid()
    {
      hide Inv, TableOk, Stored, CalcTot, Stride, BlockSeq, OverlapsOther, CreateOk, Made, Carved;
      reqd := 0;
      ghost var was := st;
      assert |objs| == |was.pools|;
      if pool == null {
        return 0, NullPtr;
      }
      TableNullIff(Repr, heap, objs, heads, column, table, st);
      pool.Reset();
      if base != 0 {
        if memSize < 1 {
          return 0, InvalidSegSize;
        }
      }
      if nbr < 1 {
        return 0, InvalidBlkNbr;
      }
      if size < 1 {
        return 0, InvalidBlkSize;
      }
      var align := if blkAlign < 1 then 1 else blkAlign;
      if table == null {
        return 0, HeapNotFound;
      }
      if base == 0 {
        reqd, err := CreateFromHeap(pool, nbr, size, align, memSize, blkAlign);
      } else {
        reqd, err := CreateFromSeg(pool, base, memSize, nbr, size, align, blkAlign);
      }
      if err == ErrNone {
        ghost var b: nat := if base == 0 then heapAddr else base;
        MadeFields(pool, was, base, memSize, nbr, size, blkAlign, old(objs), old(Repr), old(column), b, b in was.segs);
      }
    }
  }

  lemma NextAfterZero(a: nat, size: nat, align: nat)
    requires align >= 1
    ensures NextAfter(a, 0, size, align) == a
  {
  }
}
