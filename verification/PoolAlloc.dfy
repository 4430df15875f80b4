/** What thirty-two bits make of an allocation and of a creation from the heap: every operation
    wraps, whatever the arguments.  `PoolSpec` speaks of requests for which little of this matters. */
module PoolAlloc {
  import Arith
  import opened Words
  import opened PoolMath

  /** SegAddrNextAvail and SegSizeRem of a segment. */
  datatype Account = Account(next: Word, rem: Word)

  datatype Allocated = Allocated(account: Account, addr: Word)

  /** `Mem_PoolSegAlloc`; the null address stands for a failure. */
  function Allocate(a: Account, size: Word, align: Word): Allocated
    requires align >= 1
  {
    var offset := AlignOffset(a.next, align);
    var need := Wrap(offset + size);
    if need > a.rem then Allocated(a, 0)
    else
      var addr := Wrap(a.next + offset);
      Allocated(Account(Wrap(addr + size), a.rem - need), addr)
  }

  /** What an allocation needs, without wrap-around. */
  function Need(a: Account, size: Word, align: Word): nat
    requires align >= 1
  {
    AlignOffset(a.next, align) + size
  }

  /** While nothing wraps, it fails exactly when it does not fit, and else takes what it needs. */
  lemma AllocateExact(a: Account, size: Word, align: Word)
    requires align >= 1 && Need(a, size, align) < W32 && a.next + a.rem < W32
    ensures var need := Need(a, size, align);
            Allocate(a, size, align) ==
            if need > a.rem then Allocated(a, 0)
            else Allocated(Account(a.next + need, a.rem - need), AlignUp(a.next, align))
  {
    hide Wrap;
    WrapSmall(Need(a, size, align));
    if Need(a, size, align) <= a.rem {
      WrapSmall(AlignUp(a.next, align));
      WrapSmall(a.next + Need(a, size, align));
    }
  }

  /** The same by the addresses. */
  lemma AllocateAt(a: Account, size: Word, align: Word)
    requires align >= 1 && AlignUp(a.next, align) + size < a.next + W32 && a.next + a.rem < W32
    ensures var end := AlignUp(a.next, align) + size;
            Allocate(a, size, align) ==
            if end > a.next + a.rem then Allocated(a, 0)
            else Allocated(Account(end, a.rem - (end - a.next)), AlignUp(a.next, align))
  {
    hide Allocate, AlignOffset;
    AllocateExact(a, size, align);
  }

  /** A segment from which the allocation takes less than it needs. */
  ghost predicate Overruns(a: Account, size: Word, align: Word)
    requires align >= 1
  {
    Wrap(Need(a, size, align)) <= a.rem < Need(a, size, align)
  }

  /** No segment is overrun if and only if size and alignment do not wrap together. */
  lemma NeverOverrunIff(size: Word, align: Word)
    requires align >= 1
    ensures (forall a: Account :: !Overruns(a, size, align)) <==> size + align <= W32
  {
    if size + align > W32 {
      Arith.DivModUnique(1, 0, 1, align);
      var need := align - 1 + size;
      var a := Account(1, Wrap(need));
      assert Need(a, size, align) == need;
      assert Overruns(a, size, align);
    } else {
      forall a: Account ensures !Overruns(a, size, align) {
        WrapSmall(Need(a, size, align));
      }
    }
  }

  // ----- the loop over the blocks

  /** The account after as many of `n` allocations as succeed, and how many that were. */
  datatype Carving = Carving(account: Account, done: nat)

  function AllocateRun(a: Account, n: nat, size: Word, align: Word): (r: Carving)
    requires align >= 1
    ensures r.done <= n
    decreases n
  {
    var first := Allocate(a, size, align);
    if n == 0 then Carving(a, 0)
    else if first.addr == 0 then Carving(first.account, 0)
    else
      var rest := AllocateRun(first.account, n - 1, size, align);
      Carving(rest.account, rest.done + 1)
  }

  /** While nothing wraps, that is what the exact account says, and all succeed exactly if they fit. */
  lemma {:induction false} CarveExact(a: Account, n: nat, size: Word, align: Word)
    requires n >= 1 && size >= 1 && align >= 1 && a.next > 0 && a.next + a.rem < W32
    requires size + align <= W32 || CalcTot(a.next, n, size, align) <= a.rem
    ensures Need(a, size, align) < W32
    ensures var c := AllocateRun(a, n, size, align);
            && c.account.next == Spend(a.next, a.rem, n, size, align)
            && c.account.rem == a.rem - (c.account.next - a.next)
            && (c.done == n <==> CalcTot(a.next, n, size, align) <= a.rem)
    decreases n
  {
    hide CalcTot, Allocate, AlignOffset, NextAfter;
    AllocateExact(a, size, align);
    TotalStep(a.next, n, size, align);
    var b := AlignUp(a.next, align) + size;
    if n > 1 && Need(a, size, align) <= a.rem {
      CarveExact(Account(b, a.rem - (b - a.next)), n - 1, size, align);
    }
  }

  /** The total of `n` blocks is the first and the total of the others. */
  lemma TotalStep(a: nat, n: nat, size: nat, align: nat)
    requires n >= 1 && size >= 1 && align >= 1
    ensures var b := AlignUp(a, align) + size;
            a + CalcTot(a, n, size, align) == if n == 1 then b else b + CalcTot(b, n - 1, size, align)
  {
    hide CalcTot, AlignUp;
    var b := AlignUp(a, align) + size;
    CalcTotIsIteratedAlloc(a, n, size, align);
    if n > 1 {
      CalcTotIsIteratedAlloc(b, n - 1, size, align);
    }
  }

  // ----- a creation from the heap

  /** Refused, with the shortfall reported; or the pointer table's address, and what the carving left. */
  datatype FromHeap = Refused(reqd: Word) | Started(table: Word, carving: Carving)

  /** The two totals, as the tests see them. */
  function TablePart(a: Account, nbr: Word): Word
    requires nbr >= 1
  {
    Wrap(CalcTot(a.next, nbr, WORD_OCTETS, WORD_OCTETS))
  }

  function BlocksPart(a: Account, nbr: Word, size: Word, align: Word): Word
    requires nbr >= 1 && size >= 1 && align >= 1
  {
    Wrap(CalcTot(Wrap(a.next + TablePart(a, nbr)), nbr, size, align))
  }

  /** `Mem_PoolCreate` without a base address, up to the last block. */
  function HeapRequest(a: Account, nbr: Word, size: Word, align: Word): FromHeap
    requires nbr >= 1 && size >= 1 && align >= 1
  {
    var tot := Wrap(TablePart(a, nbr) + BlocksPart(a, nbr, size, align));
    if tot > a.rem then Refused(tot - a.rem)
    else
      var table := Allocate(a, Wrap(WORD_OCTETS * nbr), WORD_OCTETS);
      Started(table.addr, AllocateRun(table.account, nbr, size, align))
  }

  /** The test is passed, but the pointer table does not fit. */
  predicate TableFails(a: Account, nbr: Word, size: Word, align: Word)
    requires nbr >= 1 && size >= 1 && align >= 1
  {
    Wrap(TablePart(a, nbr) + BlocksPart(a, nbr, size, align)) <= a.rem < TablePart(a, nbr)
  }

  /** The allocation of the pointer table, which is not tested, yields null exactly then. */
  lemma PointersNullIff(a: Account, nbr: Word, size: Word, align: Word)
    requires nbr >= 1 && size >= 1 && align >= 1 && 0 < a.next && a.next + a.rem < W32
    ensures var r := HeapRequest(a, nbr, size, align);
            (r.Started? && r.table == 0 <==> TableFails(a, nbr, size, align))
  {
    hide BlocksPart, AllocateRun;
    TableNeed(a, nbr);
    var need := Wrap(AlignOffset(a.next, WORD_OCTETS) + Wrap(WORD_OCTETS * nbr));
    if need <= a.rem {
      TableAddrPositive(a, nbr);
    }
  }

  lemma TableNeed(a: Account, nbr: Word)
    requires nbr >= 1
    ensures Wrap(AlignOffset(a.next, WORD_OCTETS) + Wrap(WORD_OCTETS * nbr)) == TablePart(a, nbr)
  {
    hide Wrap, CalcTot, AlignOffset;
    TableTotal(a.next, nbr);
    WrapAdd(WORD_OCTETS * nbr, AlignOffset(a.next, WORD_OCTETS));
  }

  lemma TableTotal(next: nat, nbr: nat)
    requires nbr >= 1
    ensures CalcTot(next, nbr, WORD_OCTETS, WORD_OCTETS) == AlignOffset(next, WORD_OCTETS) + WORD_OCTETS * nbr
  {
    var s := Stride(WORD_OCTETS, WORD_OCTETS);
    assert s == 4;
    assert s * (nbr - 1) == 4 * (nbr - 1);
  }

  /** An address that is allocated for a table is not null. */
  lemma TableAddrPositive(a: Account, nbr: Word)
    requires nbr >= 1 && 0 < a.next && a.next + a.rem < W32
    requires Wrap(AlignOffset(a.next, WORD_OCTETS) + Wrap(WORD_OCTETS * nbr)) <= a.rem
    ensures Allocate(a, Wrap(WORD_OCTETS * nbr), WORD_OCTETS).addr > 0
  {
  }

  predicate TableFits(t: nat, rem: int) {
    t <= rem
  }

  /** Whatever remains, a table of `t` octets in a total of `t + p` is safe if and only if it is no more
      than the total as 32 bits hold it. */
  lemma TableSafeIff(t: Word, p: nat)
    ensures (forall rem: Word :: Admits(t + p, rem) ==> TableFits(t, rem)) <==> t <= Wrap(t + p)
  {
    var rem: Word := Wrap(t + p);
    assert Admits(t + p, rem) && (TableFits(t, rem) <==> t <= rem);
  }

  /** The table is allocated in full if and only if its octets do not wrap. */
  lemma TableWholeIff(nbr: Word)
    ensures Wrap(WORD_OCTETS * nbr) == WORD_OCTETS * nbr <==> nbr < 0x4000_0000
  {
  }

  /** Whereas a table whose size was compared with what remains, for dedicated memory, is never null. */
  lemma TestedTableNotNull(a: Account, nbr: Word)
    requires nbr >= 1 && 0 < a.next && a.next + a.rem < W32 && TablePart(a, nbr) <= a.rem
    ensures Allocate(a, Wrap(WORD_OCTETS * nbr), WORD_OCTETS).addr > 0
  {
    TableNeed(a, nbr);
    TableAddrPositive(a, nbr);
  }

  // ----- inputs

  /** Where addresses and sizes are multiples of the alignment, `k` blocks are carved one behind the other. */
  lemma {:induction false} CarveAligned(a: Account, n: nat, size: Word, align: Word, k: nat, spent: nat)
    requires align >= 1 && size >= 1 && a.next % align == 0 && size % align == 0
    requires a.next > 0 && a.next + a.rem < W32 && spent == k * size
    requires k <= n && spent <= a.rem && (k < n ==> a.rem < spent + size)
    ensures AllocateRun(a, n, size, align) == Carving(Account(a.next + spent, a.rem - spent), k)
    decreases k
  {
    hide Allocate;
    if k < n || k > 0 {
      AllocateAligned(a, size, align);
    }
    if k > 0 {
      assert spent == (k - 1) * size + size;
      Arith.MulNonNeg(k - 1, size);
      Arith.MultiplesAligned(a.next, 1, size, align);
      CarveAligned(Account(a.next + size, a.rem - size), n - 1, size, align, k - 1, spent - size);
    }
  }

  lemma AllocateAligned(a: Account, size: Word, align: Word)
    requires align >= 1 && a.next % align == 0 && a.next + a.rem < W32
    ensures Allocate(a, size, align) ==
            if size > a.rem then Allocated(a, 0) else Allocated(Account(a.next + size, a.rem - size), a.next)
  {
    AllocateExact(a, size, align);
  }

  /** Such a request from the heap. */
  lemma CreateAligned(a: Account, nbr: Word, size: Word, align: Word, table: Word, blocks: nat)
    requires nbr >= 1 && size >= 1 && (align == 1 || align == 4) && a.next > 0 && a.next + a.rem < W32
    requires a.next % 4 == 0 && size % align == 0
    requires table == Wrap(4 * nbr) && blocks == nbr * size && Wrap(table + Wrap(blocks)) <= a.rem
    ensures HeapRequest(a, nbr, size, align) ==
            var t := Allocate(a, table, 4);
            Started(t.addr, AllocateRun(t.account, nbr, size, align))
  {
    hide TablePart, BlocksPart, Allocate, AllocateRun;
    PartsAligned(a, nbr, size, align, table, blocks);
  }

  lemma PartsAligned(a: Account, nbr: Word, size: Word, align: Word, table: Word, blocks: nat)
    requires nbr >= 1 && size >= 1 && (align == 1 || align == 4) && a.next % 4 == 0 && size % align == 0
    requires table == Wrap(4 * nbr) && blocks == nbr * size
    ensures TablePart(a, nbr) == table && BlocksPart(a, nbr, size, align) == Wrap(blocks)
  {
    hide CalcTot, Wrap;
    AlignedTotal(a.next, nbr, 4, 4);
    TableEndAligned(a.next, nbr);
    AlignedBy(Wrap(a.next + table), align);
    AlignedTotal(Wrap(a.next + table), nbr, size, align);
  }

  lemma TableEndAligned(next: nat, nbr: nat)
    requires next % 4 == 0
    ensures Wrap(next + Wrap(4 * nbr)) % 4 == 0
  {
  }

  lemma AlignedBy(a: nat, align: nat)
    requires a % 4 == 0 && (align == 1 || align == 4)
    ensures a % align == 0
  {
  }

  lemma AlignedTotal(a: nat, n: nat, size: nat, align: nat)
    requires n >= 1 && size >= 1 && align >= 1 && a % align == 0 && size % align == 0
    ensures CalcTot(a, n, size, align) == n * size
  {
    assert Stride(size, align) == size;
    assert size * (n - 1) + size == n * size;
  }

  /** Half a gigabyte of blocks of four octets, from a heap of four kilobytes: the total wraps to 0, the
      pointer table is null, and the loop stores the addresses of the 0x400 blocks that there are from
      address 0 on. */
  lemma NullTableExample()
    ensures HeapRequest(Account(0x1000, 0x1000), 0x2000_0000, 4, 4)
         == Started(0, Carving(Account(0x2000, 0), 0x400))
  {
    hide Wrap, Allocate, AllocateRun, HeapRequest;
    var a := Account(0x1000, 0x1000);
    WrapSmall(0x8000_0000);
    WrapOnce(0);
    CreateAligned(a, 0x2000_0000, 4, 4, 0x8000_0000, 0x8000_0000);
    AllocateAligned(a, 0x8000_0000, 4);
    CarveAligned(a, 0x2000_0000, 4, 4, 0x400, 0x1000);
  }

  /** A null table and no error: the blocks, without the table, fit. */
  lemma NullTableWithoutErrorExample()
    ensures HeapRequest(Account(0x1000, 0x4000_0000), 0x3FFF_C000, 1, 1)
         == Started(0, Carving(Account(0x3FFF_D000, 0x4000), 0x3FFF_C000))
  {
    hide Wrap, Allocate, AllocateRun, HeapRequest;
    var a := Account(0x1000, 0x4000_0000);
    WrapSmall(0xFFFF_0000);
    WrapSmall(0x3FFF_C000);
    WrapOnce(0x3FFE_C000);
    CreateAligned(a, 0x3FFF_C000, 1, 1, 0xFFFF_0000, 0x3FFF_C000);
    AllocateAligned(a, 0xFFFF_0000, 4);
    CarveAligned(a, 0x3FFF_C000, 1, 1, 0x3FFF_C000, 0x3FFF_C000);
  }

  /** A gigabyte of pointers wraps to an empty table, which is where the first block is. */
  lemma ShortTableExample()
    ensures HeapRequest(Account(0x1000, 0x1000), 0x4000_0000, 4, 4)
         == Started(0x1000, Carving(Account(0x2000, 0), 0x400))
    ensures Allocate(Account(0x1000, 0x1000), 4, 4).addr == 0x1000
  {
    hide Wrap, Allocate, AllocateRun, HeapRequest;
    var a := Account(0x1000, 0x1000);
    WrapOnce(0);
    WrapSmall(0);
    CreateAligned(a, 0x4000_0000, 4, 4, 0, 0x1_0000_0000);
    AllocateAligned(a, 0, 4);
    AllocateAligned(a, 4, 4);
    CarveAligned(a, 0x4000_0000, 4, 4, 0x400, 0x1000);
  }

  lemma WrapOnce(x: Word)
    ensures Wrap(W32 + x) == x
  {
  }
}
