# Memory pools, memory buffers, strings and registers of an STM32F10x firmware, in Dafny

The firmware rests on Micrium's uC/LIB and uC/CPU, on ST's peripheral library and on an lwIP
telnet example. This project models the parts of it where correctness is not obvious from one
function, and proves what they promise to their callers.

| file | what it models |
|---|---|
| `Words.dfy`, `Arith.dfy` | the octet-addressed, little-endian 32-bit memory; quotients and remainders |
| `PoolMath.dfy` | alignment, the closed-form size of a pool, the addresses of its blocks, the address check of `Mem_PoolBlkFree` |
| `PoolAlloc.dfy` | `Mem_PoolSegAlloc` and a creation from the heap in 32 bits throughout, whatever the arguments: where it is exact, and what it does elsewhere |
| `PoolSpec.dfy` | segments, pools and free lists as a state machine on values; its invariant over every run |
| `PoolSafety.dfy` | what the invariant means: no two owners, conservation, inverse operations, running out of memory |
| `PoolOutcome.dfy` | what each call on the pools gives for which arguments, said without the functions that the code computes: by the arguments, and by where objects that lie as near as they can would end |
| `PoolTable.dfy` | the program's own form: `MEM_POOL` structures in a two-dimensional, doubly linked table, pointer stacks in memory; each operation refines `PoolSpec` |
| `PoolClient.dfy` | client programs: any sequence of calls and of writes inside owned blocks, whose contents stay their own; the table as a reader sees it |
| `MemOctets.dfy` | `Mem_Set`, `Mem_Clr`, `Mem_Copy`, `Mem_Cmp` by aligned words, against plain octet loops |
| `MemVal.dfy` | the octet-order macros of `lib_mem.h` |
| `Str.dfy`, `FmtNbr.dfy` | string length, comparison and search; a number written in decimal |
| `HelloWorld.dfy` | the line assembler of the telnet example |
| `IntPrio.dfy`, `Gpio.dfy`, `I2s.dfy` | interrupt priorities, pin configuration, the I2S clock divider |

All code that the program runs on memory or registers is imperative here as well: arrays and
classes with the structures' own fields, and the program's loops. A method's contract equates the
new state with a function, or a relation, of the old one; lemmas say what that function means.
A pointer is an address in `ram`, except pointers to `MEM_POOL` structures, which are references. `Mem_Cmp`, which
only reads, gets the part of memory that exists as a map.

`MemLib.Valid()` is the invariant of the table: the heads of the segments are doubly linked in
strictly ascending order of base address, the heap is one of them, each head starts the doubly
linked list of the pools of its segment, every account satisfies
`SegAddrNextAvail - SegAddr + SegSizeRem == SegSizeTot`, the fields of every pool and its pointer table
in `ram` are what the abstract state says, and the abstract state satisfies `PoolSpec.Inv`.

## Where the code does not do what is said of it

* `Mem_PoolBlkIsValidAddr` accepts one address too many for some alignments that are not powers of two
  (`PoolMath.CheckExactIff`, `PoolMath.PhantomExample`); freeing it breaks the pool (`PoolSpec.FreeKeepsInvIff`).
  With powers of two it is exact (`PoolMath.NoPhantomForPowerOfTwo`), in every state
  (`PoolSafety.AnyAddressMayBeFreed`), so that any run of calls is safe (`PoolSafety.PowerOfTwoOwnersNeverMeet`).
* The size tests of `Mem_PoolCreate` are right if and only if the total does not wrap at 32 bits
  (`PoolMath.TestSoundIff`). Where they are wrong and `PoolSpec.CreateFits` holds, the carving loop runs out of
  memory: the call fails, but the space is lost, and no missing octets are reported (`PoolSafety.FailureSpendsIff`,
  `PoolSafety.SpendsIff`, `PoolSafety.WrappedTotalExample`). The shortfall that a heap pool reports is the true one
  under the same condition (`PoolSafety.ShortfallIsLeastIff`).
* A wrapped total may pass the test although not even the pointer table fits. The allocation of the table, whose
  result is not tested, then yields null, and the block addresses are stored from address 0 on
  (`PoolAlloc.PointersNullIff` says for which requests, `PoolAlloc.TableSafeIff` for which totals,
  `PoolAlloc.NullTableExample` gives an input). The call may even report no error
  (`PoolAlloc.NullTableWithoutErrorExample`). For dedicated memory the table is tested by itself and is never null
  (`PoolAlloc.TestedTableNotNull`).
* From 2^30 blocks on, the octets of the pointer table wrap too, and it is allocated shorter than it is used
  (`PoolAlloc.TableWholeIff`, `PoolAlloc.ShortTableExample`). Where block size and alignment wrap together,
  `Mem_PoolSegAlloc` may hand out a block that does not fit (`PoolAlloc.NeverOverrunIff`).
* A pool asked for by the heap's own base address and size, which the note at
  `uC-LIB/Source/lib_mem.c:592-594` tells callers not to do and nothing prevents, has two more failures. Its
  pointer table and its blocks are compared with what remains separately, so that a request that does not fit may
  pass and lose space (`PoolSafety.SpendsIff`, `PoolSafety.ByAddressSpendsExample`). And the address range recorded
  starts at the pointer table, so that the address check fits the blocks only under a condition on the alignment
  (`PoolSafety.HeapByAddressCheckIff`, `PoolSpec.CreateKeepsInvIff`). Otherwise a block handed out cannot be
  given back, and the pointer table's own address can (`PoolSafety.HeapByAddressFails`).
* The block index has 16 bits. A pool of more than 65535 blocks is not all free when created
  (`PoolSafety.CreatedAllFreeIff`); one of 65536 blocks is created without error and has none to hand out
  (`PoolSafety.LargePoolIsEmpty`). A free that makes the index wrap loses all free blocks
  (`PoolSafety.FreeTakesBackOutstanding`, `PoolSafety.FreeThenGet`, `PoolSafety.IndexWrapLosesAll`). No block gets a
  second owner by that. Of such a pool "outstanding" means every block that is not listed as free, the blocks that
  were never handed out included; `Mem_PoolBlkFree` accepts them.
* `MEM_VAL_COPY_GET` in big-endian order reverses the octets if and only if source and destination have at most
  one octet in common, at their ends (`MemVal.SwappedIsReversedIff`).
* The last fifteen external interrupts, and with eight groups of lines all of them, cannot be given a
  priority (`IntPrio.PossibleSettableIff`).
* A divider above 511 does not always give the documented default, because it is cast to 16 bits first
  (`I2s.DefaultWhenTooLargeIff`). Of all settings of the PLL3 clock this concerns the fastest alone, with 16-bit
  frames, no master clock and sample rates from 8847 to 9530 Hz (`I2s.DefaultMissedIff`, `I2s.WrapExample`).

## Model

| member | source | states |
|---|---|---|
| PoolMath.AlignUpAligned | uC-LIB/Source/lib_mem.c:1414-1422 | the aligned address is a multiple of the alignment |
| PoolMath.AlignUpLeast | uC-LIB/Source/lib_mem.c:1414-1422 | no multiple of the alignment in between is skipped |
| PoolMath.AlignUpOfAligned | uC-LIB/Source/lib_mem.c:1275-1289 | from an aligned block the next one lies exactly one padded size further |
| PoolMath.BlockSeqAt | uC-LIB/Source/lib_mem.c:922-930 | block k of n successive allocations lies k padded sizes behind the first aligned address |
| PoolMath.CalcTotIsIteratedAlloc | uC-LIB/Source/lib_mem.c:1275-1289 | the closed-form total is what n successive allocations take, from any address, size and alignment |
| PoolMath.BlockSeqSnoc | uC-LIB/Source/lib_mem.c:922-930 | one turn of the creation loop appends the address that the next allocation returns |
| PoolMath.BlockSeqNth | uC-LIB/Source/lib_mem.c:922-930 | the k-th stored pointer is what the k-th allocation returned |
| PoolMath.NextAfterMono | uC-LIB/Source/lib_mem.c:1424-1435 | each of the n allocations ends within the total computed beforehand |
| PoolMath.BlockBounds | uC-LIB/Source/lib_mem.c:922-930 | blocks are aligned and inside the range recorded for the pool |
| PoolMath.BlocksDisjoint | uC-LIB/Source/lib_mem.c:922-930 | two blocks of a pool are equal or have no octet in common |
| PoolMath.BlockSeqDistinct | uC-LIB/Source/lib_mem.c:922-930 | no address is stored twice |
| PoolMath.CheckAddrIff | uC-LIB/Source/lib_mem.c:1337-1365 | the check, with its wrapping difference, accepts the carved blocks and beside them at most one address of the leading gap |
| PoolMath.PhantomAt | uC-LIB/Source/lib_mem.c:1361-1365 | which address that is: as far below the first block as 2^32 modulo the padded size |
| PoolMath.CheckExactIff | uC-LIB/Source/lib_mem.c:1337-1365 | the check accepts exactly the blocks if and only if 2^32 modulo the padded size is zero or exceeds the leading gap |
| PoolMath.NoPhantomForPowerOfTwo | uC-LIB/Source/lib_mem.c:1337-1365 | for every start, block size and power-of-two alignment there is no wrong address |
| PoolMath.PhantomExample | uC-LIB/Source/lib_mem.c:1337-1365 | with alignment 3 an address that is no block is accepted |
| PoolMath.CalcTotSize | uC-LIB/Source/lib_mem.c:1264-1292 | the 32-bit computation gives the exact total modulo 2^32, for all arguments |
| PoolMath.TestSoundIff | uC-LIB/Source/lib_mem.c:811-814 | the size test is right, whatever remains, if and only if the total does not wrap at 32 bits |
| PoolMath.SpendAll | uC-LIB/Source/lib_mem.c:922-930 | when the exact total fits, the loop takes exactly that total |
| PoolMath.SpendSome | uC-LIB/Source/lib_mem.c:922-930 | the first allocation that fails leaves the account where the blocks before it end, and shows that the total does not fit |
| PoolAlloc.AllocateExact | uC-LIB/Source/lib_mem.c:1413-1437 | an allocation in 32 bits fails exactly when it does not fit, and else takes exactly what it needs, while neither its need nor the segment wraps |
| PoolAlloc.AllocateAt | uC-LIB/Source/lib_mem.c:1413-1437 | the same by addresses: the next aligned one is handed out and the account ends behind it |
| PoolAlloc.NeverOverrunIff | uC-LIB/Source/lib_mem.c:1424-1430 | no segment, whatever it holds, gives more than it has if and only if size and alignment do not exceed 2^32 together |
| PoolAlloc.CarveExact | uC-LIB/Source/lib_mem.c:922-930 | the loop in 32 bits spends what the exact account says, and comes to its end exactly if the exact total fits |
| PoolAlloc.PointersNullIff | uC-LIB/Source/lib_mem.c:793-920 | for every heap request in 32 bits, the pointer table is null if and only if the wrapped total remains and the table does not |
| PoolAlloc.TableSafeIff | uC-LIB/Source/lib_mem.c:811-920 | passing the test means room for the table, whatever remains, if and only if the table is no more than the total as 32 bits hold it |
| PoolAlloc.TableWholeIff | uC-LIB/Source/lib_mem.c:915-920 | the table is allocated in full if and only if there are fewer than 2^30 blocks |
| PoolAlloc.TestedTableNotNull | uC-LIB/Source/lib_mem.c:885-920 | with dedicated memory the table passes a test of its own, and its allocation is not null |
| PoolAlloc.NullTableExample | uC-LIB/Source/lib_mem.c:793-930 | 2^29 blocks of four octets from four kilobytes: the test is passed, the table is null, 1024 block addresses are stored |
| PoolAlloc.NullTableWithoutErrorExample | uC-LIB/Source/lib_mem.c:793-930 | 0x3FFF_C000 blocks of one octet from a gigabyte: the table is null and all blocks are carved without error |
| PoolAlloc.ShortTableExample | uC-LIB/Source/lib_mem.c:915-930 | 2^30 blocks: the table takes no octet and the first block lies where it begins |
| PoolSpec.InitKeepsInv | uC-LIB/Source/lib_mem.c:157-183 | the state after `Mem_Init` satisfies the invariant |
| PoolSpec.CarvedExtends | uC-LIB/Source/lib_mem.c:793-930 | a carving that comes to its end puts blocks and pointer table behind everything in use, apart from each other |
| PoolSpec.SpentKeepsInv | uC-LIB/Source/lib_mem.c:924-928 | a carving that fails on the way loses space, but keeps the invariant |
| PoolSpec.CreateKeepsInv | uC-LIB/Source/lib_mem.c:692-977 | creation keeps the invariant: segments disjoint, pools and tables of all pools apart, free lists of distinct blocks; wrapping totals, failing carvings and any number of blocks included |
| PoolSpec.CreateKeepsInvIff | uC-LIB/Source/lib_mem.c:692-977 | for a request of `CreateFits` by the heap's own address it does so if and only if nothing is carved or the pointer table lies in front of the first aligned address |
| PoolSpec.GetKeepsInv | uC-LIB/Source/lib_mem.c:1013-1061 | handing a block out keeps the invariant |
| PoolSpec.FreeKeepsInv | uC-LIB/Source/lib_mem.c:1096-1155 | a free keeps the invariant, with any address but the wrongly accepted one |
| PoolSpec.FreeKeepsInvIff | uC-LIB/Source/lib_mem.c:1096-1155 | and with any address at all if and only if it is not the wrongly accepted one, or the pool is full, or the index wraps |
| PoolSpec.PhantomIsTaken | uC-LIB/Source/lib_mem.c:1119-1154 | the wrongly accepted address is taken for an outstanding block: only a full pool refuses it |
| PoolSpec.StepKeepsInv | uC-LIB/Source/lib_mem.c:692-1155 | every operation keeps the invariant |
| PoolSpec.RunKeepsInv | uC-LIB/Source/lib_mem.c:692-1155 | the invariant holds after every run of creations, gets and frees |
| PoolSafety.OwnersNeverMeet | uC-LIB/Source/lib_mem.c:692-1155 | after every admissible run a block that is out is aligned, inside its own pool's range and segment, and shares no octet with any other block of any pool or any pointer table |
| PoolSafety.BlocksNeverMeet | uC-LIB/Source/lib_mem.c:692-1155 | the same of any block in any state that satisfies the invariant |
| PoolSafety.Conservation | uC-LIB/Source/lib_mem.c:1028-1154 | the free and the outstanding blocks always make up the set created, in number too |
| PoolSafety.CreatedAllFreeIff | uC-LIB/Source/lib_mem.c:971 | all blocks of the pool that a creation makes are free if and only if their number fits 16 bits |
| PoolSafety.FirstCreation | uC-LIB/Source/lib_mem.c:692-977 | blocks of a word asked of an initialised heap in which they fit: the pool and the account that result, also by the address of the heap |
| PoolSafety.LargePoolIsEmpty | uC-LIB/Source/lib_mem.c:971-1047 | any multiple of 65536 blocks: the creation succeeds, and a get finds none |
| PoolSafety.IndexWrapLosesAll | uC-LIB/Source/lib_mem.c:971-1154 | 131071 blocks, or that and a multiple of 65536 more: the last, never handed out, is accepted by free, after which none is free |
| PoolSafety.GetHandsOutFreeBlock | uC-LIB/Source/lib_mem.c:1028-1060 | a get refuses exactly the sizes above that of the blocks; else it succeeds exactly unless all blocks are out; the block handed out was not out before and holds the octets asked for; a failed get changes nothing |
| PoolSafety.FreeTakesBackOutstanding | uC-LIB/Source/lib_mem.c:1119-1154 | for any address: a free succeeds exactly on an outstanding block, or on the wrongly accepted address while the pool is not full; it makes the block not outstanding unless the index wraps; a failed one changes nothing |
| PoolSafety.FreeErrors | uC-LIB/Source/lib_mem.c:1096-1146 | which error: null exactly for a null block, pool full exactly for a full pool, else invalid address |
| PoolSafety.FreeThenGet | uC-LIB/Source/lib_mem.c:1028-1154 | a get after a free returns the block freed and the state before, unless the 16-bit index wraps |
| PoolSafety.GetThenFree | uC-LIB/Source/lib_mem.c:1028-1154 | a free of the block just got restores the state |
| PoolSafety.StepGrows | uC-LIB/Source/lib_mem.c:692-1155 | no operation moves a segment's next available address back, resizes a segment or changes the layout of a pool |
| PoolSafety.RunGrows | uC-LIB/Source/lib_mem.c:692-1155 | nor does any run |
| PoolSafety.OutUntilFreed | uC-LIB/Source/lib_mem.c:1013-1155 | over every run a block stays out until a free names it |
| PoolSafety.NoSecondOwner | uC-LIB/Source/lib_mem.c:1013-1155 | in a run without a free of it no get hands the block out again |
| PoolSafety.RunOkPrefix | uC-LIB/Source/lib_mem.c:692-1155 | what callers respect in a run they respect in every part of it from the start |
| PoolSafety.AnyAddressMayBeFreed | uC-LIB/Source/lib_mem.c:1133-1138 | with power-of-two alignments any address at all may be given to free, in every step |
| PoolSafety.PowerOfTwoRun | uC-LIB/Source/lib_mem.c:692-1155 | so every run with such alignments is one that the results on runs speak of, whatever addresses are given back |
| PoolSafety.PowerOfTwoOwnersNeverMeet | uC-LIB/Source/lib_mem.c:692-1155 | from `Mem_Init` on, over every run with such alignments, no block that is out shares an octet with another block of any pool or a pointer table |
| PoolSafety.ShortfallIsLeastIff | uC-LIB/Source/lib_mem.c:811-822 | how much more heap a failed call needs to succeed, where the enlarged heap meets `CreateFits`; it reports just that if and only if the total does not wrap |
| PoolSafety.FailureSpendsIff | uC-LIB/Source/lib_mem.c:692-977 | under `CreateFits`, a failing creation changes something if and only if it passes the tests and does not fit; then it reports an empty segment and no shortfall |
| PoolSafety.SpendsIff | uC-LIB/Source/lib_mem.c:811-911 | which requests these are: totals that wrap to what remains and, for the heap by address, sums that do not remain though both parts do |
| PoolSafety.WrappedTotalExample | uC-LIB/Source/lib_mem.c:811-928 | four blocks of a gigabyte from four kilobytes: the pointer table is lost, no block is carved |
| PoolSafety.ByAddressSpendsExample | uC-LIB/Source/lib_mem.c:885-928 | four blocks of 16 octets from a heap of 64 by its own address: all of it is lost |
| PoolSafety.HeapRequestAgrees | uC-LIB/Source/lib_mem.c:793-930 | under `CreateFits`, the heap request in 32 bits throughout has the outcome, shortfall, table and account of `PoolSpec.Create` |
| PoolSafety.TableLostIff | uC-LIB/Source/lib_mem.c:793-920 | while the end of the table does not wrap, the heap requests that `CreateFits` rejects for their table are exactly those whose table is null |
| PoolSafety.HeapByAddressCheckIff | uC-LIB/Source/lib_mem.c:827-912 | for the heap asked for by address, and any alignment, exactly when the check recognises the carved blocks |
| PoolSafety.HeapByAddressFails | uC-LIB/Source/lib_mem.c:827-1155 | one block of four octets from any heap by its own address: created and handed out, the block is refused by free, and the address of the pointer table is accepted |
| PoolOutcome.EndsAtIff | uC-LIB/Source/lib_mem.c:922-930 | the iterated allocations end where objects end that lie one after the other at the nearest multiples of the alignment |
| PoolOutcome.ConflictIff | uC-LIB/Source/lib_mem.c:827-866 | the overlap test means an address in common with a segment that is not the same one |
| PoolOutcome.CreateRefuses | uC-LIB/Source/lib_mem.c:692-866 | which invalid argument gives which error, in the order of the tests, exactly when, with nothing changed; every other request ends with success or for want of memory |
| PoolOutcome.HeapMisses | uC-LIB/Source/lib_mem.c:793-822 | from the heap: fails the test exactly when the end of pointer table and blocks, as 32 bits hold the total, exceeds the heap; reports by how much |
| PoolOutcome.SegMisses | uC-LIB/Source/lib_mem.c:877-911 | with a base address: first the table against the heap, then the blocks against their memory, each with the excess reported |
| PoolOutcome.CreateSucceedsIff | uC-LIB/Source/lib_mem.c:692-977 | a valid request succeeds exactly when table and blocks, placed one behind the other, end within the heap and the memory given; just that much is used of both, and no other segment changes |
| PoolOutcome.CreatedAsAsked | uC-LIB/Source/lib_mem.c:774-977 | every creation that succeeds adds one pool: with the number, size and alignment asked for, table at the next word boundary of the heap, and free blocks each at the first multiple of the alignment behind the one before |
| PoolOutcome.MadeStays | uC-LIB/Source/lib_mem.c:692-1155 | over the rest of any run a pool stays as it was made, but for its free blocks |
| PoolOutcome.GetFromCreated | uC-LIB/Source/lib_mem.c:692-1061 | in any run, a block got from a pool that the run created is a multiple of the alignment asked for at the creation, holds the octets asked for at the get, and lies in the memory given |
| PoolTable.MemPool.InitHeap | uC-LIB/Source/lib_mem.c:163-178 | the heap's structure after `Mem_Init` |
| PoolTable.MemPool.Configure | uC-LIB/Source/lib_mem.c:963-971 | the fields of a created pool describe it, its block index in 16 bits included |
| PoolTable.MemPool.BlkIsValidAddr | uC-LIB/Source/lib_mem.c:1321-1368 | range test and remainder of the wrapped difference, which `PoolMath.CheckAddrIff` characterises |
| PoolTable.MemPool.SegAlloc | uC-LIB/Source/lib_mem.c:1399-1440 | for any arguments, the wrap-arounds included: address and both accounts as `PoolAlloc.Allocate` says; null changes nothing |
| PoolTable.MemLib.Init | uC-LIB/Source/lib_mem.c:157-183 | the table is the heap alone, and valid |
| PoolTable.MemLib.BlkGet | uC-LIB/Source/lib_mem.c:1013-1061 | refines `PoolSpec.Get`, error by error; the size error exactly for sizes above the structure's block size; writes only `BlkIx`; the invalid-index error cannot arise |
| PoolTable.MemLib.Pop | uC-LIB/Source/lib_mem.c:1053-1054 | the address on top of the stack in memory, and the index one less, as `PoolSpec.Get` says; the table stays valid |
| PoolTable.MemLib.IsListed | uC-LIB/Source/lib_mem.c:1140-1146 | the loop finds the address if and only if it is among the free blocks |
| PoolTable.MemLib.PushWord | uC-LIB/Source/lib_mem.c:1149-1150 | the address on top of the stack in memory, the index in 16 bits, nothing else written |
| PoolTable.MemLib.Push | uC-LIB/Source/lib_mem.c:1149-1150 | the pool's stack grows in the abstract state too; the table stays valid if and only if that state satisfies the invariant |
| PoolTable.MemLib.BlkFree | uC-LIB/Source/lib_mem.c:1096-1155 | refines `PoolSpec.Free`, error by error, for any address; the structures stay valid exactly if it is not the wrongly accepted one, or the pool is full, or the index wraps; memory unchanged on every error |
| PoolTable.MemLib.FindSeg | uC-LIB/Source/lib_mem.c:827-874 | the three-way test rejects exactly the segments that overlap another that is not identical; `prev == next` holds exactly for a shared segment; else the place keeps the order |
| PoolTable.MemLib.FindPlace | uC-LIB/Source/lib_mem.c:827-874 | the search and, where no segment is found, the fields of a new one |
| PoolTable.GapMeansNoOverlap | uC-LIB/Source/lib_mem.c:848-866 | a gap between two neighbours in the list is free of every segment |
| PoolTable.MemLib.CheckHeap | uC-LIB/Source/lib_mem.c:798-822 | table and blocks fit the heap as 32 bits hold their sum, or the shortfall |
| PoolTable.MemLib.CheckSizes | uC-LIB/Source/lib_mem.c:877-911 | the table fits the heap and the blocks, as 32 bits hold their total, fit their segment, or the first shortfall |
| PoolTable.MemLib.CarveBlocks | uC-LIB/Source/lib_mem.c:922-930 | the loop succeeds exactly when the total fits; the block addresses are stored in order, nothing else is written, and the account moves by what was taken |
| PoolTable.MemLib.Carve | uC-LIB/Source/lib_mem.c:915-930 | the unchecked allocation of the pointer table succeeds; both accounts move by what was taken |
| PoolTable.MemLib.CarveFor | uC-LIB/Source/lib_mem.c:915-930 | table and blocks of the pool that the abstract machine makes; it fails exactly when the blocks do not fit |
| PoolTable.CarvedKeepsInUse | uC-LIB/Source/lib_mem.c:915-930 | the carving writes no octet that is in use |
| PoolTable.LinkPool | uC-LIB/Source/lib_mem.c:935-943 | the pool list stays doubly linked with the new pool behind its head |
| PoolTable.MemLib.LinkSeg | uC-LIB/Source/lib_mem.c:947-958 | the segment list stays doubly linked with the new head in its place, the first one possibly |
| PoolTable.MemLib.InstallShared | uC-LIB/Source/lib_mem.c:915-971 | a pool of a segment already there: abstract step, links, fields and memory together, or the space lost |
| PoolTable.MemLib.InstallNew | uC-LIB/Source/lib_mem.c:915-971 | a pool of a segment of its own, likewise |
| PoolTable.MemLib.Install | uC-LIB/Source/lib_mem.c:915-971 | either, as the search decided |
| PoolTable.MemLib.CreateFromHeap | uC-LIB/Source/lib_mem.c:793-822 | refines `PoolSpec.Create` without a base address |
| PoolTable.MemLib.CreateFromSeg | uC-LIB/Source/lib_mem.c:825-912 | refines `PoolSpec.Create` with a base address |
| PoolTable.MemLib.PoolCreate | uC-LIB/Source/lib_mem.c:692-977 | refines `PoolSpec.Create` and keeps the table well formed; on success the structure's number, size and alignment are those asked for; an error makes no pool, and if the abstract state is unchanged so are all structures and memory; no octet in use is written |
| PoolTable.TableNullIff | uC-LIB/Source/lib_mem.c:780-784 | the table is empty exactly before `Mem_Init` |
| PoolClient.WriteOwned | uC-LIB/Source/lib_mem.c:1013-1062 | a client that writes in a block it owns changes no allocator state |
| PoolClient.PrivateNext | uC-LIB/Source/lib_mem.c:692-1155 | one operation more leaves the octets of every block that stays out as their owner wrote them |
| PoolClient.Perform | uC-LIB/Source/lib_mem.c:692-1155 | one operation on structures and memory: outcome, state and owners' octets as the abstract machine says |
| PoolClient.Execute | uC-LIB/Source/lib_mem.c:692-1155 | any run of calls and of writes in owned blocks gives the state and the outcomes of the abstract machine, and leaves in every block that stays out what its owner last wrote |
| PoolClient.SegmentsInOrder | uC-LIB/Source/lib_mem.c:578-588 | segments doubly linked from the head of the table, ascending, each ending before the next begins, used plus remaining always the total |
| PoolClient.PoolInItsList | uC-LIB/Source/lib_mem.c:578-594 | the heap is in the table, and every pool in the doubly linked list that the head of its segment starts |
| Words.LoadAfterStore | uC-LIB/Source/lib_mem.c:1054 | a word read is the word stored |
| Words.WordsEqualIff | uC-LIB/Source/lib_mem.c:516-524 | two words are equal exactly when their four octets are |
| MemOctets.Replicate | uC-LIB/Source/lib_mem.c:273-277 | the shift loop puts the octet in all four places |
| MemOctets.MemSet | uC-LIB/Source/lib_mem.c:253-304 | exactly the octets of the buffer have the value, for every alignment and size; words only at word boundaries |
| MemOctets.MemClr | uC-LIB/Source/lib_mem.c:209-215 | exactly the octets of the buffer are zero |
| MemOctets.WordIsFourOctets | uC-LIB/Source/lib_mem.c:397-400 | a word copied at once is four octets copied in turn, overlapping buffers included |
| MemOctets.CopySplit | uC-LIB/Source/lib_mem.c:373-409 | copying in two parts is copying at once |
| MemOctets.CopyLead | uC-LIB/Source/lib_mem.c:385-393 | the octets up to the word boundary |
| MemOctets.CopyWords | uC-LIB/Source/lib_mem.c:395-400 | the words, with aligned accesses only |
| MemOctets.CopyRest | uC-LIB/Source/lib_mem.c:406-409 | the octets to the end |
| MemOctets.CopyAligned | uC-LIB/Source/lib_mem.c:383-404 | lead and words together, for congruent addresses |
| MemOctets.MemCopy | uC-LIB/Source/lib_mem.c:347-410 | memory is what the plain ascending octet copy leaves, for every two addresses and size, overlap included |
| MemOctets.CopyMoves | uC-LIB/Source/lib_mem.c:347-410 | hence a move when the destination is not above the source or the buffers are apart |
| MemOctets.CopyReplicates | uC-LIB/Source/lib_mem.c:347-410 | and a periodic repetition of the first k octets when the destination lies k above |
| MemOctets.CmpTrail | uC-LIB/Source/lib_mem.c:497-510 | the octets down to a word boundary |
| MemOctets.CmpWords | uC-LIB/Source/lib_mem.c:512-524 | the words downwards, with aligned accesses only |
| MemOctets.CmpRest | uC-LIB/Source/lib_mem.c:531-539 | the octets down to the start |
| MemOctets.MemCmp | uC-LIB/Source/lib_mem.c:457-542 | yes if and only if all octets agree; the null cases; the memory given holds the two buffers and need hold nothing else, so nothing else is read |
| MemOctets.SameRanges | uC-LIB/Source/lib_mem.c:457-542 | on a whole memory that is equality of the two ranges |
| MemVal.SetInt16Big | uC-LIB/Source/lib_mem.h:509-510 | stores most significant octet first |
| MemVal.SetInt32Big | uC-LIB/Source/lib_mem.h:512-515 | stores most significant octet first |
| MemVal.SetInt16Little | uC-LIB/Source/lib_mem.h:521-522 | stores least significant octet first |
| MemVal.SetInt32Little | uC-LIB/Source/lib_mem.h:524-527 | stores least significant octet first |
| MemVal.LittleAt | uC-LIB/Source/lib_mem.h:519-527 | the octet at offset i of a little-endian store is the one of weight 256^i |
| MemVal.BigAt | uC-LIB/Source/lib_mem.h:507-515 | the octet i places before the last of a big-endian store is the one of weight 256^i |
| MemVal.GetAt | uC-LIB/Source/lib_mem.h:414-434 | the value fetched has the octets of memory at those weights |
| MemVal.NativeIsLittle | uC-LIB/Source/lib_mem.c:1054 | the words that the pools and buffers use are little-endian |
| MemVal.CopyInt16Big | uC-LIB/Source/lib_mem.h:644-645 | the octets are stored one by one, the last one first, overlapping or not |
| MemVal.CopyInt32Big | uC-LIB/Source/lib_mem.h:647-650 | likewise for four octets |
| MemVal.GetInt16Big | uC-LIB/Source/lib_mem.h:416-417 | the shifted octets add to the value, most significant first |
| MemVal.GetInt32Big | uC-LIB/Source/lib_mem.h:419-422 | likewise for four octets |
| MemVal.GetInt16Little | uC-LIB/Source/lib_mem.h:428-429 | the shifted octets add to the value, least significant first |
| MemVal.GetInt32Little | uC-LIB/Source/lib_mem.h:431-434 | likewise for four octets |
| MemVal.SwappedIsReversed | uC-LIB/Source/lib_mem.h:642-650 | stored in that order, the octets arrive in reverse, for any width |
| MemVal.SwappedIsReversedIff | uC-LIB/Source/lib_mem.h:642-650 | whatever the octets, exactly when source and destination have at most an octet in common at their ends |
| MemVal.GetUndoesSet | uC-LIB/Source/lib_mem.h:414-434 | in both orders, for every width and address, what is fetched is what was stored |
| MemVal.SetUndoesGetLittle | uC-LIB/Source/lib_mem.h:519-527 | storing what was fetched changes nothing |
| MemVal.SetUndoesGetBig | uC-LIB/Source/lib_mem.h:507-515 | likewise in big-endian order |
| MemVal.CopyIsGetThenStore | uC-LIB/Source/lib_mem.h:642-650 | copying in big-endian order is fetching in that order and storing natively |
| MemVal.CopySetUndoesCopyGet | uC-LIB/Source/lib_mem.h:729-735 | copied there and back the octets are the original ones |
| Str.StrLen | uC-LIB/Source/lib_str.c:140-153 | the number of octets before the NUL |
| Str.StrAtIff | uC-LIB/Source/lib_str.c:147-151 | the string is exactly the octets before the first NUL |
| Str.StrCmp | uC-LIB/Source/lib_str.c:560-616 | the lexicographic difference of the two strings; the null cases; fits 16 bits |
| Str.OrderIsDifference | uC-LIB/Source/lib_str.c:596-600 | the value is the difference of the first octets that differ, with NUL behind the end |
| Str.OrderZeroIffEqual | uC-LIB/Source/lib_str.c:596-600 | the difference is zero exactly for equal strings |
| Str.OrderNegativeIffBefore | uC-LIB/Source/lib_str.c:596-597 | it is negative exactly when the first string is a proper prefix or smaller, as unsigned octets, at the first difference |
| Str.OrderAntisymmetric | uC-LIB/Source/lib_str.c:596-597 | exchanging the strings changes the sign |
| Str.OrderTransitive | uC-LIB/Source/lib_str.c:596-597 | the order is transitive |
| Str.StrCmpN | uC-LIB/Source/lib_str.c:687-756 | the lexicographic difference of the first characters only |
| Str.CmpNZeroIff | uC-LIB/Source/lib_str.c:732-740 | zero exactly when the strings agree for that many characters or up to a NUL in both |
| Str.CmpNByOctets | uC-LIB/Source/lib_str.c:732-740 | the same octet by octet in memory |
| Str.CompareDecides | uC-LIB/Source/lib_str.c:1052-1054 | comparing at a place decides whether the search string occurs there |
| Str.Search | uC-LIB/Source/lib_str.c:1048-1056 | the loop stops at the first occurrence, or has excluded every place |
| Str.StrStr | uC-LIB/Source/lib_str.c:1018-1064 | the first occurrence; null exactly when there is none; the end for an empty search string |
| FmtNbr.ParseDigits | uC-LIB/Source/lib_str.c:1222-1223 | the k digits written for a number say that number modulo 10^k |
| FmtNbr.DigitAt | uC-LIB/Source/lib_str.c:1216-1223 | each character is the decimal digit of its place |
| FmtNbr.DecimalAt | uC-LIB/Source/lib_str.c:1231-1237 | decimal i is the last digit of the number cut off behind i decimals |
| FmtNbr.ScaledIsFloor | uC-LIB/Source/lib_str.c:1233-1234 | cut off means the greatest integer not above the magnitude times the power of ten |
| FmtNbr.FormattedSays | uC-LIB/Source/lib_str.c:1202-1245 | the output character by character: minus sign, whole digits by place, point, decimals; how many whole digits there are, and that none asked for is lost |
| FmtNbr.WidthSuffices | uC-LIB/Source/lib_str.c:1215-1224 | all the digits asked for with leading zeros, else none too many, and never one that counts is lost |
| FmtNbr.WrittenIff | uC-LIB/Source/lib_str.c:1216-1220 | the digit-by-digit test writes exactly the digits within that width |
| FmtNbr.FloorOfQuotient | uC-LIB/Source/lib_str.c:1216 | truncating the real quotient is the integer quotient of the truncation |
| FmtNbr.ScaledStep | uC-LIB/Source/lib_str.c:1233-1236 | each decimal extends those before it |
| FmtNbr.Shifted | uC-LIB/Source/lib_str.c:1216 | one digit position, by real division, fits 32 bits and is exact |
| FmtNbr.WriteWhole | uC-LIB/Source/lib_str.c:1210-1227 | the integer digits in the buffer |
| FmtNbr.WriteFraction | uC-LIB/Source/lib_str.c:1231-1237 | the decimals in the buffer |
| FmtNbr.WriteSign | uC-LIB/Source/lib_str.c:1202-1208 | the sign, and the number made positive |
| FmtNbr.WriteDecimals | uC-LIB/Source/lib_str.c:1229-1238 | the point and the decimals, if asked for |
| FmtNbr.StrFmtNbr32 | uC-LIB/Source/lib_str.c:1180-1246 | the buffer holds the formatted number, the NUL if asked for, and is otherwise unchanged |
| FmtNbr.WriteNumber | uC-LIB/Source/lib_str.c:1202-1238 | the formatted number from the start of the buffer on, and nothing behind it |
| FmtNbr.FormattedReadsBack | uC-LIB/Source/lib_str.c:1202-1245 | parsing the output gives the sign, floor of the magnitude modulo 10^nbr_dig, and floor of the magnitude times 10^nbr_dp modulo 10^nbr_dp |
| FmtNbr.FormattedFits | uC-LIB/Source/lib_str.c:1160-1168 | the output and its NUL fit the documented buffer size; the exact length with leading zeros |
| HelloWorld.Name.Keep | Utilities/lwip-1.3.1/port/helloworld.c:86-89 | the buffer holds the first 32 octets of the line |
| HelloWorld.Name.Terminate | Utilities/lwip-1.3.1/port/helloworld.c:92-111 | for every length, zero included, the buffer then holds the first 30 octets of the line and CR LF |
| HelloWorld.Name.Answer | Utilities/lwip-1.3.1/port/helloworld.c:92-116 | whatever the length, the reply is the first 30 octets and CR LF, and the buffer is empty again |
| HelloWorld.Recv | Utilities/lwip-1.3.1/port/helloworld.c:56-131 | one call on a chain of buffers does to the dialog what its concatenation says; octets behind the line end are dropped |
| HelloWorld.TwoCallsAsOne | Utilities/lwip-1.3.1/port/helloworld.c:79-90 | octets without a line end may come in two calls or one |
| HelloWorld.SplitDoesNotMatter | Utilities/lwip-1.3.1/port/helloworld.c:79-116 | for every split over calls and buffers the dialog is as if all had come at once |
| HelloWorld.LineIsAnswered | Utilities/lwip-1.3.1/port/helloworld.c:79-116 | every split of a line that CR or LF ends is answered by "Hello " and its first 30 octets followed by CR LF |
| HelloWorld.ReplyIs | Utilities/lwip-1.3.1/port/helloworld.c:110-114 | the greeting and the cut, in literals |
| HelloWorld.LineSoFar | Utilities/lwip-1.3.1/port/helloworld.c:79-91 | before each call of such a split the buffer holds the line so far |
| HelloWorld.RecvLine | Utilities/lwip-1.3.1/port/helloworld.c:56-131 | the calls themselves, on the structure: one answer, first 30 octets and CR LF, and length 0 at the end |
| IntPrio.RevMirrors | uC-CPU/cpu_a.asm:156-158 | the reversal takes bit i to bit 31 - i |
| IntPrio.Rev8Twice | uC-CPU/cpu_c.c:444-445 | the reversals of set and get cancel |
| IntPrio.Rev8Bits | uC-CPU/cpu_c.c:444-445 | bit i of a priority is bit 7 - i of the octet stored, and the other way round |
| IntPrio.PutOctetAt | uC-CPU/cpu_c.c:535-538 | the read-modify-write changes one octet of a register and no other |
| IntPrio.StoredAt | uC-CPU/cpu_c.c:463-540 | writing register n, octet o, writes the octet of its position among all registers and no other |
| IntPrio.StoredBitwise | uC-CPU/cpu_c.c:444-540 | bit i of the priority is bit 8 * (pos modulo 4) + 7 - i of register (pos - 4) / 4; every other bit of every register is as it was |
| IntPrio.HeldBits | uC-CPU/cpu_c.c:580-675 | the priority got has those bits |
| IntPrio.Nvic.PrioSet | uC-CPU/cpu_c.c:431-543 | exactly the octet of a settable position changes, and bit by bit in the registers it is the priority with its highest bit lowest; for other positions nothing does |
| IntPrio.Nvic.PrioGet | uC-CPU/cpu_c.c:567-680 | the stored priority of a settable position, the fixed levels of the first three, else invalid |
| IntPrio.HeldAfterSet | uC-CPU/cpu_c.c:431-680 | a get sees the last set of its position and of no other |
| IntPrio.Nvic.SetAll | uC-CPU/cpu_c.c:431-680 | over every sequence of sets each settable position holds the priority last asked for, and everything else is unchanged |
| IntPrio.Nvic.SetAllThenGet | uC-CPU/cpu_c.c:431-680 | after any sequence of sets a get returns the priority last asked for, a fixed level for the first three positions, else invalid |
| IntPrio.SettableIff | uC-CPU/cpu_c.c:59 | which positions are settable: the limit is 32 times the number of groups modulo eight |
| IntPrio.PossibleSettableIff | uC-CPU/cpu_c.c:237-241 | of the positions that the controller could have, exactly those below that limit are admitted |
| IntPrio.RefusedExample | uC-CPU/cpu_c.c:237-241 | two possible positions that are refused |
| Gpio.ConfiguredDecodes | STM32F10x_StdPeriph_Driver/src/stm32f10x_gpio.c:182-189 | the four bits and the pull decode to exactly the mode asked for and, for outputs, the speed, whatever the pin was; never to the reserved combination |
| Gpio.CodeBits | STM32F10x_StdPeriph_Driver/inc/stm32f10x_gpio.h:58-78 | each of the four bits, by what it means: two mode bits and two configuration bits |
| Gpio.RegisterBitIff | STM32F10x_StdPeriph_Driver/src/stm32f10x_gpio.c:202-207 | bit k of pin i is bit 4 * i + k of the low register, or 4 * (i - 8) + k of the high one |
| Gpio.DoneIsLaid | STM32F10x_StdPeriph_Driver/src/stm32f10x_gpio.c:172-257 | bit by bit, what the call makes of both registers and the output data |
| Gpio.NibblePut | STM32F10x_StdPeriph_Driver/src/stm32f10x_gpio.c:202-207 | clearing and setting four bits leaves the seven other pins alone |
| Gpio.BitPut | STM32F10x_StdPeriph_Driver/src/stm32f10x_gpio.c:209-220 | a pull changes one output bit |
| Gpio.TurnAt | STM32F10x_StdPeriph_Driver/src/stm32f10x_gpio.c:197-221 | one turn of a loop configures its pin, if selected, and changes no other |
| Gpio.DoneSkip | STM32F10x_StdPeriph_Driver/src/stm32f10x_gpio.c:192-227 | a half without selected pins may be skipped |
| Gpio.GpioPort.InitLow | STM32F10x_StdPeriph_Driver/src/stm32f10x_gpio.c:194-223 | the loop over the low pins |
| Gpio.GpioPort.InitHigh | STM32F10x_StdPeriph_Driver/src/stm32f10x_gpio.c:229-255 | the loop over the high pins |
| Gpio.GpioPort.Init | STM32F10x_StdPeriph_Driver/src/stm32f10x_gpio.c:172-257 | for every prior state and mask each selected pin is configured and every other pin unchanged, pin by pin and bit by bit of the registers |
| Gpio.PinsDetermine | STM32F10x_StdPeriph_Driver/src/stm32f10x_gpio.c:172-257 | a port is its sixteen pins and the upper half of its output data |
| Gpio.DisjointCallsCommute | STM32F10x_StdPeriph_Driver/src/stm32f10x_gpio.c:172-257 | calls on disjoint masks commute |
| Gpio.CallTwiceAsOnce | STM32F10x_StdPeriph_Driver/src/stm32f10x_gpio.c:172-257 | a repeated call changes nothing |
| Gpio.LastCallCounts | STM32F10x_StdPeriph_Driver/src/stm32f10x_gpio.c:172-257 | after any run of calls a pin has the mode and speed of the last call that selected it |
| I2s.TruncatingTwiceRounds | STM32F10x_StdPeriph_Driver/src/stm32f10x_spi.c:319-332 | the integer form rounds the ratio to the nearest integer, halves upwards, for all operands |
| I2s.NearestUnique | STM32F10x_StdPeriph_Driver/src/stm32f10x_spi.c:319-332 | there is only one such integer |
| I2s.OrBits | STM32F10x_StdPeriph_Driver/src/stm32f10x_spi.c:353 | the arithmetic or is the bitwise one |
| I2s.OrApart | STM32F10x_StdPeriph_Driver/src/stm32f10x_spi.c:353 | operands with no place in common add |
| I2s.Encoded | STM32F10x_StdPeriph_Driver/src/stm32f10x_spi.c:334-353 | divider, odd bit and master clock bit do not overlap and can be read back |
| I2s.ChosenIsNearestIff | STM32F10x_StdPeriph_Driver/src/stm32f10x_spi.c:319-350 | the divider held is the rounded ratio if and only if that is from 4 to 511, the 16-bit cast included |
| I2s.ChosenDivides | STM32F10x_StdPeriph_Driver/src/stm32f10x_spi.c:319-350 | where the number cast fits 16 bits, the divider d held is the ratio rounded to the nearest, (2d - 1) * rate <= 2 * clock < (2d + 1) * rate, if that is from 4 to 511, and else 4 |
| I2s.HeldAsAsked | STM32F10x_StdPeriph_Driver/src/stm32f10x_spi.c:312-353 | so for the register, with the clock one 256th of the source with a master clock, else one 32nd for 16-bit frames and one 64th for longer ones |
| I2s.DefaultWhenTooLargeIff | STM32F10x_StdPeriph_Driver/src/stm32f10x_spi.c:212-215 | above 511 the default is used if and only if the number cast is outside two intervals |
| I2s.DefaultForSlowClocks | STM32F10x_StdPeriph_Driver/src/stm32f10x_spi.c:212-215 | so it is for every source clock below 1.67 GHz |
| I2s.Pll3Bound | STM32F10x_StdPeriph_Driver/src/stm32f10x_spi.c:280-301 | all PLL3 settings but one give such a clock |
| I2s.DefaultMissedIff | STM32F10x_StdPeriph_Driver/src/stm32f10x_spi.c:212-301 | over all PLL3 settings and parameters, exactly where the documented default is missed |
| I2s.WrapExample | STM32F10x_StdPeriph_Driver/src/stm32f10x_spi.c:280-350 | at 9000 Hz a divider of 391 is chosen instead of 6944 |
| I2s.Prescaler | STM32F10x_StdPeriph_Driver/src/stm32f10x_spi.c:242-353 | the register holds that divider, or the default when asked for, and the master clock bit; field by field as `I2s.AsAsked` says |

## Left out

Of the pools:

- PoolSpec.CreateKeepsInvIff: under `PoolSpec.CreateFits`. Its conditions are: for a heap request, that it is not one whose pointer table is null (`PoolAlloc.PointersNullIff`, `PoolSafety.TableLostIff`); that the pointer table is allocated in full (`PoolAlloc.TableWholeIff`) and its end does not wrap; where blocks may run out, that size and alignment do not wrap together (`PoolAlloc.NeverOverrunIff`), nor size and padding; and that dedicated memory does not pass the top of the address space, as no such memory exists. What the code does to memory once it stores through a null or short table is not modelled.
- PoolSpec.CreateKeepsInv: a pool by the heap's own address is excluded where `PoolSpec.CreateKeepsInvIff` says that the invariant would break; the code checks nothing of this.
- PoolSpec.FreeKeepsInv: under `PoolSpec.FreeOk`, that the address is not the one that the check wrongly accepts, which `PoolSpec.FreeKeepsInvIff` shows to be needed.
- PoolSpec.RunKeepsInv: for runs in which every call meets these conditions; a run lasts from one `Mem_Init` to the next, as a second `Mem_Init` forgets all pools.
- PoolTable.MemLib.PoolCreate: for a structure that is not in the table already; the code zeroes the links of one that is. Dedicated memory must lie in `ram`, which ends below the top of the address space.
- PoolTable.MemLib.BlkGet: a structure whose type says "pool" must have been created, as forged structures are not modelled.
- `MEM_POOL` structures are objects outside `ram`: client writes through stray pointers into them are not modelled. Critical sections are not modelled either, so each operation is one atomic step.
- The invalid-index error is shown not to arise, and is therefore not an outcome of the model. `Mem_PoolCreate` is cut into the methods `CheckHeap`, `FindPlace`, `CheckSizes`, `Carve` and `Install` and their parts.
- The configuration is the one with pools and extended argument checks enabled; the pointers for the error code and the shortfall are out-parameters.

Of the rest:

- FmtNbr.StrFmtNbr32: reals in place of 32-bit floats, so rounding and the documented loss of accuracy are not modelled; a magnitude, or scaled magnitude, that is cast to 32 bits must be below 2^32.
- HelloWorld.Recv: `tcp_write` is a recorded trace, and `tcp_recved`, `pbuf_free` and the closing of the connection are not modelled. For an empty line the code reads the octet in front of its buffer, which is taken to be the last octet of `length`, as in the little-endian layout of the structure.
- Str.StrCmp: strings that run into the null address; buffers do not wrap the address space. `Str_Char_N`, `Str_Copy`, `Str_Cat` and the number parsers are left out.
- MemOctets.MemCopy: buffers must lie in memory and not wrap the address space; the assembly variant of the routine is not modelled.
- MemVal.CopyInt32Big: the octet-wide and the same-order copies, and the big-endian configuration, would only repeat what is there.
- IntPrio.Nvic.PrioSet: the registers are plain 32-bit cells, without the unimplemented priority bits of a device; shifts of a set top bit are taken as the machine does them, and the pairing of critical-section entry and exit is not modelled. `CPU_RevBits` is assembly and is modelled as the reversal that its instruction does.
- Gpio.GpioPort.Init: BRR and BSRR act on the output data at once, and reserved bits are not modelled; the remap functions are left out.
- I2s.Prescaler: the source clock is a parameter, for which `I2s.Pll3Clock` models the PLL3 with the oscillator that the headers set for the connectivity line; the system clock is not computed, and of I2S_Init only the register I2SPR is modelled.
- Peripheral drivers of one line, interrupt stubs, the operating-system port, and the network glue would only add easy members.
