/** The address arithmetic of the pool allocator: alignment, the closed-form size
    of a run of blocks, the addresses of the blocks, and the check by which
    `Mem_PoolBlkFree` recognises them. */
module PoolMath {
  import opened Arith
  import opened Words

  /** Octets to skip from `a` to the next multiple of `align`. */
  function AlignOffset(a: nat, align: nat): (r: nat)
    requires align >= 1
    ensures r < align
  {
    if a % align != 0 then align - a % align else 0
  }

  function AlignUp(a: nat, align: nat): (r: nat)
    requires align >= 1
    ensures a <= r < a + align
  {
    a + AlignOffset(a, align)
  }

  /** Distance between the starts of two neighbouring blocks. */
  function Stride(size: nat, align: nat): (r: nat)
    requires size >= 1 && align >= 1
    ensures size <= r < size + align
  {
    size + AlignOffset(size, align)
  }

  /** Octets needed from `a` on for `n` aligned blocks, without wrap-around. */
  function CalcTot(a: nat, n: nat, size: nat, align: nat): (r: nat)
    requires n >= 1 && size >= 1 && align >= 1
    ensures AlignUp(a, align) + size <= a + r
  {
    MulNonNeg(Stride(size, align), n - 1);
    AlignOffset(a, align) + Stride(size, align) * (n - 1) + size
  }

  /** What `n` successive aligned allocations of `size` octets from `a` on return. */
  function BlockSeq(a: nat, n: nat, size: nat, align: nat): (r: seq<nat>)
    requires align >= 1
    ensures |r| == n
    decreases n
  {
    if n == 0 then [] else [AlignUp(a, align)] + BlockSeq(AlignUp(a, align) + size, n - 1, size, align)
  }

  /** Where the next free octet is after those allocations. */
  function NextAfter(a: nat, n: nat, size: nat, align: nat): nat
    requires align >= 1
    decreases n
  {
    if n == 0 then a else NextAfter(AlignUp(a, align) + size, n - 1, size, align)
  }

  // ----- alignment

  /** `AlignUp` is the least multiple of `align` that is not below `a`. */
  lemma AlignUpAligned(a: nat, align: nat)
    requires align >= 1
    ensures AlignUp(a, align) % align == 0
  {
    var q := a / align;
    assert a == q * align + a % align;
    if a % align != 0 {
      assert AlignUp(a, align) == (q + 1) * align + 0 by { assert (q + 1) * align == q * align + align; }
      DivModUnique(AlignUp(a, align), q + 1, 0, align);
    }
  }

  lemma AlignUpLeast(a: nat, align: nat, b: nat)
    requires align >= 1 && a <= b && b % align == 0
    ensures AlignUp(a, align) <= b
  {
    if b < AlignUp(a, align) {
      var q := a / align;
      assert a == q * align + a % align;
      DivModUnique(b, q, b - q * align, align);
    }
  }

  lemma AlignUpOfAligned(a: nat, size: nat, align: nat)
    requires align >= 1 && size >= 1 && a % align == 0
    ensures AlignUp(a, align) == a
    ensures AlignUp(a + size, align) == a + Stride(size, align)
    ensures Stride(size, align) % align == 0
  {
    ModZeroIsMultiple(a, align);
    ModAddMul(size, a / align, align);
    AlignUpAligned(size, align);
  }

  // ----- the closed form and the iterated allocator agree

  /** Block `k` of a run lies `k` strides after the first aligned address. */
  lemma {:induction false} BlockSeqAt(a: nat, n: nat, size: nat, align: nat, k: nat)
    requires size >= 1 && align >= 1 && k < n
    ensures BlockSeq(a, n, size, align)[k] == AlignUp(a, align) + k * Stride(size, align)
    decreases n
  {
    if k > 0 {
      AlignUpAligned(a, align);
      AlignUpOfAligned(AlignUp(a, align), size, align);
      BlockSeqAt(AlignUp(a, align) + size, n - 1, size, align, k - 1);
      assert (k - 1) * Stride(size, align) + Stride(size, align) == k * Stride(size, align);
    }
  }

  /** `Mem_PoolSegCalcTotSize` is what `n` calls of `Mem_PoolSegAlloc` take from the segment. */
  lemma {:induction false} CalcTotIsIteratedAlloc(a: nat, n: nat, size: nat, align: nat)
    requires n >= 1 && size >= 1 && align >= 1
    ensures NextAfter(a, n, size, align) == a + CalcTot(a, n, size, align)
    decreases n
  {
    var b := AlignUp(a, align) + size;
    if n == 1 {
      assert NextAfter(b, 0, size, align) == b;
    } else {
      AlignUpAligned(a, align);
      AlignUpOfAligned(AlignUp(a, align), size, align);
      CalcTotIsIteratedAlloc(b, n - 1, size, align);
      var s := Stride(size, align);
      assert s * (n - 2) + s == s * (n - 1);
    }
  }

  /** One more allocation after `n`. */
  lemma {:induction false} BlockSeqSnoc(a: nat, n: nat, size: nat, align: nat)
    requires align >= 1
    ensures BlockSeq(a, n + 1, size, align) ==
              BlockSeq(a, n, size, align) + [AlignUp(NextAfter(a, n, size, align), align)]
    ensures NextAfter(a, n + 1, size, align) == AlignUp(NextAfter(a, n, size, align), align) + size
    decreases n
  {
    if n > 0 {
      BlockSeqSnoc(AlignUp(a, align) + size, n - 1, size, align);
    }
  }

  /** Block `k` is what the `k`-th of the successive allocations returns. */
  lemma {:induction false} BlockSeqNth(a: nat, n: nat, size: nat, align: nat, k: nat)
    requires align >= 1 && k < n
    ensures BlockSeq(a, n, size, align)[k] == AlignUp(NextAfter(a, k, size, align), align)
    decreases n
  {
    BlockSeqSnoc(a, n - 1, size, align);
    if k < n - 1 { BlockSeqNth(a, n - 1, size, align, k); }
  }

  lemma {:induction false} NextAfterMono(a: nat, n: nat, m: nat, size: nat, align: nat)
    requires align >= 1 && n <= m
    ensures a <= NextAfter(a, n, size, align) <= NextAfter(a, m, size, align)
    ensures n < m ==> AlignUp(NextAfter(a, n, size, align), align) + size <= NextAfter(a, m, size, align)
    decreases m
  {
    if m > 0 {
      BlockSeqSnoc(a, m - 1, size, align);
      if n < m {
        NextAfterMono(a, n, m - 1, size, align);
      } else {
        NextAfterMono(a, m - 1, m - 1, size, align);
      }
    }
  }

  // ----- running out

  /** Where the next free octet is after as many of `n` allocations from `a` on as `room` has
      space for. */
  function Spend(a: nat, room: int, n: nat, size: nat, align: nat): (r: nat)
    requires align >= 1
    ensures a <= r && (room >= 0 ==> r <= a + room)
    decreases n
  {
    var b := AlignUp(a, align) + size;
    if n == 0 || b > a + room then a else Spend(b, a + room - b, n - 1, size, align)
  }

  /** All of them, if the total fits. */
  lemma {:induction false} SpendAll(a: nat, room: int, n: nat, size: nat, align: nat)
    requires n >= 1 && size >= 1 && align >= 1 && CalcTot(a, n, size, align) <= room
    ensures Spend(a, room, n, size, align) == a + CalcTot(a, n, size, align) == NextAfter(a, n, size, align)
    decreases n
  {
    CalcTotIsIteratedAlloc(a, n, size, align);
    var b := AlignUp(a, align) + size;
    if n > 1 {
      CalcTotIsIteratedAlloc(b, n - 1, size, align);
      SpendAll(b, a + room - b, n - 1, size, align);
    }
  }

  /** Those before the first that does not fit, if there is one; then the total does not fit either. */
  lemma {:induction false} SpendSome(a: nat, room: int, n: nat, size: nat, align: nat, i: nat)
    requires n >= 1 && size >= 1 && align >= 1 && i < n && NextAfter(a, i, size, align) <= a + room
    requires AlignUp(NextAfter(a, i, size, align), align) + size > a + room
    ensures Spend(a, room, n, size, align) == NextAfter(a, i, size, align)
    ensures CalcTot(a, n, size, align) > room
    decreases i
  {
    var b := AlignUp(a, align) + size;
    if i > 0 {
      NextAfterMono(b, 0, i - 1, size, align);
      SpendSome(b, a + room - b, n - 1, size, align, i - 1);
      CalcTotIsIteratedAlloc(b, n - 1, size, align);
    } else {
      NextAfterMono(a, 0, n, size, align);
    }
    CalcTotIsIteratedAlloc(a, n, size, align);
  }

  /** From a later address the same blocks end no earlier. */
  lemma CalcTotMono(a: nat, c: nat, n: nat, size: nat, align: nat)
    requires n >= 1 && size >= 1 && align >= 1 && a <= c
    ensures a + CalcTot(a, n, size, align) <= c + CalcTot(c, n, size, align)
    ensures AlignUp(a, align) <= AlignUp(c, align)
    ensures a + CalcTot(a, n, size, align) == c + CalcTot(c, n, size, align) <==> AlignUp(a, align) == AlignUp(c, align)
  {
    AlignUpAligned(c, align);
    AlignUpLeast(a, align, AlignUp(c, align));
  }

  lemma FirstIsBlock(a: nat, n: nat, size: nat, align: nat)
    requires n >= 1 && size >= 1 && align >= 1
    ensures IsBlock(a, n, size, align, AlignUp(a, align))
  {
    assert BlockSeq(a, n, size, align)[0] == AlignUp(a, align);
  }

  lemma SameFirstSameBlocks(a: nat, c: nat, n: nat, size: nat, align: nat)
    requires size >= 1 && align >= 1 && AlignUp(a, align) == AlignUp(c, align)
    ensures BlockSeq(a, n, size, align) == BlockSeq(c, n, size, align)
  {
  }

  // ----- blocks

  /** `b` is one of the `n` blocks carved from `start` on. */
  ghost predicate IsBlock(start: nat, n: nat, size: nat, align: nat, b: int)
    requires size >= 1 && align >= 1
  {
    exists k: nat :: k < n && b == BlockSeq(start, n, size, align)[k]
  }

  /** Blocks are aligned, lie in the run's own range, and two of them are equal or disjoint. */
  lemma BlockBounds(start: nat, n: nat, size: nat, align: nat, b: nat)
    requires n >= 1 && size >= 1 && align >= 1 && IsBlock(start, n, size, align, b)
    ensures b % align == 0
    ensures AlignUp(start, align) <= b && b + size <= start + CalcTot(start, n, size, align)
  {
    var k: nat :| k < n && b == BlockSeq(start, n, size, align)[k];
    var s := Stride(size, align);
    BlockSeqAt(start, n, size, align, k);
    AlignUpAligned(start, align);
    AlignUpOfAligned(AlignUp(start, align), size, align);
    MultiplesAligned(AlignUp(start, align), k, s, align);
    MulNonNeg(k, s);
    MulMono(k, n - 1, s);
    assert s * (n - 1) == (n - 1) * s;
  }

  lemma BlocksDisjoint(start: nat, n: nat, size: nat, align: nat, b: nat, c: nat)
    requires size >= 1 && align >= 1
    requires IsBlock(start, n, size, align, b) && IsBlock(start, n, size, align, c) && b != c
    ensures b + size <= c || c + size <= b
  {
    var s := Stride(size, align);
    var j: nat :| j < n && b == BlockSeq(start, n, size, align)[j];
    var k: nat :| k < n && c == BlockSeq(start, n, size, align)[k];
    BlockSeqAt(start, n, size, align, j);
    BlockSeqAt(start, n, size, align, k);
    if j < k { MulMono(j + 1, k, s); assert (j + 1) * s == j * s + s; }
    if k < j { MulMono(k + 1, j, s); assert (k + 1) * s == k * s + s; }
  }

  lemma BlockSeqDistinct(start: nat, n: nat, size: nat, align: nat, j: nat, k: nat)
    requires size >= 1 && align >= 1 && j < k < n
    ensures BlockSeq(start, n, size, align)[j] != BlockSeq(start, n, size, align)[k]
  {
    var s := Stride(size, align);
    BlockSeqAt(start, n, size, align, j);
    BlockSeqAt(start, n, size, align, k);
    MulMono(j + 1, k, s);
    assert (j + 1) * s == j * s + s;
  }

  // ----- the address check

  /** `Mem_PoolBlkIsValidAddr`: a range test, then a remainder of an unsigned 32-bit
      difference, which wraps for addresses in the leading alignment gap. */
  function CheckAddr(start: nat, tot: nat, size: nat, align: nat, b: Word): bool
    requires size >= 1 && align >= 1
  {
    start <= b <= start + tot - 1 && Wrap(b - AlignUp(start, align)) % Stride(size, align) == 0
  }

  /** The one address of the alignment gap that the wrapped difference lets through. */
  predicate IsPhantom(start: nat, size: nat, align: nat, b: Word)
    requires size >= 1 && align >= 1
  {
    start <= b < AlignUp(start, align) && (W32 - (AlignUp(start, align) - b)) % Stride(size, align) == 0
  }

  /** Past the alignment gap, multiples of the stride inside the range are blocks. */
  lemma GridAddrIsBlock(start: nat, n: nat, size: nat, align: nat, b: nat)
    requires n >= 1 && size >= 1 && align >= 1
    requires AlignUp(start, align) <= b < start + CalcTot(start, n, size, align)
    requires (b - AlignUp(start, align)) % Stride(size, align) == 0
    ensures IsBlock(start, n, size, align, b)
  {
    var s, first := Stride(size, align), AlignUp(start, align);
    var k := (b - first) / s;
    ModZeroIsMultiple(b - first, s);
    assert n * s == s * (n - 1) + s;
    if k >= n { MulMono(n, k, s); }
    BlockSeqAt(start, n, size, align, k);
  }

  lemma BlockIsGridAddr(start: nat, n: nat, size: nat, align: nat, b: nat)
    requires size >= 1 && align >= 1 && IsBlock(start, n, size, align, b)
    ensures b >= AlignUp(start, align) && (b - AlignUp(start, align)) % Stride(size, align) == 0
  {
    var s, first := Stride(size, align), AlignUp(start, align);
    var k: nat :| k < n && b == BlockSeq(start, n, size, align)[k];
    BlockSeqAt(start, n, size, align, k);
    MulNonNeg(k, s);
    DivModUnique(b - first, k, 0, s);
  }

  /** The check accepts the carved blocks, and beside them at most a phantom. */
  lemma CheckAddrIff(start: nat, n: nat, size: nat, align: nat, b: Word)
    requires n >= 1 && size >= 1 && align >= 1
    requires start + CalcTot(start, n, size, align) <= W32
    ensures CheckAddr(start, CalcTot(start, n, size, align), size, align, b)
            <==> IsBlock(start, n, size, align, b) || IsPhantom(start, size, align, b)
  {
    hide CalcTot, Stride, AlignUp, IsBlock;
    var first := AlignUp(start, align);
    if IsBlock(start, n, size, align, b) {
      BlockBounds(start, n, size, align, b);
      BlockIsGridAddr(start, n, size, align, b);
      WrapSmall(b - first);
    } else if CheckAddr(start, CalcTot(start, n, size, align), size, align, b) {
      WrapSmall(b - first);
      if first <= b { GridAddrIsBlock(start, n, size, align, b); }
    }
  }

  /** The phantom is determined by 2^32 modulo the stride. */
  lemma PhantomAt(start: nat, size: nat, align: nat, b: Word)
    requires size >= 1 && align >= 1
    ensures IsPhantom(start, size, align, b)
            <==> start <= b < AlignUp(start, align) && AlignUp(start, align) - b == W32 % Stride(size, align)
  {
    var s, d := Stride(size, align), AlignUp(start, align) - b;
    if start <= b < AlignUp(start, align) {
      assert 1 <= d < align;
      assert align <= s by { StrideAtLeastAlign(size, align); }
      if (W32 - d) % s == 0 {
        ModZeroIsMultiple(W32 - d, s);
        DivModUnique(W32, (W32 - d) / s, d, s);
      } else if d == W32 % s {
        DivModUnique(W32 - d, W32 / s, 0, s);
        assert false;
      }
    }
  }

  lemma StrideAtLeastAlign(size: nat, align: nat)
    requires size >= 1 && align >= 1
    ensures Stride(size, align) >= align
  {
    if size < align { DivModUnique(size, 0, size, align); }
  }

  /** The check recognises exactly the carved blocks if and only if 2^32 modulo the
      stride is zero or reaches below the start of the alignment gap. */
  lemma CheckExactIff(start: nat, n: nat, size: nat, align: nat)
    requires n >= 1 && size >= 1 && align >= 1
    requires start + CalcTot(start, n, size, align) <= W32
    ensures (forall b: Word :: CheckAddr(start, CalcTot(start, n, size, align), size, align, b)
                               <==> IsBlock(start, n, size, align, b))
            <==> (W32 % Stride(size, align) == 0 || W32 % Stride(size, align) > AlignOffset(start, align))
  {
    var s, first := Stride(size, align), AlignUp(start, align);
    var tot := CalcTot(start, n, size, align);
    var r := W32 % s;
    MulNonNeg(s, n - 1);
    if r == 0 || r > first - start {
      forall b: Word ensures CheckAddr(start, tot, size, align, b) <==> IsBlock(start, n, size, align, b) {
        CheckAddrIff(start, n, size, align, b);
        PhantomAt(start, size, align, b);
      }
    } else {
      var b: Word := first - r;
      CheckAddrIff(start, n, size, align, b);
      PhantomAt(start, size, align, b);
      if IsBlock(start, n, size, align, b) { BlockBounds(start, n, size, align, b); }
    }
  }

  predicate IsPowerOfTwo(x: nat) {
    x == 1 || (x > 1 && x % 2 == 0 && IsPowerOfTwo(x / 2))
  }

  /** A power of two that fits in a word divides 2^32. */
  lemma {:induction false} PowerOfTwoDivides(x: nat, k: nat)
    requires IsPowerOfTwo(x) && x <= Pow2(k)
    ensures Pow2(k) % x == 0
  {
    if x > 1 {
      if k == 0 { assert false; }
      PowerOfTwoDivides(x / 2, k - 1);
      var q := Pow2(k - 1) / (x / 2);
      assert Pow2(k - 1) == q * (x / 2);
      assert Pow2(k) == q * x + 0 by { assert q * (2 * (x / 2)) == 2 * (q * (x / 2)); }
      DivModUnique(Pow2(k), q, 0, x);
    }
  }

  lemma PowerOfTwoDividesWord(x: Word)
    requires IsPowerOfTwo(x)
    ensures W32 % x == 0
  {
    assert Pow2(8) == 0x100;
    assert Pow2(16) == 0x1_0000;
    assert Pow2(24) == 0x100_0000;
    assert Pow2(32) == W32;
    PowerOfTwoDivides(x, 32);
  }

  /** With a power-of-two alignment there is no phantom: the check is exact. */
  lemma NoPhantomForPowerOfTwo(start: nat, size: nat, align: Word, b: Word)
    requires size >= 1 && IsPowerOfTwo(align)
    ensures !IsPhantom(start, size, align, b)
  {
    if IsPhantom(start, size, align, b) {
      var s, d := Stride(size, align), AlignUp(start, align) - b;
      assert W32 % s == d by { PhantomAt(start, size, align, b); }
      assert s % align == 0 by { AlignUpOfAligned(0, size, align); }
      assert W32 % s % align == W32 % align by { ModThroughDivisor(W32, s, align); }
      PowerOfTwoDividesWord(align);
      DivModUnique(d, 0, d, align);
    }
  }

  /** A pool of one 3-octet block aligned to 3 from address 2 on: its block is at 3, yet
      the check also accepts 2. */
  lemma PhantomExample()
    ensures CheckAddr(2, CalcTot(2, 1, 3, 3), 3, 3, 2) && !IsBlock(2, 1, 3, 3, 2)
  {
    CheckAddrIff(2, 1, 3, 3, 2);
    PhantomAt(2, 3, 3, 2);
    if IsBlock(2, 1, 3, 3, 2) { BlockBounds(2, 1, 3, 3, 2); }
  }

  // ----- thirty-two bit arithmetic

  /** `Mem_PoolSegCalcTotSize`, every operation wrapping at 32 bits. */
  method CalcTotSize(a: Word, n: Word, size: Word, align: Word) returns (sizeTot: Word)
    requires n >= 1 && size >= 1 && align >= 1
    ensures sizeTot == Wrap(CalcTot(a, n, size, align))
  {
    var memAlignOffset: Word, blkAlignOffset: Word;
    var alignOffset: Word := a % align;
    if alignOffset != 0 { memAlignOffset := align - alignOffset; } else { memAlignOffset := 0; }
    alignOffset := size % align;
    if alignOffset != 0 { blkAlignOffset := align - alignOffset; } else { blkAlignOffset := 0; }
    sizeTot := Wrap(Wrap(memAlignOffset + Wrap(Wrap(size + blkAlignOffset) * (n - 1))) + size);
    WrapOfTot(memAlignOffset, Stride(size, align), n - 1, size);
  }

  lemma WrapOfTot(o: nat, s: nat, k: nat, size: nat)
    ensures Wrap(Wrap(o + Wrap(Wrap(s) * k)) + size) == Wrap(o + s * k + size)
  {
    var q := s / W32;
    var x := Wrap(s) * k;
    assert s * k == x + (q * k) * W32 by {
      assert s == Wrap(s) + q * W32;
      assert (Wrap(s) + q * W32) * k == Wrap(s) * k + (q * k) * W32;
    }
    WrapAdd(x, o);
    WrapAdd(o + x, size);
    assert Wrap(o + x + size) == Wrap(o + s * k + size) by { ModAddMul(o + x + size, q * k, W32); }
    WrapAdd(o + Wrap(x), size);
  }

  lemma WrapAdd(x: int, y: int)
    ensures Wrap(Wrap(x) + y) == Wrap(x + y)
  {
    ModAddMul(Wrap(x) + y, x / W32, W32);
  }

  /** What the size tests compare: the total as 32 bits hold it, with what remains. */
  predicate Admits(tot: nat, rem: int) {
    Wrap(tot) <= rem
  }

  /** The test is right, whatever remains, if and only if the total does not wrap. */
  lemma TestSoundIff(tot: nat)
    ensures (forall rem: Word :: Admits(tot, rem) ==> tot <= rem) <==> tot < W32
  {
    if tot >= W32 {
      var rem: Word := Wrap(tot);
      assert Admits(tot, rem) && tot > rem;
    } else {
      WrapSmall(tot);
    }
  }

  lemma WrapSmall(x: int)
    requires -0x1_0000_0000 <= x < W32
    ensures Wrap(x) == if x < 0 then x + W32 else x
  {
  }
}
