/** `Mem_Set`, `Mem_Clr`, `Mem_Copy` and `Mem_Cmp`: loops that take whole words wherever the
    addresses allow, against specifications by octets. */
module MemOctets {
  import opened Arith
  import opened Words

  // ----- fill

  /** The memory in which `n` octets from `a` on are `v`. */
  function Filled(m: seq<Octet>, a: nat, n: nat, v: Octet): (r: seq<Octet>)
    requires a + n <= |m|
    ensures |r| == |m|
    ensures forall i :: 0 <= i < |m| ==> r[i] == if a <= i < a + n then v else m[i]
  {
    m[..a] + seq(n, _ => v) + m[a + n..]
  }

  /** The octet repeated over a word, by shifting. */
  method Replicate(v: Octet) returns (w: Word)
    ensures forall k: nat :: k < 4 ==> OctetOf(w, k) == v
  {
    w := 0;
    var i := 0;
    while i < 4
      invariant 0 <= i <= 4
      invariant w == if i == 0 then 0 else if i == 1 then v else if i == 2 then 0x101 * v
                     else if i == 3 then 0x1_0101 * v else 0x101_0101 * v
    {
      w := Wrap(w * 0x100) + v;  // the low octet is clear: "or" adds
      i := i + 1;
    }
    WordOfOctets(v, v, v, v);
  }

  /** `Mem_Set`. */
  method MemSet(ram: array<Octet>, pmem: Word, v: Octet, size: Word)
    requires size > 0 && pmem != 0 ==> pmem + size <= ram.Length
    modifies ram
    ensures size < 1 || pmem == 0 ==> ram[..] == old(ram[..])
    ensures size >= 1 && pmem != 0 ==> ram[..] == Filled(old(ram[..]), pmem, size, v)
  {
    if size < 1 {
      return;
    }
    if pmem == 0 {
      return;
    }
    hide Aligned, Modulo, WordAt, OctetOf;
    var w := Replicate(v);
    var rem, modulo, p: nat := size, Modulo(pmem), pmem;
    if modulo != 0 {
      var i := modulo;
      while rem > 0 && i < 4
        invariant 0 <= rem && p + rem == pmem + size && i <= 4 && i + rem == modulo + size
        invariant forall k :: 0 <= k < ram.Length ==> ram[k] == if pmem <= k < p then v else old(ram[k])
      {
        ram[p] := v;
        p, rem, i := p + 1, rem - 1, i + 1;
      }
    }
    if rem > 0 {
      AlignedUp(pmem, p - pmem);
    }
    while rem >= 4
      invariant 0 <= rem && p + rem == pmem + size && (rem > 0 ==> Aligned(p))
      invariant forall k :: 0 <= k < ram.Length ==> ram[k] == if pmem <= k < p then v else old(ram[k])
    {
      WriteSame(ram, p, w, v);
      AlignedNext(p);
      p, rem := p + 4, rem - 4;
    }
    while rem > 0
      invariant 0 <= rem && p + rem == pmem + size
      invariant forall k :: 0 <= k < ram.Length ==> ram[k] == if pmem <= k < p then v else old(ram[k])
    {
      ram[p] := v;
      p, rem := p + 1, rem - 1;
    }
  }

  /** A word of four equal octets sets four octets. */
  method WriteSame(ram: array<Octet>, p: nat, w: Word, v: Octet)
    requires Aligned(p) && p + 4 <= ram.Length && forall k: nat :: k < 4 ==> OctetOf(w, k) == v
    modifies ram
    ensures forall k :: 0 <= k < ram.Length ==> ram[k] == if p <= k < p + 4 then v else old(ram[k])
  {
    ghost var m := ram[..];
    AlignedMeans(p);
    WriteWord(ram, p, w);
    assert forall k :: 0 <= k < ram.Length ==> ram[k] == PutWord(m, p, w)[k];
  }

  /** `Mem_Clr`. */
  method MemClr(ram: array<Octet>, pmem: Word, size: Word)
    requires size > 0 && pmem != 0 ==> pmem + size <= ram.Length
    modifies ram
    ensures size < 1 || pmem == 0 ==> ram[..] == old(ram[..])
    ensures size >= 1 && pmem != 0 ==> ram[..] == Filled(old(ram[..]), pmem, size, 0)
  {
    MemSet(ram, pmem, 0, size);
  }

  // ----- copy

  /** The plain copy: one octet after the other, upwards. */
  function OctetCopy(m: seq<Octet>, d: nat, s: nat, n: nat): (r: seq<Octet>)
    requires d + n <= |m| && s + n <= |m|
    ensures |r| == |m|
    decreases n
  {
    if n == 0 then m else OctetCopy(m[d := m[s]], d + 1, s + 1, n - 1)
  }

  /** A word copied at once is four octets copied in turn: two aligned words
      coincide or are apart. */
  lemma WordIsFourOctets(m: seq<Octet>, d: nat, s: nat, n: nat)
    requires Aligned(d) && Aligned(s) && n >= 4 && d + n <= |m| && s + n <= |m|
    ensures OctetCopy(m, d, s, n) == OctetCopy(PutWord(m, d, WordAt(m, s)), d + 4, s + 4, n - 4)
  {
    var m1 := m[d := m[s]];
    var m2 := m1[d + 1 := m1[s + 1]];
    var m3 := m2[d + 2 := m2[s + 2]];
    var m4 := m3[d + 3 := m3[s + 3]];
    assert OctetCopy(m, d, s, n) == OctetCopy(m2, d + 2, s + 2, n - 2);
    assert OctetCopy(m2, d + 2, s + 2, n - 2) == OctetCopy(m4, d + 4, s + 4, n - 4);
    WordOfOctets(m[s], m[s + 1], m[s + 2], m[s + 3]);
    assert d == s || d + 4 <= s || s + 4 <= d by { assert d == 4 * (d / 4) && s == 4 * (s / 4); }
    assert m1[s + 1] == m[s + 1] && m2[s + 2] == m[s + 2] && m3[s + 3] == m[s + 3];
    assert PutWord(m, d, WordAt(m, s)) == m4;
  }

  lemma {:induction false} CopySplit(m: seq<Octet>, d: nat, s: nat, k: nat, n: nat)
    requires k <= n && d + n <= |m| && s + n <= |m|
    ensures OctetCopy(m, d, s, n) == OctetCopy(OctetCopy(m, d, s, k), d + k, s + k, n - k)
    decreases k
  {
    if k > 0 {
      CopySplit(m[d := m[s]], d + 1, s + 1, k - 1, n - 1);
    }
  }

  /** The last of the three loops: octets to the end. */
  method CopyRest(ram: array<Octet>, pdest: nat, psrc: nat, size: nat)
    requires pdest + size <= ram.Length && psrc + size <= ram.Length
    modifies ram
    ensures ram[..] == OctetCopy(old(ram[..]), pdest, psrc, size)
  {
    var d, s, rem := pdest, psrc, size;
    while rem > 0
      invariant d + rem == pdest + size && s + rem == psrc + size
      invariant OctetCopy(ram[..], d, s, rem) == OctetCopy(old(ram[..]), pdest, psrc, size)
    {
      ghost var m := ram[..];
      ram[d] := ram[s];
      assert ram[..] == m[d := m[s]];
      d, s, rem := d + 1, s + 1, rem - 1;
    }
  }

  /** The first: octets up to a word boundary, `i` of them being behind it already. */
  method CopyLead(ram: array<Octet>, pdest: nat, psrc: nat, size: nat, modulo: nat) returns (k: nat)
    requires pdest + size <= ram.Length && psrc + size <= ram.Length && modulo <= 4
    modifies ram
    ensures k == (if size < 4 - modulo then size else 4 - modulo)
    ensures ram[..] == OctetCopy(old(ram[..]), pdest, psrc, k)
  {
    ghost var lead := if size < 4 - modulo then size else 4 - modulo;
    var i, rem := modulo, size;
    k := 0;
    while rem > 0 && i < 4
      invariant k <= lead && i == modulo + k && rem == size - k
      invariant OctetCopy(ram[..], pdest + k, psrc + k, lead - k) == OctetCopy(old(ram[..]), pdest, psrc, lead)
    {
      ghost var m := ram[..];
      ram[pdest + k] := ram[psrc + k];
      assert ram[..] == m[pdest + k := m[psrc + k]];
      k, i, rem := k + 1, i + 1, rem - 1;
    }
  }

  /** The second: whole words. */
  method CopyWords(ram: array<Octet>, pdest: nat, psrc: nat, size: nat) returns (k: nat)
    requires pdest + size <= ram.Length && psrc + size <= ram.Length
    requires size >= 4 ==> Aligned(pdest) && Aligned(psrc)
    modifies ram
    ensures k <= size < k + 4 && ram[..] == OctetCopy(old(ram[..]), pdest, psrc, k)
  {
    hide OctetCopy, Aligned, WordAt, OctetOf;
    k := 0;
    CopyDone(ram[..], pdest, psrc);
    while size - k >= 4
      invariant k <= size && (size - k >= 4 ==> Aligned(pdest + k) && Aligned(psrc + k))
      invariant ram[..] == OctetCopy(old(ram[..]), pdest, psrc, k)
    {
      ghost var m := ram[..];
      CopySplit(old(ram[..]), pdest, psrc, k, k + 4);
      WordIsFourOctets(m, pdest + k, psrc + k, 4);
      AlignedMeans(psrc + k);
      AlignedMeans(pdest + k);
      var w := ReadWord(ram, psrc + k);
      WriteWord(ram, pdest + k, w);
      CopyDone(ram[..], pdest + k + 4, psrc + k + 4);
      AlignedNext(pdest + k);
      AlignedNext(psrc + k);
      k := k + 4;
    }
  }

  /** The part of the copy that both addresses' alignment allows: lead and words. */
  method CopyAligned(ram: array<Octet>, pdest: nat, psrc: nat, size: nat) returns (done: nat)
    requires pdest + size <= ram.Length && psrc + size <= ram.Length && Modulo(pdest) == Modulo(psrc)
    modifies ram
    ensures done <= size && ram[..] == OctetCopy(old(ram[..]), pdest, psrc, done)
  {
    hide OctetCopy, Aligned, Modulo;
    done := 0;
    var modulo := Modulo(pdest);
    CopyDone(ram[..], pdest, psrc);
    if modulo != 0 {
      done := CopyLead(ram, pdest, psrc, size, modulo);
    }
    if size - done >= 4 {
      AlignedUp(pdest, done);
      AlignedUp(psrc, done);
    }
    var words := CopyWords(ram, pdest + done, psrc + done, size - done);
    CopySplit(old(ram[..]), pdest, psrc, done, done + words);
    done := done + words;
  }

  /** `Mem_Copy`, overlapping buffers included. */
  method MemCopy(ram: array<Octet>, pdest: Word, psrc: Word, size: Word)
    requires size > 0 && pdest != 0 && psrc != 0 ==> pdest + size <= ram.Length && psrc + size <= ram.Length
    modifies ram
    ensures size < 1 || pdest == 0 || psrc == 0 ==> ram[..] == old(ram[..])
    ensures size >= 1 && pdest != 0 && psrc != 0 ==> ram[..] == OctetCopy(old(ram[..]), pdest, psrc, size)
  {
    if size < 1 {
      return;
    }
    if pdest == 0 {
      return;
    }
    if psrc == 0 {
      return;
    }
    hide OctetCopy, Modulo;
    var done: nat := 0;
    CopyDone(ram[..], pdest, psrc);
    var moduloDest, moduloSrc := Modulo(pdest), Modulo(psrc);
    if moduloDest == moduloSrc {
      done := CopyAligned(ram, pdest, psrc, size);
    }
    CopySplit(old(ram[..]), pdest, psrc, done, size);
    CopyRest(ram, pdest + done, psrc + done, size - done);
  }

  lemma CopyStep(m: seq<Octet>, d: nat, s: nat, n: nat)
    requires n > 0 && d + n <= |m| && s + n <= |m|
    ensures OctetCopy(m, d, s, n) == OctetCopy(m[d := m[s]], d + 1, s + 1, n - 1)
  {
  }

  lemma CopyDone(m: seq<Octet>, d: nat, s: nat)
    requires d <= |m| && s <= |m|
    ensures OctetCopy(m, d, s, 0) == m
  {
  }

  /** Downwards, or between buffers apart, the copy moves the octets. */
  lemma {:induction false} CopyMoves(m: seq<Octet>, d: nat, s: nat, n: nat, i: nat)
    requires d + n <= |m| && s + n <= |m| && i < |m|
    requires d <= s || s + n <= d
    ensures OctetCopy(m, d, s, n)[i] == if d <= i < d + n then m[s + (i - d)] else m[i]
    decreases n
  {
    if n > 0 {
      CopyMoves(m[d := m[s]], d + 1, s + 1, n - 1, i);
    }
  }

  /** Upwards by `k` into an overlap, the first `k` octets are repeated to the end. */
  lemma {:induction false} CopyReplicates(m: seq<Octet>, s: nat, k: nat, n: nat, i: nat)
    requires k >= 1 && s + k + n <= |m| && i < |m|
    ensures OctetCopy(m, s + k, s, n)[i] == if s + k <= i < s + k + n then m[s + (i - s) % k] else m[i]
    decreases n
  {
    if n > 0 {
      var m1 := m[s + k := m[s]];
      CopyStep(m, s + k, s, n);
      CopyReplicates(m1, s + 1, k, n - 1, i);
      if s + k < i < s + k + n {
        var x := i - s - 1;
        NextMod(x, k);
        assert OctetCopy(m, s + k, s, n)[i] == m1[s + 1 + x % k];
      } else if i == s + k {
        DivModUnique(k, 1, 0, k);
      }
    }
  }

  // ----- compare

  /** The last `k` octets of two buffers of `size` agree. */
  ghost predicate Ends(m: Partial, p1: nat, p2: nat, size: nat, k: nat)
    requires k <= size && Holds(m, p1, size) && Holds(m, p2, size)
  {
    forall i :: size - k <= i < size ==> SameAt(m, p1, p2, i)
  }

  lemma OctetEnds(m: Partial, p1: nat, p2: nat, size: nat, k: nat)
    requires k < size && Holds(m, p1, size) && Holds(m, p2, size)
    ensures Ends(m, p1, p2, size, k + 1) <==> SameAt(m, p1, p2, size - k - 1) && Ends(m, p1, p2, size, k)
  {
  }

  lemma WordEnds(m: Partial, p1: nat, p2: nat, size: nat, k: nat)
    requires k + 4 <= size && Holds(m, p1, size) && Holds(m, p2, size)
    ensures Holds(m, p1 + size - k - 4, 4) && Holds(m, p2 + size - k - 4, 4)
    ensures Ends(m, p1, p2, size, k + 4) <==>
              WordIn(m, p1 + size - k - 4) == WordIn(m, p2 + size - k - 4) && Ends(m, p1, p2, size, k)
  {
    var a, b, j := p1 + size - k - 4, p2 + size - k - 4, size - k - 4;
    WordsEqualIff(m, a, b);
    forall i | 0 <= i < 4
      ensures SameAt(m, a, b, i) <==> SameAt(m, p1, p2, j + i)
    {
    }
    if WordIn(m, a) == WordIn(m, b) && Ends(m, p1, p2, size, k) {
      forall i | j <= i < size ensures SameAt(m, p1, p2, i) {
        if i < j + 4 { assert SameAt(m, a, b, i - j); }
      }
    }
    if Ends(m, p1, p2, size, k + 4) {
      forall i: nat | i < 4 ensures SameAt(m, a, b, i) {
        assert SameAt(m, p1, p2, j + i);
      }
    }
  }

  /** The first loop: octets down to a word boundary, `modulo` of them. */
  method CmpTrail(m: Partial, p1: nat, p2: nat, size: nat, modulo: nat) returns (same: bool, k: nat)
    requires Holds(m, p1, size) && Holds(m, p2, size)
    ensures k <= size && k <= modulo && (same ==> k == size || k == modulo)
    ensures same <==> Ends(m, p1, p2, size, k)
  {
    same, k := true, 0;
    var i := modulo;
    while same && k < size && i > 0
      invariant k <= size && k <= modulo && i == modulo - k
      invariant same <==> Ends(m, p1, p2, size, k)
      decreases size - k
    {
      OctetEnds(m, p1, p2, size, k);
      k, i := k + 1, i - 1;
      if m[p1 + size - k] != m[p2 + size - k] {
        same := false;
      }
    }
  }

  /** The second: whole words downwards, the last `done` octets being compared. */
  method CmpWords(m: Partial, p1: nat, p2: nat, size: nat, done: nat) returns (same: bool, k: nat)
    requires Holds(m, p1, size) && Holds(m, p2, size) && done <= size
    requires size - done >= 4 ==> Aligned(p1 + size - done) && Aligned(p2 + size - done)
    requires Ends(m, p1, p2, size, done)
    ensures k <= size && (same <==> Ends(m, p1, p2, size, k))
  {
    hide Ends, Aligned, WordIn;
    same, k := true, done;
    while same && size - k >= 4
      invariant k <= size && (size - k >= 4 ==> Aligned(p1 + size - k) && Aligned(p2 + size - k))
      invariant same <==> Ends(m, p1, p2, size, k)
      decreases size - k
    {
      WordEnds(m, p1, p2, size, k);
      AlignedNext(p1 + size - k);
      AlignedNext(p2 + size - k);
      k := k + 4;
      AlignedMeans(p1 + size - k);
      AlignedMeans(p2 + size - k);
      var u := LoadWord(m, p1 + size - k);
      var v := LoadWord(m, p2 + size - k);
      if u != v {
        same := false;
      }
    }
  }

  /** The third: octets down to the start. */
  method CmpRest(m: Partial, p1: nat, p2: nat, size: nat, done: nat) returns (same: bool)
    requires Holds(m, p1, size) && Holds(m, p2, size) && done <= size
    requires Ends(m, p1, p2, size, done)
    ensures same <==> Ends(m, p1, p2, size, size)
  {
    same := true;
    var k := done;
    while same && k < size
      invariant k <= size && (same <==> Ends(m, p1, p2, size, k))
      decreases size - k
    {
      OctetEnds(m, p1, p2, size, k);
      k := k + 1;
      if m[p1 + size - k] != m[p2 + size - k] {
        same := false;
      }
    }
  }

  /** `Mem_Cmp`: from the end, by octets to a word boundary, by words, by octets.  Nothing is known
      of the memory but that it holds the two buffers, so nothing else is read. */
  method MemCmp(m: Partial, p1: Word, p2: Word, size: Word) returns (same: bool)
    requires size > 0 && p1 != 0 && p2 != 0 ==> Holds(m, p1, size) && Holds(m, p2, size)
    ensures size < 1 ==> same
    ensures size >= 1 && (p1 == 0 || p2 == 0) ==> !same
    ensures size >= 1 && p1 != 0 && p2 != 0 ==> (same <==> forall i: nat :: i < size ==> SameAt(m, p1, p2, i))
  {
    if size < 1 {
      return true;
    }
    if p1 == 0 {
      return false;
    }
    if p2 == 0 {
      return false;
    }
    hide Aligned, Modulo;
    same := true;
    var done := 0;
    var modulo1, modulo2 := Modulo(p1 + size), Modulo(p2 + size);
    if modulo1 == modulo2 {
      if modulo1 != 0 {
        same, done := CmpTrail(m, p1, p2, size, modulo1);
      }
      if same {
        if size - done >= 4 {
          AlignedDown(p1 + size, done);
          AlignedDown(p2 + size, done);
        }
        same, done := CmpWords(m, p1, p2, size, done);
      }
    }
    if same {
      same := CmpRest(m, p1, p2, size, done);
    }
  }

  /** On a whole memory the answer is that of comparing the two ranges. */
  lemma SameRanges(s: seq<Octet>, p1: nat, p2: nat, size: nat)
    requires p1 + size <= |s| && p2 + size <= |s|
    ensures (forall i: nat :: i < size ==> SameAt(View(s), p1, p2, i)) <==> s[p1..p1 + size] == s[p2..p2 + size]
  {
    var x, y := s[p1..p1 + size], s[p2..p2 + size];
    assert forall i: nat :: i < size ==> (SameAt(View(s), p1, p2, i) <==> x[i] == y[i]);
  }
}
