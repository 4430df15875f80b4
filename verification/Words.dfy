/** Octets, 32-bit words and the little-endian octet-addressed memory that every
    routine of uC/LIB works on.  A memory is an array of octets; an address is an index. */
module Words {
  const W32: nat := 0x1_0000_0000
  const WORD_OCTETS: nat := 4  // sizeof(CPU_ALIGN) and sizeof(void *)

  type Octet = x: int | 0 <= x < 0x100
  type Word = x: int | 0 <= x < 0x1_0000_0000

  /** 32-bit unsigned wrap-around. */
  function Wrap(x: int): Word {
    x % W32
  }

  /** A word from its octets, least significant first. */
  function Join(o0: int, o1: int, o2: int, o3: int): int {
    o0 + 0x100 * o1 + 0x1_0000 * o2 + 0x100_0000 * o3
  }

  /** The word stored, least significant octet first, at address `a`. */
  function WordAt(m: seq<Octet>, a: nat): Word
    requires a + WORD_OCTETS <= |m|
  {
    Join(m[a], m[a + 1], m[a + 2], m[a + 3])
  }

  /** Octet `k` of a word, counted from the least significant one. */
  function OctetOf(w: Word, k: nat): Octet
    requires k < WORD_OCTETS
  {
    if k == 0 then w % 0x100
    else if k == 1 then w / 0x100 % 0x100
    else if k == 2 then w / 0x100 / 0x100 % 0x100
    else w / 0x100 / 0x100 / 0x100
  }

  /** The memory after a little-endian word store. */
  function PutWord(m: seq<Octet>, a: nat, w: Word): (r: seq<Octet>)
    requires a + WORD_OCTETS <= |m|
    ensures |r| == |m|
    ensures forall i :: 0 <= i < |m| ==> r[i] == if a <= i < a + WORD_OCTETS then OctetOf(w, i - a) else m[i]
  {
    m[a := OctetOf(w, 0)][a + 1 := OctetOf(w, 1)][a + 2 := OctetOf(w, 2)][a + 3 := OctetOf(w, 3)]
  }

  lemma OctetsOfWord(w: Word)
    ensures w == Join(OctetOf(w, 0), OctetOf(w, 1), OctetOf(w, 2), OctetOf(w, 3))
  {
  }

  lemma WordOfOctets(o0: Octet, o1: Octet, o2: Octet, o3: Octet)
    ensures var w: Word := Join(o0, o1, o2, o3);
            OctetOf(w, 0) == o0 && OctetOf(w, 1) == o1 && OctetOf(w, 2) == o2 && OctetOf(w, 3) == o3
  {
    var w: Word := Join(o0, o1, o2, o3);
    assert w == o0 + 0x100 * (o1 + 0x100 * (o2 + 0x100 * o3));
    assert w / 0x100 == o1 + 0x100 * (o2 + 0x100 * o3);
    assert w / 0x100 / 0x100 == o2 + 0x100 * o3;
  }

  /** A load undoes a store. */
  lemma LoadAfterStore(m: seq<Octet>, a: nat, w: Word)
    requires a + WORD_OCTETS <= |m|
    ensures WordAt(PutWord(m, a, w), a) == w
  {
    OctetsOfWord(w);
  }

  predicate Aligned(a: nat) {
    a % 4 == 0
  }

  /** Octets past the last word boundary. */
  function Modulo(a: nat): (r: nat)
    ensures r < 4 && r <= a
  {
    a % 4
  }

  /** Down by the modulo, or up by what it lacks of a word, lies a word boundary. */
  lemma AlignedDown(a: nat, k: nat)
    requires k == Modulo(a)
    ensures Aligned(a - k)
  {
  }

  lemma AlignedUp(a: nat, k: nat)
    requires k + Modulo(a) == 4 || k == Modulo(a) == 0
    ensures Aligned(a + k)
  {
  }

  lemma AlignedNext(a: nat)
    requires Aligned(a)
    ensures Aligned(a + 4) && (a >= 4 ==> Aligned(a - 4))
  {
  }

  lemma AlignedMeans(a: nat)
    requires Aligned(a)
    ensures a % 4 == 0
  {
  }

  /** The only way the routines touch a whole word: at a word-aligned address. */
  method ReadWord(ram: array<Octet>, a: nat) returns (w: Word)
    requires a % 4 == 0 && a + WORD_OCTETS <= ram.Length
    ensures w == WordAt(ram[..], a)
  {
    w := Join(ram[a], ram[a + 1], ram[a + 2], ram[a + 3]);
  }

  method WriteWord(ram: array<Octet>, a: nat, w: Word)
    requires a % 4 == 0 && a + WORD_OCTETS <= ram.Length
    modifies ram
    ensures ram[..] == PutWord(old(ram[..]), a, w)
  {
    ram[a], ram[a + 1], ram[a + 2], ram[a + 3] := OctetOf(w, 0), OctetOf(w, 1), OctetOf(w, 2), OctetOf(w, 3);
  }

  // ----- memory of which only a part exists

  /** The octets that a routine can reach.  To read at any other address is an error. */
  type Partial = map<nat, Octet>

  ghost predicate Holds(m: Partial, a: nat, n: nat) {
    forall i :: a <= i < a + n ==> i in m
  }

  function WordIn(m: Partial, a: nat): int
    requires Holds(m, a, WORD_OCTETS)
  {
    Join(m[a], m[a + 1], m[a + 2], m[a + 3])
  }

  method LoadWord(m: Partial, a: nat) returns (w: Word)
    requires a % 4 == 0 && Holds(m, a, WORD_OCTETS)
    ensures w == WordIn(m, a)
  {
    w := Join(m[a], m[a + 1], m[a + 2], m[a + 3]);
  }

  predicate SameAt(m: Partial, a: nat, b: nat, i: nat)
    requires a + i in m && b + i in m
  {
    m[a + i] == m[b + i]
  }

  /** Two words are equal exactly when their four octets are. */
  lemma WordsEqualIff(m: Partial, a: nat, b: nat)
    requires Holds(m, a, WORD_OCTETS) && Holds(m, b, WORD_OCTETS)
    ensures WordIn(m, a) == WordIn(m, b) <==> forall i: nat :: i < WORD_OCTETS ==> SameAt(m, a, b, i)
  {
    WordOfOctets(m[a], m[a + 1], m[a + 2], m[a + 3]);
    WordOfOctets(m[b], m[b + 1], m[b + 2], m[b + 3]);
    if forall i: nat :: i < WORD_OCTETS ==> SameAt(m, a, b, i) {
      assert SameAt(m, a, b, 0) && SameAt(m, a, b, 1) && SameAt(m, a, b, 2) && SameAt(m, a, b, 3);
    }
  }

  /** The whole of a memory. */
  function View(s: seq<Octet>): Partial {
    map a | 0 <= a < |s| :: s[a]
  }
}
