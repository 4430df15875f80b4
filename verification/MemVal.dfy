/** The MEM_VAL macros of lib_mem.h on the little-endian configuration: values of 8, 16 or
    32 bits fetched from and stored to any address, in either octet order. */
module MemVal {
  import opened Arith
  import opened Words

  function Pow256(n: nat): (r: nat)
    ensures r >= 1
  {
    if n == 0 then 1 else 0x100 * Pow256(n - 1)
  }

  /** The value of `n` octets from `a` on, least significant first: MEM_VAL_GET_xxx_LITTLE. */
  function GetLittle(m: seq<Octet>, a: nat, n: nat): nat
    requires a + n <= |m|
    decreases n
  {
    if n == 0 then 0 else m[a] as int + 0x100 * GetLittle(m, a + 1, n - 1)
  }

  /** The value of `n` octets from `a` on, most significant first: MEM_VAL_GET_xxx_BIG. */
  function GetBig(m: seq<Octet>, a: nat, n: nat): nat
    requires a + n <= |m|
  {
    if n == 0 then 0 else m[a + n - 1] as int + 0x100 * GetBig(m, a, n - 1)
  }

  function PutLittle(m: seq<Octet>, a: nat, n: nat, v: nat): (r: seq<Octet>)
    requires a + n <= |m|
    ensures |r| == |m| && forall i :: 0 <= i < |m| && !(a <= i < a + n) ==> r[i] == m[i]
    decreases n
  {
    if n == 0 then m else PutLittle(m[a := v % 0x100], a + 1, n - 1, v / 0x100)
  }

  function PutBig(m: seq<Octet>, a: nat, n: nat, v: nat): (r: seq<Octet>)
    requires a + n <= |m|
    ensures |r| == |m| && forall i :: 0 <= i < |m| && !(a <= i < a + n) ==> r[i] == m[i]
    decreases n
  {
    if n == 0 then m else PutBig(m[a + n - 1 := v % 0x100], a, n - 1, v / 0x100)
  }

  // ----- the macros that read: octets shifted to their places and added

  /** MEM_VAL_GET_INT16U_BIG. */
  method GetInt16Big(ram: array<Octet>, a: nat) returns (v: nat)
    requires a + 2 <= ram.Length
    ensures v == GetBig(ram[..], a, 2) < 0x1_0000
  {
    v := ram[a + 0] as int * 0x100 + ram[a + 1];
    assert GetBig(ram[..], a, 1) == ram[a];
  }

  /** MEM_VAL_GET_INT32U_BIG. */
  method GetInt32Big(ram: array<Octet>, a: nat) returns (v: Word)
    requires a + 4 <= ram.Length
    ensures v == GetBig(ram[..], a, 4)
  {
    v := ram[a + 0] as int * 0x100_0000 + ram[a + 1] as int * 0x1_0000 + ram[a + 2] as int * 0x100 + ram[a + 3];
    assert GetBig(ram[..], a, 2) == ram[a + 1] as int + 0x100 * GetBig(ram[..], a, 1);
    assert GetBig(ram[..], a, 4) == ram[a + 3] as int + 0x100 * GetBig(ram[..], a, 3);
  }

  /** MEM_VAL_GET_INT16U_LITTLE. */
  method GetInt16Little(ram: array<Octet>, a: nat) returns (v: nat)
    requires a + 2 <= ram.Length
    ensures v == GetLittle(ram[..], a, 2) < 0x1_0000
  {
    v := ram[a + 0] as int + ram[a + 1] as int * 0x100;
    assert GetLittle(ram[..], a + 1, 1) == ram[a + 1];
  }

  /** MEM_VAL_GET_INT32U_LITTLE. */
  method GetInt32Little(ram: array<Octet>, a: nat) returns (v: Word)
    requires a + 4 <= ram.Length
    ensures v == GetLittle(ram[..], a, 4)
  {
    v := ram[a + 0] as int + ram[a + 1] as int * 0x100 + ram[a + 2] as int * 0x1_0000
      + ram[a + 3] as int * 0x100_0000;
    assert GetLittle(ram[..], a + 2, 2) == ram[a + 2] as int + 0x100 * GetLittle(ram[..], a + 3, 1);
    assert GetLittle(ram[..], a, 4) == ram[a] as int + 0x100 * GetLittle(ram[..], a + 1, 3);
  }

  // ----- the macros that write

  /** MEM_VAL_SET_INT16U_BIG. */
  method SetInt16Big(ram: array<Octet>, a: nat, v: nat)
    requires a + 2 <= ram.Length && v < 0x1_0000
    modifies ram
    ensures ram[..] == PutBig(old(ram[..]), a, 2, v)
  {
    ram[a + 0] := v / 0x100 % 0x100;
    ram[a + 1] := v % 0x100;
    assert ram[..] == old(ram[..])[a + 1 := v % 0x100][a := v / 0x100 % 0x100];
  }

  /** MEM_VAL_SET_INT32U_BIG. */
  method SetInt32Big(ram: array<Octet>, a: nat, v: Word)
    requires a + 4 <= ram.Length
    modifies ram
    ensures ram[..] == PutBig(old(ram[..]), a, 4, v)
  {
    ghost var m := ram[..];
    ram[a + 0] := OctetOf(v, 3);
    ram[a + 1] := OctetOf(v, 2);
    ram[a + 2] := OctetOf(v, 1);
    ram[a + 3] := OctetOf(v, 0);
    ghost var m2: seq<Octet> := m[a + 3 := OctetOf(v, 0)][a + 2 := OctetOf(v, 1)];
    assert ram[..] == m2[a + 1 := OctetOf(v, 2)][a := OctetOf(v, 3)];
    assert PutBig(m, a, 4, v) == PutBig(m2, a, 2, v / 0x100 / 0x100);
  }

  /** MEM_VAL_SET_INT16U_LITTLE. */
  method SetInt16Little(ram: array<Octet>, a: nat, v: nat)
    requires a + 2 <= ram.Length && v < 0x1_0000
    modifies ram
    ensures ram[..] == PutLittle(old(ram[..]), a, 2, v)
  {
    ram[a + 0] := v % 0x100;
    ram[a + 1] := v / 0x100 % 0x100;
    assert ram[..] == old(ram[..])[a := v % 0x100][a + 1 := v / 0x100 % 0x100];
  }

  /** MEM_VAL_SET_INT32U_LITTLE. */
  method SetInt32Little(ram: array<Octet>, a: nat, v: Word)
    requires a + 4 <= ram.Length
    modifies ram
    ensures ram[..] == PutLittle(old(ram[..]), a, 4, v)
  {
    ghost var m := ram[..];
    ram[a + 0] := OctetOf(v, 0);
    ram[a + 1] := OctetOf(v, 1);
    ram[a + 2] := OctetOf(v, 2);
    ram[a + 3] := OctetOf(v, 3);
    ghost var m2: seq<Octet> := m[a := OctetOf(v, 0)][a + 1 := OctetOf(v, 1)];
    assert ram[..] == m2[a + 2 := OctetOf(v, 2)][a + 3 := OctetOf(v, 3)];
    assert PutLittle(m, a, 4, v) == PutLittle(m2, a + 2, 2, v / 0x100 / 0x100);
  }

  /** MEM_VAL_COPY_GET_INT16U_BIG and, being the same, MEM_VAL_COPY_SET_INT16U_BIG. */
  method CopyInt16Big(ram: array<Octet>, dest: nat, src: nat)
    requires dest + 2 <= ram.Length && src + 2 <= ram.Length
    modifies ram
    ensures ram[..] == Swapped(old(ram[..]), dest, src, 2)
  {
    ghost var m := ram[..];
    ram[dest + 0] := ram[src + 1];
    ghost var m1 := ram[..];
    ram[dest + 1] := ram[src + 0];
    assert m1 == m[dest := m[src + 1]] && ram[..] == m1[dest + 1 := m1[src]];
    SwappedTwo(m, dest, src, m1);
  }

  /** MEM_VAL_COPY_GET_INT32U_BIG and, being the same, MEM_VAL_COPY_SET_INT32U_BIG. */
  method CopyInt32Big(ram: array<Octet>, dest: nat, src: nat)
    requires dest + 4 <= ram.Length && src + 4 <= ram.Length
    modifies ram
    ensures ram[..] == Swapped(old(ram[..]), dest, src, 4)
  {
    ghost var m := ram[..];
    ram[dest + 0] := ram[src + 3];
    ghost var m1 := ram[..];
    ram[dest + 1] := ram[src + 2];
    ghost var m2 := ram[..];
    ram[dest + 2] := ram[src + 1];
    ghost var m3 := ram[..];
    ram[dest + 3] := ram[src + 0];
    assert m1 == m[dest := m[src + 3]] && m2 == m1[dest + 1 := m1[src + 2]];
    assert m3 == m2[dest + 2 := m2[src + 1]] && ram[..] == m3[dest + 3 := m3[src]];
    SwappedFour(m, dest, src, m1, m2, m3);
  }

  /** The memory after `n` octets from `src` on are stored one by one, the last one first, from
      `dest` upwards. */
  function Swapped(m: seq<Octet>, dest: nat, src: nat, n: nat): (r: seq<Octet>)
    requires dest + n <= |m| && src + n <= |m|
    ensures |r| == |m|
    decreases n
  {
    if n == 0 then m else Swapped(m[dest := m[src + n - 1]], dest + 1, src, n - 1)
  }

  lemma SwappedTwo(m: seq<Octet>, dest: nat, src: nat, m1: seq<Octet>)
    requires dest + 2 <= |m| && src + 2 <= |m| && m1 == m[dest := m[src + 1]]
    ensures Swapped(m, dest, src, 2) == m1[dest + 1 := m1[src]]
  {
    assert Swapped(m1, dest + 1, src, 1) == m1[dest + 1 := m1[src]];
  }

  lemma SwappedFour(m: seq<Octet>, dest: nat, src: nat, m1: seq<Octet>, m2: seq<Octet>, m3: seq<Octet>)
    requires dest + 4 <= |m| && src + 4 <= |m|
    requires m1 == m[dest := m[src + 3]] && m2 == m1[dest + 1 := m1[src + 2]] && m3 == m2[dest + 2 := m2[src + 1]]
    ensures Swapped(m, dest, src, 4) == m3[dest + 3 := m3[src]]
  {
    assert Swapped(m, dest, src, 4) == Swapped(m2, dest + 2, src, 2);
    SwappedTwo(m2, dest + 2, src, m3);
  }

  /** The memory with the `n` octets at `src`, in reverse, at `dest`. */
  function Reversed(m: seq<Octet>, dest: nat, src: nat, n: nat): (r: seq<Octet>)
    requires dest + n <= |m| && src + n <= |m|
    ensures |r| == |m|
    ensures forall i :: 0 <= i < |m| ==> r[i] == if dest <= i < dest + n then m[src + n - 1 - (i - dest)] else m[i]
  {
    seq(|m|, i requires 0 <= i < |m| => if dest <= i < dest + n then m[src + n - 1 - (i - dest)] else m[i])
  }

  /** One octet in common at the ends does no harm. */
  predicate Far(dest: nat, src: nat, n: nat) {
    n <= 1 || dest >= src + n - 1 || src >= dest + n - 1
  }

  lemma {:induction false} SwappedIsReversed(m: seq<Octet>, dest: nat, src: nat, n: nat)
    requires dest + n <= |m| && src + n <= |m| && Far(dest, src, n)
    ensures Swapped(m, dest, src, n) == Reversed(m, dest, src, n)
    decreases n
  {
    if n > 0 {
      SwappedIsReversed(m[dest := m[src + n - 1]], dest + 1, src, n - 1);
    }
  }

  ghost predicate AlwaysReverses(dest: nat, src: nat, n: nat) {
    forall m: seq<Octet> :: dest + n <= |m| && src + n <= |m| ==> Swapped(m, dest, src, n) == Reversed(m, dest, src, n)
  }

  /** Storing in that order reverses the octets, whatever they are, if and only if the two places
      have at most an octet in common, and that at their ends. */
  lemma SwappedIsReversedIff(dest: nat, src: nat, n: nat)
    requires n == 2 || n == 4
    ensures Far(dest, src, n) <==> AlwaysReverses(dest, src, n)
  {
    hide Swapped, Reversed;
    if Far(dest, src, n) {
      forall m: seq<Octet> | dest + n <= |m| && src + n <= |m|
        ensures Swapped(m, dest, src, n) == Reversed(m, dest, src, n)
      {
        SwappedIsReversed(m, dest, src, n);
      }
    } else {
      SwappedLoses(dest, src, n);
    }
  }

  /** Which octet is overwritten before it is fetched, if the places are too near. */
  function Lost(dest: nat, src: nat, n: nat): nat {
    if n == 2 || dest == src + 2 then 1 else if dest == src + 1 then 2 else 3
  }

  /** A memory of `n` octets that are zero but for one. */
  function Single(n: nat, at: nat): (m: seq<Octet>)
    ensures |m| == n && forall a :: 0 <= a < n ==> m[a] == if a == at then 1 else 0
  {
    seq(n, a => if a == at then 1 else 0)
  }

  lemma SwappedLoses(dest: nat, src: nat, n: nat)
    requires (n == 2 || n == 4) && !Far(dest, src, n)
    ensures !AlwaysReverses(dest, src, n)
  {
    hide Single, Swapped, Reversed;
    var i := Lost(dest, src, n);
    var m := Single(dest + src + n, src + n - 1 - i);
    var m1 := m[dest := m[src + n - 1]];
    var m2 := m1[dest + 1 := m1[src + n - 2]];
    if n == 2 {
      SwappedTwo(m, dest, src, m1);
    } else {
      var m3 := m2[dest + 2 := m2[src + 1]];
      SwappedFour(m, dest, src, m1, m2, m3);
      assert m1[dest] == 0;
      assert m2[dest] == 0 && (i == 1 ==> m2[dest + 1] == 0);
    }
    assert Reversed(m, dest, src, n)[dest + i] == m[src + n - 1 - i];
    assert Swapped(m, dest, src, n)[dest + i] == 0;
  }

  // ----- get undoes set

  lemma {:induction false} GetFrame(m: seq<Octet>, k: seq<Octet>, a: nat, n: nat)
    requires |k| == |m| && a + n <= |m| && forall i :: a <= i < a + n ==> k[i] == m[i]
    ensures GetLittle(k, a, n) == GetLittle(m, a, n) && GetBig(k, a, n) == GetBig(m, a, n)
    decreases n
  {
    if n > 0 {
      GetFrame(m, k, a, n - 1);
      GetFrame(m, k, a + 1, n - 1);
    }
  }

  /** In both orders, for every width and address, what is fetched is what was stored. */
  lemma {:induction false} GetUndoesSet(m: seq<Octet>, a: nat, n: nat, v: nat)
    requires a + n <= |m| && v < Pow256(n)
    ensures GetLittle(PutLittle(m, a, n, v), a, n) == v
    ensures GetBig(PutBig(m, a, n, v), a, n) == v
    decreases n
  {
    if n > 0 {
      GetUndoesSet(m[a := v % 0x100], a + 1, n - 1, v / 0x100);
      GetUndoesSet(m[a + n - 1 := v % 0x100], a, n - 1, v / 0x100);
    }
  }

  /** And storing what was fetched changes nothing. */
  lemma {:induction false} SetUndoesGetLittle(m: seq<Octet>, a: nat, n: nat)
    requires a + n <= |m|
    ensures PutLittle(m, a, n, GetLittle(m, a, n)) == m
    decreases n
  {
    if n > 0 {
      LowOctet(m[a], GetLittle(m, a + 1, n - 1));
      assert m[a := m[a]] == m;
      SetUndoesGetLittle(m, a + 1, n - 1);
    }
  }

  lemma {:induction false} SetUndoesGetBig(m: seq<Octet>, a: nat, n: nat)
    requires a + n <= |m|
    ensures PutBig(m, a, n, GetBig(m, a, n)) == m
    decreases n
  {
    if n > 0 {
      LowOctet(m[a + n - 1], GetBig(m, a, n - 1));
      assert m[a + n - 1 := m[a + n - 1]] == m;
      SetUndoesGetBig(m, a, n - 1);
    }
  }

  // ----- which octet is which

  lemma Places()
    ensures Pow256(0) == 1 && Pow256(1) == 0x100 && Pow256(2) == 0x1_0000 && Pow256(3) == 0x100_0000
  {
    assert Pow256(2) == 0x100 * Pow256(1);
  }

  /** After a store in little-endian order the octet at `a` + i has weight 256^i in the value. */
  lemma {:induction false} LittleAt(m: seq<Octet>, a: nat, n: nat, v: nat, i: nat)
    requires a + n <= |m| && i < n
    ensures PutLittle(m, a, n, v)[a + i] == v / Pow256(i) % 0x100
    decreases n
  {
    if i > 0 {
      LittleAt(m[a := v % 0x100], a + 1, n - 1, v / 0x100, i - 1);
      Quotients(v, Pow256(i - 1));
    }
  }

  /** And after one in big-endian order the octet `i` places before the last. */
  lemma {:induction false} BigAt(m: seq<Octet>, a: nat, n: nat, v: nat, i: nat)
    requires a + n <= |m| && i < n
    ensures PutBig(m, a, n, v)[a + n - 1 - i] == v / Pow256(i) % 0x100
    decreases n
  {
    if i > 0 {
      BigAt(m[a + n - 1 := v % 0x100], a, n - 1, v / 0x100, i - 1);
      Quotients(v, Pow256(i - 1));
    }
  }

  lemma Quotients(v: nat, p: nat)
    requires p >= 1
    ensures v / 0x100 / p == v / (0x100 * p)
  {
    var q := v / 0x100;
    var k := q / p;
    assert q == k * p + q % p;
    assert v == k * (0x100 * p) + (0x100 * (q % p) + v % 0x100) by { assert k * (0x100 * p) == 0x100 * (k * p); }
    DivModUnique(v, k, 0x100 * (q % p) + v % 0x100, 0x100 * p);
  }

  /** What is fetched has the octets in those places. */
  lemma GetAt(m: seq<Octet>, a: nat, n: nat, i: nat)
    requires a + n <= |m| && i < n
    ensures GetLittle(m, a, n) / Pow256(i) % 0x100 == m[a + i]
    ensures GetBig(m, a, n) / Pow256(i) % 0x100 == m[a + n - 1 - i]
  {
    LittleAt(m, a, n, GetLittle(m, a, n), i);
    BigAt(m, a, n, GetBig(m, a, n), i);
    SetUndoesGetLittle(m, a, n);
    SetUndoesGetBig(m, a, n);
  }

  /** The words of the memory are little-endian. */
  lemma NativeIsLittle(m: seq<Octet>, a: nat, w: Word)
    requires a + 4 <= |m|
    ensures WordAt(m, a) == GetLittle(m, a, 4) && PutWord(m, a, w) == PutLittle(m, a, 4, w)
  {
    var v := w / 0x100 / 0x100;
    var k := m[a := OctetOf(w, 0)][a + 1 := OctetOf(w, 1)];
    assert PutLittle(m, a, 4, w) == PutLittle(k, a + 2, 2, v);
    assert PutLittle(k, a + 2, 2, v) == k[a + 2 := v % 0x100][a + 3 := v / 0x100 % 0x100];
    assert GetLittle(m, a + 2, 2) == m[a + 2] as int + 0x100 * GetLittle(m, a + 3, 1);
    assert GetLittle(m, a, 4) == m[a] as int + 0x100 * GetLittle(m, a + 1, 3);
  }

  // ----- copy and convert

  lemma LowOctet(o: Octet, v: nat)
    ensures (o + 0x100 * v) % 0x100 == o && (o + 0x100 * v) / 0x100 == v
  {
  }

  /** Copying in big-endian order is fetching in that order and storing natively. */
  lemma {:induction false} CopyIsGetThenStore(m: seq<Octet>, dest: nat, src: nat, n: nat)
    requires dest + n <= |m| && src + n <= |m| && Far(dest, src, n)
    ensures Swapped(m, dest, src, n) == PutLittle(m, dest, n, GetBig(m, src, n))
    decreases n
  {
    if n > 0 {
      var m1 := m[dest := m[src + n - 1]];
      GetFrame(m, m1, src, n - 1);
      CopyIsGetThenStore(m1, dest + 1, src, n - 1);
      LowOctet(m[src + n - 1], GetBig(m, src, n - 1));
    }
  }

  /** Copied there and back, a value is what it was. */
  lemma CopySetUndoesCopyGet(m: seq<Octet>, dest: nat, src: nat, n: nat, back: nat)
    requires dest + n <= |m| && src + n <= |m| && back + n <= |m|
    requires Far(dest, src, n) && Far(back, dest, n)
    ensures Swapped(Swapped(m, dest, src, n), back, dest, n)[back..back + n] == m[src..src + n]
  {
    hide Swapped, Reversed, Far;
    SwappedIsReversed(m, dest, src, n);
    SwappedIsReversed(Reversed(m, dest, src, n), back, dest, n);
    ReversedTwice(m, dest, src, n, back);
  }

  lemma ReversedTwice(m: seq<Octet>, dest: nat, src: nat, n: nat, back: nat)
    requires dest + n <= |m| && src + n <= |m| && back + n <= |m|
    ensures Reversed(Reversed(m, dest, src, n), back, dest, n)[back..back + n] == m[src..src + n]
  {
    hide Reversed;
    var r := Reversed(m, dest, src, n);
    var t := Reversed(r, back, dest, n);
    var x, y := t[back..back + n], m[src..src + n];
    forall i | 0 <= i < n ensures x[i] == y[i] {
      assert t[back + i] == r[dest + (n - 1 - i)];
    }
  }
}
