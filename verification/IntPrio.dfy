/** Interrupt priorities: one octet for each position of the vector table, packed four to a
    register and stored with its bits reversed. */
module IntPrio {
  import opened Arith

  const PRIO_REGS: nat := 60

  // ----- reversal of bits

  predicate Bit(x: bv32, i: bv32)
    requires i < 32
  {
    (x >> i) & 1 == 1
  }

  /** The RBIT instruction: neighbours are exchanged, then pairs, nibbles, octets and halves. */
  function Rev(x: bv32): bv32 {
    var a := ((x >> 1) & 0x5555_5555) | ((x & 0x5555_5555) << 1);
    var b := ((a >> 2) & 0x3333_3333) | ((a & 0x3333_3333) << 2);
    var c := ((b >> 4) & 0x0F0F_0F0F) | ((b & 0x0F0F_0F0F) << 4);
    var d := ((c >> 8) & 0x00FF_00FF) | ((c & 0x00FF_00FF) << 8);
    (d >> 16) | (d << 16)
  }

  lemma RevMirrors(x: bv32, i: bv32)
    requires i < 32
    ensures Bit(Rev(x), i) <==> Bit(x, 31 - i)
  {
  }

  /** What the driver stores for a priority, and what it makes of a stored octet. */
  function Rev8(prio: bv32): (r: bv32)
    requires prio < 256
    ensures r < 256
  {
    Rev(prio) >> 24
  }

  lemma Rev8Twice(prio: bv32)
    requires prio < 256
    ensures Rev8(Rev8(prio)) == prio
  {
  }

  /** The highest bit first: bit i of a priority is bit 7 - i of what is stored. */
  lemma Rev8Bits(prio: bv32, i: bv32)
    requires prio < 256 && i < 8
    ensures Bit(Rev8(prio), 7 - i) <==> Bit(prio, i)
    ensures Bit(Rev8(prio), i) <==> Bit(prio, 7 - i)
  {
  }

  // ----- octets of registers

  function Index(o: nat): (i: bv32)
    requires o < 4
    ensures i < 4
  {
    if o == 0 then 0 else if o == 1 then 1 else if o == 2 then 2 else 3
  }

  function Taken(reg: bv32, i: bv32): (r: bv32)
    requires i < 4
    ensures r < 256
  {
    (reg >> (i << 3)) & 0xFF
  }

  function Placed(reg: bv32, i: bv32, v: bv32): bv32
    requires i < 4
  {
    (reg & !(0xFF << (i << 3))) | (v << (i << 3))
  }

  lemma PlacedTaken(reg: bv32, i: bv32, v: bv32, j: bv32)
    requires i < 4 && j < 4 && v < 256
    ensures Taken(Placed(reg, i, v), j) == if i == j then v else Taken(reg, j)
  {
  }

  function GetOctet(reg: bv32, o: nat): (r: bv32)
    requires o < 4
    ensures r < 256
  {
    Taken(reg, Index(o))
  }

  function PutOctet(reg: bv32, o: nat, v: bv32): bv32
    requires o < 4
  {
    Placed(reg, Index(o), v)
  }

  lemma PutOctetAt(reg: bv32, o: nat, v: bv32, k: nat)
    requires o < 4 && k < 4 && v < 256
    ensures GetOctet(PutOctet(reg, o, v), k) == if k == o then v else GetOctet(reg, k)
  {
    hide Taken, Placed;
    PlacedTaken(reg, Index(o), v, Index(k));
  }

  /** Octet `j` of the registers SHPRI1, SHPRI2, SHPRI3, PRIO(0), PRIO(1), ... */
  function OctetAt(regs: seq<bv32>, j: nat): (r: bv32)
    requires j < 4 * |regs|
    ensures r < 256
  {
    GetOctet(regs[j / 4], j % 4)
  }

  // ----- positions

  /** CPU_INT_SRC_POS_MAX, in the 8-bit variable that receives it. */
  function PosMax(nvic: nat): nat {
    ((nvic + 1) % 32 * 32 + 1) % 256
  }

  lemma PosMaxWraps(nvic: nat)
    ensures PosMax(nvic) == 32 * ((nvic + 1) % 8) + 1
  {
    var x := nvic + 1;
    var r, d, e := x % 32, x % 32 / 8, x % 32 % 8;
    var q := 4 * (x / 32) + d;
    assert r == 8 * d + e && x == q * 8 + e;
    DivModUnique(x, q, e, 8);
    DivModUnique(r * 32 + 1, d, 32 * e + 1, 256);
  }

  predicate Settable(nvic: nat, pos: nat) {
    pos in {4, 5, 6, 11, 12, 14, 15} || 16 <= pos < PosMax(nvic)
  }

  /** What a priority is: none, one of the three that cannot be set, or one that has been. */
  datatype Level = Invalid | Fixed(level: int) | Set(prio: bv32)

  /** The octet for `pos` has been set, if the position is settable; no other octet has changed. */
  ghost predicate Stored(regs: seq<bv32>, nvic: nat, pos: nat, prio: bv32, now: seq<bv32>)
    requires prio < 256
  {
    && |now| == |regs|
    && forall j :: 0 <= j < 4 * |regs| ==>
         OctetAt(now, j) == if Settable(nvic, pos) && j == pos - 4 then Rev8(prio) else OctetAt(regs, j)
  }

  /** Writing one octet of one register. */
  lemma StoredAt(regs: seq<bv32>, nvic: nat, pos: nat, prio: bv32, n: nat, o: nat)
    requires Settable(nvic, pos) && prio < 256
    requires n < |regs| && o < 4 && pos - 4 == 4 * n + o
    ensures Stored(regs, nvic, pos, prio, regs[n := PutOctet(regs[n], o, Rev8(prio))])
  {
    hide Settable, PutOctet, GetOctet, Rev8;
    var now := regs[n := PutOctet(regs[n], o, Rev8(prio))];
    forall j | 0 <= j < 4 * |regs|
      ensures OctetAt(now, j) == if j == pos - 4 then Rev8(prio) else OctetAt(regs, j)
    {
      PutOctetAt(regs[n], o, Rev8(prio), j % 4);
    }
  }

  /** Nothing is stored for a position that cannot be set. */
  lemma NothingStored(regs: seq<bv32>, nvic: nat, pos: nat, prio: bv32)
    requires !Settable(nvic, pos) && prio < 256
    ensures Stored(regs, nvic, pos, prio, regs)
  {
    hide Settable;
  }

  /** The bit of a register in which bit `i` of a priority is kept, if its position has octet `o`. */
  predicate PrioBit(reg: bv32, o: nat, i: bv32)
    requires o < 4 && i < 8
  {
    (reg >> (if o == 0 then 7 - i else if o == 1 then 15 - i else if o == 2 then 23 - i else 31 - i)) & 1 == 1
  }

  lemma PrioBitIff(reg: bv32, o: nat, i: bv32)
    requires o < 4 && i < 8
    ensures PrioBit(reg, o, i) <==> Bit(GetOctet(reg, o), 7 - i)
  {
  }

  /** Bit by bit: the priority is in the register and the octet of its position, the highest bit lowest, if the
      position is settable; all other bits of all registers are as they were. */
  ghost predicate StoredBits(regs: seq<bv32>, nvic: nat, pos: nat, prio: bv32, now: seq<bv32>) {
    && |now| == |regs|
    && forall n: nat, o: nat, i: bv32 {:trigger PrioBit(now[n], o, i)} :: n < |regs| && o < 4 && i < 8 ==>
         (PrioBit(now[n], o, i) <==>
            if Settable(nvic, pos) && pos - 4 == 4 * n + o then (prio >> i) & 1 == 1 else PrioBit(regs[n], o, i))
  }

  lemma StoredBitwise(regs: seq<bv32>, nvic: nat, pos: nat, prio: bv32, now: seq<bv32>)
    requires prio < 256 && Stored(regs, nvic, pos, prio, now)
    ensures StoredBits(regs, nvic, pos, prio, now)
  {
    hide Settable, PrioBit, Rev8, GetOctet;
    forall n: nat, o: nat, i: bv32 | n < |regs| && o < 4 && i < 8
      ensures PrioBit(now[n], o, i) <==>
                if Settable(nvic, pos) && pos - 4 == 4 * n + o then (prio >> i) & 1 == 1 else PrioBit(regs[n], o, i)
    {
      PrioBitIff(now[n], o, i);
      PrioBitIff(regs[n], o, i);
      Rev8Bits(prio, i);
      OctetOfRegister(regs, n, o);
      OctetOfRegister(now, n, o);
    }
  }

  lemma OctetOfRegister(regs: seq<bv32>, n: nat, o: nat)
    requires n < |regs| && o < 4
    ensures OctetAt(regs, 4 * n + o) == GetOctet(regs[n], o)
  {
  }

  /** And so it is read. */
  lemma HeldBits(regs: seq<bv32>, n: nat, o: nat, i: bv32)
    requires n < |regs| && o < 4 && i < 8
    ensures (Held(regs, 4 + 4 * n + o) >> i) & 1 == 1 <==> PrioBit(regs[n], o, i)
  {
    hide PrioBit, Rev8, GetOctet;
    OctetOfRegister(regs, n, o);
    PrioBitIff(regs[n], o, i);
    Rev8Bits(GetOctet(regs[n], o), i);
  }

  /** The priority that the registers hold for a position. */
  function Held(regs: seq<bv32>, pos: nat): bv32
    requires 4 <= pos < 4 * |regs| + 4
  {
    Rev8(OctetAt(regs, pos - 4))
  }

  /** A set is seen by the next get, and by the gets of no other position. */
  lemma HeldAfterSet(regs: seq<bv32>, nvic: nat, pos: nat, prio: bv32, now: seq<bv32>, q: nat)
    requires prio < 256 && Stored(regs, nvic, pos, prio, now)
    requires 4 <= q < 4 * |regs| + 4
    ensures Held(now, q) == if q == pos && Settable(nvic, pos) then prio else Held(regs, q)
  {
    hide Settable, Rev8, OctetAt;
    assert OctetAt(now, q - 4) == if Settable(nvic, pos) && q == pos then Rev8(prio) else OctetAt(regs, q - 4);
    Rev8Twice(prio);
  }

  /** The settable positions: seven of the exceptions, and of the external interrupts those from 16
      up to 32 times the number of groups of 32 lines, which is counted modulo eight.  So the last
      fifteen lines of the last group, and all lines of a controller with eight groups, are not settable. */
  lemma SettableIff(nvic: nat, pos: nat)
    ensures Settable(nvic, pos) <==> pos in {4, 5, 6, 11, 12, 14, 15} || 16 <= pos <= 32 * ((nvic + 1) % 8)
  {
    PosMaxWraps(nvic);
  }

  /** The external positions of a controller with `nvic` + 1 groups of 32 lines, which the
      documentation means to admit. */
  predicate Possible(nvic: nat, pos: nat) {
    16 <= pos < 16 + 32 * (nvic + 1) && pos < 256
  }

  /** Of those the driver admits, for up to seven groups, all but the last fifteen, and for eight none. */
  lemma PossibleSettableIff(nvic: nat, pos: nat)
    requires nvic < 8 && Possible(nvic, pos)
    ensures Settable(nvic, pos) <==> nvic < 7 && pos <= 32 * (nvic + 1)
  {
    SettableIff(nvic, pos);
  }

  lemma RefusedExample()
    ensures Possible(1, 65) && !Settable(1, 65) && Possible(7, 16) && !Settable(7, 16)
  {
    PossibleSettableIff(1, 65);
    PossibleSettableIff(7, 16);
  }

  lemma SettableFits(nvic: nat, pos: nat)
    requires Settable(nvic, pos)
    ensures 4 <= pos <= 224
  {
    SettableIff(nvic, pos);
  }

  datatype Request = Request(pos: nat, prio: bv32)

  predicate Fits(r: Request) {
    r.pos < 256 && r.prio < 256
  }

  /** The priority last asked for, or the one there was. */
  function LastAsked(rs: seq<Request>, pos: nat, was: bv32): bv32 {
    if rs == [] then was
    else if rs[|rs| - 1].pos == pos then rs[|rs| - 1].prio
    else LastAsked(rs[..|rs| - 1], pos, was)
  }

  class Nvic {
    const nvic: nat
    var shpri1: bv32
    var shpri2: bv32
    var shpri3: bv32
    const prio: array<bv32>

    ghost predicate Valid() {
      prio.Length == PRIO_REGS
    }

    /** All the registers, in the order of the positions that they serve. */
    ghost function Regs(): (r: seq<bv32>)
      requires Valid()
      reads this, prio
      ensures |r| == PRIO_REGS + 3
    {
      [shpri1, shpri2, shpri3] + prio[..]
    }

    constructor (nvic: nat)
      ensures Valid() && this.nvic == nvic && fresh(prio)
    {
      this.nvic := nvic;
      shpri1, shpri2, shpri3 := 0, 0, 0;
      prio := new bv32[PRIO_REGS];
    }

    /** CPU_IntSrcPrioSet. */
    method PrioSet(pos: nat, level: bv32)
      requires Valid() && pos < 256 && level < 256
      modifies this, prio
      ensures Stored(old(Regs()), nvic, pos, level, Regs())
      ensures StoredBits(old(Regs()), nvic, pos, level, Regs())
    {
      hide PutOctet, Rev8, GetOctet, PosMax, Stored, StoredBits;
      ghost var was := Regs();
      var rev := Rev8(level);
      if pos in {0, 7, 8, 9, 10, 13} || pos in {1, 2, 3} {
        SettableIff(nvic, pos);
        NothingStored(was, nvic, pos, level);
      } else if pos == 4 {
        shpri1 := PutOctet(shpri1, 0, rev);
        StoredAt(was, nvic, pos, level, 0, 0);
        assert Regs() == was[0 := shpri1];
      } else if pos == 5 {
        shpri1 := PutOctet(shpri1, 1, rev);
        StoredAt(was, nvic, pos, level, 0, 1);
        assert Regs() == was[0 := shpri1];
      } else if pos == 6 {
        shpri1 := PutOctet(shpri1, 2, rev);
        StoredAt(was, nvic, pos, level, 0, 2);
        assert Regs() == was[0 := shpri1];
      } else if pos == 11 {
        shpri2 := PutOctet(shpri2, 3, rev);
        StoredAt(was, nvic, pos, level, 1, 3);
        assert Regs() == was[1 := shpri2];
      } else if pos == 12 {
        shpri3 := PutOctet(shpri3, 0, rev);
        StoredAt(was, nvic, pos, level, 2, 0);
        assert Regs() == was[2 := shpri3];
      } else if pos == 14 {
        shpri3 := PutOctet(shpri3, 2, rev);
        StoredAt(was, nvic, pos, level, 2, 2);
        assert Regs() == was[2 := shpri3];
      } else if pos == 15 {
        shpri3 := PutOctet(shpri3, 3, rev);
        StoredAt(was, nvic, pos, level, 2, 3);
        assert Regs() == was[2 := shpri3];
      } else {
        var posMax := PosMax(nvic);
        if pos < posMax {
          SettableFits(nvic, pos);
          var group, nbr := (pos - 16) / 4, (pos - 16) % 4;
          prio[group] := PutOctet(prio[group], nbr, rev);
          StoredAt(was, nvic, pos, level, 3 + group, nbr);
          assert Regs() == was[3 + group := prio[group]];
        } else {
          NothingStored(was, nvic, pos, level);
        }
      }
      StoredBitwise(was, nvic, pos, level, Regs());
    }

    /** CPU_IntSrcPrioGet. */
    method PrioGet(pos: nat) returns (r: Level)
      requires Valid() && pos < 256
      ensures Settable(nvic, pos) ==> r == Set(Held(Regs(), pos))
      ensures 1 <= pos <= 3 ==> r == Fixed(pos - 4)
      ensures !Settable(nvic, pos) && !(1 <= pos <= 3) ==> r == Invalid
    {
      hide Rev8, GetOctet, PosMax;
      SettableIff(nvic, pos);
      if pos in {0, 7, 8, 9, 10, 13} {
        r := Invalid;
      } else if pos == 1 {
        r := Fixed(-3);
      } else if pos == 2 {
        r := Fixed(-2);
      } else if pos == 3 {
        r := Fixed(-1);
      } else if pos == 4 {
        r := Set(GetOctet(shpri1, 0));
      } else if pos == 5 {
        r := Set(GetOctet(shpri1, 1));
      } else if pos == 6 {
        r := Set(GetOctet(shpri1, 2));
      } else if pos == 11 {
        r := Set(GetOctet(shpri2, 3));
      } else if pos == 12 {
        r := Set(GetOctet(shpri3, 0));
      } else if pos == 14 {
        r := Set(GetOctet(shpri3, 2));
      } else if pos == 15 {
        r := Set(GetOctet(shpri3, 3));
      } else {
        var posMax := PosMax(nvic);
        if pos < posMax {
          SettableFits(nvic, pos);
          var group, nbr := (pos - 16) / 4, (pos - 16) % 4;
          r := Set(GetOctet(prio[group], nbr));
        } else {
          r := Invalid;
        }
      }
      if r.Set? {
        r := Set(Rev8(r.prio));
      }
    }

    /** Any run of sets: every settable position has the priority last asked for, and nothing
        else has changed. */
    method SetAll(rs: seq<Request>)
      requires Valid() && forall k :: 0 <= k < |rs| ==> Fits(rs[k])
      modifies this, prio
      ensures forall q :: 4 <= q < 256 ==>
                Held(Regs(), q) == if Settable(nvic, q) then LastAsked(rs, q, old(Held(Regs(), q)))
                                   else old(Held(Regs(), q))
    {
      hide Settable, Held, Stored;
      ghost var was := Regs();
      var k := 0;
      while k < |rs|
        invariant 0 <= k <= |rs|
        invariant forall q :: 4 <= q < 256 ==>
                    Held(Regs(), q) == if Settable(nvic, q) then LastAsked(rs[..k], q, Held(was, q)) else Held(was, q)
      {
        ghost var before := Regs();
        assert Fits(rs[k]);
        PrioSet(rs[k].pos, rs[k].prio);
        ghost var now := Regs();
        assert rs[..k + 1][..k] == rs[..k];
        forall q | 4 <= q < 256
          ensures Held(now, q) == if q == rs[k].pos && Settable(nvic, q) then rs[k].prio else Held(before, q)
        {
          HeldAfterSet(before, nvic, rs[k].pos, rs[k].prio, now, q);
        }
        k := k + 1;
      }
      assert rs[..k] == rs;
    }

    /** After any sequence of sets, a get returns the priority last asked for, where one can be set. */
    method SetAllThenGet(rs: seq<Request>, pos: nat) returns (r: Level)
      requires Valid() && pos < 256 && forall k :: 0 <= k < |rs| ==> Fits(rs[k])
      modifies this, prio
      ensures Settable(nvic, pos) ==> 4 <= pos <= 224 && r == Set(LastAsked(rs, pos, old(Held(Regs(), pos))))
      ensures 1 <= pos <= 3 ==> r == Fixed(pos - 4)
      ensures !Settable(nvic, pos) && !(1 <= pos <= 3) ==> r == Invalid
    {
      hide Held, LastAsked, Settable;
      if Settable(nvic, pos) { SettableFits(nvic, pos); }
      SetAll(rs);
      r := PrioGet(pos);
    }
  }
}
