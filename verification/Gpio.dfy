/** `GPIO_Init`: four configuration bits for each of the selected pins, and the pull of inputs. */
module Gpio {
  datatype Speed = Speed10MHz | Speed2MHz | Speed50MHz

  datatype Mode = AIN | InFloating | IPD | IPU | OutOD | OutPP | AFOD | AFPP

  function SpeedCode(s: Speed): bv32 {
    match s
    case Speed10MHz => 1
    case Speed2MHz => 2
    case Speed50MHz => 3
  }

  function ModeCode(m: Mode): bv32 {
    match m
    case AIN => 0x00
    case InFloating => 0x04
    case IPD => 0x28
    case IPU => 0x48
    case OutOD => 0x14
    case OutPP => 0x10
    case AFOD => 0x1C
    case AFPP => 0x18
  }

  predicate IsOutput(m: Mode) {
    m.OutOD? || m.OutPP? || m.AFOD? || m.AFPP?
  }

  /** The registers of a port: two of eight nibbles, and the output data. */
  datatype Port = Port(crl: bv32, crh: bv32, odr: bv32)

  /** One pin: its configuration nibble and its output bit. */
  datatype Pin = Pin(nibble: bv32, odr: bool)

  function Nibble(reg: bv32, j: bv32): bv32
    requires j < 8
  {
    (reg >> (j << 2)) & 0xF
  }

  predicate Bit(reg: bv32, i: bv32)
    requires i < 32
  {
    (reg >> i) & 1 == 1
  }

  function PinOf(p: Port, i: bv32): Pin
    requires i < 16
  {
    Pin(if i < 8 then Nibble(p.crl, i) else Nibble(p.crh, High(i)), Bit(p.odr, i))
  }

  datatype Decoded = Reserved | Input(mode: Mode) | Output(mode: Mode, speed: Speed)

  /** What a pin says: two mode bits, which for an output are its speed, and two configuration bits, of which
      the last combination is reserved for inputs. */
  function Decode(p: Pin): Decoded {
    var mode, cnf := p.nibble & 3, p.nibble >> 2;
    if mode == 0 then
      if cnf == 0 then Input(AIN)
      else if cnf == 1 then Input(InFloating)
      else if cnf == 2 then Input(if p.odr then IPU else IPD)
      else Reserved
    else
      var speed := if mode == 1 then Speed10MHz else if mode == 2 then Speed2MHz else Speed50MHz;
      if cnf == 0 then Output(OutPP, speed)
      else if cnf == 1 then Output(OutOD, speed)
      else if cnf == 2 then Output(AFPP, speed)
      else if cnf == 3 then Output(AFOD, speed)
      else Reserved
  }

  /** The four bits for a mode: the speed is part of them for outputs only. */
  function Code(m: Mode, s: Speed): bv32 {
    if ModeCode(m) & 0x10 != 0 then (ModeCode(m) & 0x0F) | SpeedCode(s) else ModeCode(m) & 0x0F
  }

  /** The pin that a configuration asks for, where it was `p`. */
  function Configured(p: Pin, m: Mode, s: Speed): Pin {
    Pin(Code(m, s), if m.IPD? then false else if m.IPU? then true else p.odr)
  }

  /** Whatever the pin was, it decodes to the mode asked for and, for outputs, the speed. */
  lemma ConfiguredDecodes(p: Pin, m: Mode, s: Speed)
    ensures Decode(Configured(p, m, s)) == if IsOutput(m) then Output(m, s) else Input(m)
  {
    match m {
      case AIN => case InFloating => case IPD => case IPU =>
      case OutOD => case OutPP => case AFOD => case AFPP =>
    }
    match s { case Speed10MHz => case Speed2MHz => case Speed50MHz => }
  }

  lemma ConfiguredTwice(p: Pin, m: Mode, s: Speed)
    ensures Configured(Configured(p, m, s), m, s) == Configured(p, m, s)
  {
  }

  // ----- bits

  /** What a write to BSRR, and one to BRR, of a 16-bit mask makes of the output data. */
  function With(odr: bv32, mask: bv32): bv32 {
    odr | mask
  }

  function Without(odr: bv32, mask: bv32): bv32 {
    odr & !mask
  }

  function Mask(i: bv32): bv32
    requires i < 16
  {
    1 << i
  }

  function Upper(reg: bv32): bv32 {
    reg >> 16
  }

  lemma BitPut(reg: bv32, i: bv32, j: bv32)
    requires i < 16 && j < 16
    ensures Bit(With(reg, Mask(i)), j) <==> j == i || Bit(reg, j)
    ensures Bit(Without(reg, Mask(i)), j) <==> j != i && Bit(reg, j)
  {
  }

  lemma UpperKept(reg: bv32, i: bv32)
    requires i < 16
    ensures Upper(With(reg, Mask(i))) == Upper(Without(reg, Mask(i))) == Upper(reg)
  {
  }

  predicate Picked(pins: bv32, i: bv32)
    requires i < 16
  {
    pins & Mask(i) == Mask(i)
  }

  lemma PickedIff(pins: bv32, i: bv32)
    requires i < 16
    ensures Picked(pins, i) <==> Bit(pins, i)
  {
  }

  lemma LowHalf(pins: bv32, i: bv32)
    requires pins < 0x1_0000 && i < 16 && Bit(pins, i)
    ensures i < 8 ==> pins & 0xFF != 0
    ensures i >= 8 ==> pins > 0xFF
  {
  }

  /** Eight nibbles make the register. */
  lemma NibblesDetermine(a: bv32, b: bv32)
    requires forall j: bv32 :: j < 8 ==> Nibble(a, j) == Nibble(b, j)
    ensures a == b
  {
    assert Nibble(a, 0) == Nibble(b, 0) && Nibble(a, 1) == Nibble(b, 1);
    assert Nibble(a, 2) == Nibble(b, 2) && Nibble(a, 3) == Nibble(b, 3);
    assert Nibble(a, 4) == Nibble(b, 4) && Nibble(a, 5) == Nibble(b, 5);
    assert Nibble(a, 6) == Nibble(b, 6) && Nibble(a, 7) == Nibble(b, 7);
  }

  // ----- what a call does to a port

  datatype Setup = Setup(pins: bv32, mode: Mode, speed: Speed)

  /** The member GPIO_Pin is a 16-bit word. */
  predicate Fits(c: Setup) {
    c.pins < 0x1_0000
  }

  /** What pin `i` is after the call, where it was `p`. */
  function Wanted(p: Pin, c: Setup, i: bv32): Pin
    requires i < 16
  {
    if Bit(c.pins, i) then Configured(p, c.mode, c.speed) else p
  }

  /** From `p` the call has made `q` of the pins below `n`; nothing else has changed. */
  ghost predicate Done(p: Port, c: Setup, q: Port, n: bv32) {
    && (forall i: bv32 :: i < 16 ==> PinOf(q, i) == if i < n then Wanted(PinOf(p, i), c, i) else PinOf(p, i))
    && Upper(q.odr) == Upper(p.odr)
  }

  /** Bit `k` of the configuration of a pin, in the order of the registers: two bits for the mode, which are 0
      for inputs and the speed of outputs, and two that tell analog from floating and from pulled inputs,
      push-pull from open-drain and the port's own outputs from those of alternate functions. */
  predicate ConfigBit(m: Mode, s: Speed, k: bv32) {
    if k == 0 then IsOutput(m) && s in {Speed10MHz, Speed50MHz}
    else if k == 1 then IsOutput(m) && s in {Speed2MHz, Speed50MHz}
    else if k == 2 then m in {InFloating, OutOD, AFOD}
    else m in {IPD, IPU, AFOD, AFPP}
  }

  lemma CodeBits(m: Mode, s: Speed, k: bv32)
    requires k < 4
    ensures (Code(m, s) >> k) & 1 == 1 <==> ConfigBit(m, s, k)
  {
    match m {
      case AIN => case InFloating => case IPD => case IPU =>
      case OutOD => case OutPP => case AFOD => case AFPP =>
    }
    match s { case Speed10MHz => case Speed2MHz => case Speed50MHz => }
  }

  /** Bit `k` of four, for pin `i`, in the two registers of eight pins. */
  predicate RegisterBit(p: Port, i: bv32, k: bv32)
    requires i < 16 && k < 4
  {
    ((if i < 8 then p.crl >> (4 * i + k) else p.crh >> (4 * (i - 8) + k)) & 1) == 1
  }

  lemma RegisterBitIff(p: Port, i: bv32, k: bv32)
    requires i < 16 && k < 4
    ensures RegisterBit(p, i, k) <==> (PinOf(p, i).nibble >> k) & 1 == 1
  {
    var reg := if i < 8 then p.crl else p.crh;
    NibbleBit(reg, if i < 8 then i else i - 8, k);
  }

  lemma NibbleBit(reg: bv32, j: bv32, k: bv32)
    requires j < 8 && k < 4
    ensures (reg >> (4 * j + k)) & 1 == 1 <==> (Nibble(reg, j) >> k) & 1 == 1
  {
  }

  /** Bit by bit, what the call has made of all the registers. */
  ghost predicate Laid(p: Port, c: Setup, q: Port) {
    && (forall i: bv32, k: bv32 {:trigger RegisterBit(q, i, k)} :: i < 16 && k < 4 ==>
          (RegisterBit(q, i, k) <==>
             if Bit(c.pins, i) then ConfigBit(c.mode, c.speed, k) else RegisterBit(p, i, k)))
    && (forall i: bv32 {:trigger Bit(q.odr, i)} :: i < 16 ==>
          (Bit(q.odr, i) <==>
             if Bit(c.pins, i) && c.mode in {IPD, IPU} then c.mode == IPU else Bit(p.odr, i)))
    && Upper(q.odr) == Upper(p.odr)
  }

  lemma DoneIsLaid(p: Port, c: Setup, q: Port)
    requires Done(p, c, q, 16)
    ensures Laid(p, c, q)
  {
    hide RegisterBit, ConfigBit, PinOf, Bit, Wanted;
    forall i: bv32, k: bv32 | i < 16 && k < 4
      ensures RegisterBit(q, i, k) <==>
                if Bit(c.pins, i) then ConfigBit(c.mode, c.speed, k) else RegisterBit(p, i, k)
    {
      PinLaid(p, c, q, i, k);
    }
    forall i: bv32 | i < 16
      ensures Bit(q.odr, i) <==>
                if Bit(c.pins, i) && c.mode in {IPD, IPU} then c.mode == IPU else Bit(p.odr, i)
    {
      PinLaid(p, c, q, i, 0);
    }
  }

  lemma PinLaid(p: Port, c: Setup, q: Port, i: bv32, k: bv32)
    requires i < 16 && k < 4 && PinOf(q, i) == Wanted(PinOf(p, i), c, i)
    ensures RegisterBit(q, i, k) <==>
              if Bit(c.pins, i) then ConfigBit(c.mode, c.speed, k) else RegisterBit(p, i, k)
    ensures Bit(q.odr, i) <==>
              if Bit(c.pins, i) && c.mode in {IPD, IPU} then c.mode == IPU else Bit(p.odr, i)
  {
    hide RegisterBit, ConfigBit, Nibble, Code, High, Bit;
    RegisterBitIff(p, i, k);
    RegisterBitIff(q, i, k);
    CodeBits(c.mode, c.speed, k);
  }

  function PutNibble(reg: bv32, j: bv32, code: bv32): bv32
    requires j < 8
  {
    (reg & !(0x0F << (j << 2))) | (code << (j << 2))
  }

  function PutPull(odr: bv32, m: Mode, i: bv32): bv32
    requires i < 16
  {
    if m.IPD? then Without(odr, Mask(i)) else if m.IPU? then With(odr, Mask(i)) else odr
  }

  /** One turn of the loops. */
  function Turn(p: Port, c: Setup, i: bv32): Port
    requires i < 16
  {
    if !Picked(c.pins, i) then p
    else if i < 8 then Port(PutNibble(p.crl, i, Code(c.mode, c.speed)), p.crh, PutPull(p.odr, c.mode, i))
    else Port(p.crl, PutNibble(p.crh, High(i), Code(c.mode, c.speed)), PutPull(p.odr, c.mode, i))
  }

  lemma CodeFits(m: Mode, s: Speed)
    ensures Code(m, s) < 16
  {
    match m {
      case AIN => case InFloating => case IPD => case IPU =>
      case OutOD => case OutPP => case AFOD => case AFPP =>
    }
    match s { case Speed10MHz => case Speed2MHz => case Speed50MHz => }
  }

  lemma NibblePut(reg: bv32, i: bv32, code: bv32, j: bv32)
    requires i < 8 && j < 8 && code < 16
    ensures Nibble(PutNibble(reg, i, code), j) == if j == i then code else Nibble(reg, j)
  {
  }

  /** The place of pin `i` among the eight high ones. */
  function High(i: bv32): (j: bv32)
    requires 8 <= i < 16
    ensures j < 8
  {
    i - 8
  }

  lemma HighDistinct(i: bv32, j: bv32)
    requires 8 <= i < 16 && 8 <= j < 16
    ensures High(i) == High(j) <==> i == j
  {
  }

  lemma PullAt(odr: bv32, m: Mode, i: bv32, j: bv32)
    requires i < 16 && j < 16
    ensures Bit(PutPull(odr, m, i), j) <==>
              if j == i && m.IPD? then false else if j == i && m.IPU? then true else Bit(odr, j)
    ensures Upper(PutPull(odr, m, i)) == Upper(odr)
  {
    hide Bit, With, Without, Mask, Upper;
    BitPut(odr, i, j);
    UpperKept(odr, i);
  }

  lemma TurnAt(p: Port, c: Setup, i: bv32, j: bv32)
    requires i < 16 && j < 16
    ensures PinOf(Turn(p, c, i), j) == if j == i then Wanted(PinOf(p, i), c, i) else PinOf(p, j)
    ensures Upper(Turn(p, c, i).odr) == Upper(p.odr)
  {
    hide Bit, Nibble, PutNibble, PutPull, Code, Upper, Picked, High;
    PickedIff(c.pins, i);
    CodeFits(c.mode, c.speed);
    PullAt(p.odr, c.mode, i, j);
    if i < 8 && j < 8 {
      NibblePut(p.crl, i, Code(c.mode, c.speed), j);
    } else if i >= 8 && j >= 8 {
      NibblePut(p.crh, High(i), Code(c.mode, c.speed), High(j));
      HighDistinct(i, j);
    }
  }

  lemma NextBelow(i: bv32, j: bv32)
    requires i < 16
    ensures i < i + 1 <= 16 && (j < i + 1 <==> j < i || j == i)
  {
  }

  lemma Start(p: Port, c: Setup)
    ensures Done(p, c, p, 0)
  {
    hide PinOf, Upper;
  }

  lemma HighPlace(i: bv32)
    requires i < 8
    ensures 8 <= i + 8 < 16 && High(i + 8) == i && i + 1 + 8 == i + 8 + 1 && i < i + 1 <= 8
  {
  }

  lemma DoneNext(p: Port, c: Setup, q: Port, i: bv32)
    requires i < 16 && Done(p, c, q, i)
    ensures Done(p, c, Turn(q, c, i), i + 1)
  {
    hide Turn, PinOf, Wanted, Upper;
    var r := Turn(q, c, i);
    TurnAt(q, c, i, i);
    forall j: bv32 | j < 16
      ensures PinOf(r, j) == if j < i + 1 then Wanted(PinOf(p, j), c, j) else PinOf(p, j)
    {
      TurnAt(q, c, i, j);
      NextBelow(i, j);
    }
  }

  /** Skipping a loop is right when no pin of its half is selected. */
  lemma DoneSkip(p: Port, c: Setup, q: Port, n: bv32)
    requires Fits(c)
    requires (n == 8 && c.pins & 0xFF == 0 && q == p) || (n == 16 && c.pins <= 0xFF && Done(p, c, q, 8))
    ensures Done(p, c, q, n)
  {
    hide PinOf, Upper, Bit;
    forall j: bv32 | j < 16
      ensures PinOf(q, j) == if j < n then Wanted(PinOf(p, j), c, j) else PinOf(p, j)
    {
      if Bit(c.pins, j) {
        LowHalf(c.pins, j);
      }
    }
  }

  class GpioPort {
    var crl: bv32
    var crh: bv32
    var odr: bv32

    ghost function Value(): Port
      reads this
    {
      Port(crl, crh, odr)
    }

    constructor (reset: Port)
      ensures Value() == reset
    {
      crl, crh, odr := reset.crl, reset.crh, reset.odr;
    }

    method WriteBrr(mask: bv32)
      modifies `odr
      ensures odr == Without(old(odr), mask)
    {
      odr := Without(odr, mask);
    }

    method WriteBsrr(mask: bv32)
      modifies `odr
      ensures odr == With(old(odr), mask)
    {
      odr := With(odr, mask);
    }

    /** The pull of a selected input pin. */
    method Pull(m: Mode, i: bv32)
      requires i < 16
      modifies `odr
      ensures odr == PutPull(old(odr), m, i)
    {
      hide With, Without, Mask;
      if m == IPD {
        WriteBrr(Mask(i));
      } else if m == IPU {
        WriteBsrr(Mask(i));
      }
    }

    /** The loop over the eight low pins. */
    method InitLow(c: Setup, code: bv32)
      requires code == Code(c.mode, c.speed)
      modifies this
      ensures Done(old(Value()), c, Value(), 8)
    {
      hide Code, Done, PutPull, PutNibble, Picked;
      ghost var was := Value();
      var reg := crl;
      var pinpos: bv32 := 0;
      Start(was, c);
      while pinpos < 8
        invariant pinpos <= 8 && crl == was.crl && crh == was.crh
        invariant Done(was, c, Port(reg, crh, odr), pinpos)
      {
        ghost var before := Port(reg, crh, odr);
        if Picked(c.pins, pinpos) {
          reg := PutNibble(reg, pinpos, code);
          Pull(c.mode, pinpos);
        }
        DoneNext(was, c, before, pinpos);
        pinpos := pinpos + 1;
      }
      crl := reg;
    }

    /** The loop over the eight high pins. */
    method InitHigh(c: Setup, code: bv32, ghost was: Port)
      requires code == Code(c.mode, c.speed) && Done(was, c, Value(), 8)
      modifies this
      ensures Done(was, c, Value(), 16)
    {
      hide Code, Done, PutPull, PutNibble, Picked, High;
      var reg := crh;
      var pinpos: bv32 := 0;
      while pinpos < 8
        invariant pinpos <= 8
        invariant Done(was, c, Port(crl, reg, odr), pinpos + 8)
      {
        ghost var before := Port(crl, reg, odr);
        HighPlace(pinpos);
        if Picked(c.pins, pinpos + 8) {
          reg := PutNibble(reg, pinpos, code);
          Pull(c.mode, pinpos + 8);
        }
        DoneNext(was, c, before, pinpos + 8);
        pinpos := pinpos + 1;
      }
      crh := reg;
    }

    /** GPIO_Init. */
    method Init(c: Setup)
      requires Fits(c)
      modifies this
      ensures Done(old(Value()), c, Value(), 16)
      ensures Laid(old(Value()), c, Value())
    {
      hide Done, Laid;
      ghost var was := Value();
      var code := ModeCode(c.mode) & 0x0F;
      if ModeCode(c.mode) & 0x10 != 0 {
        code := code | SpeedCode(c.speed);
      }
      assert code == Code(c.mode, c.speed);
      hide Code, ModeCode, SpeedCode;
      if c.pins & 0xFF != 0 {
        InitLow(c, code);
      } else {
        DoneSkip(was, c, was, 8);
      }
      if c.pins > 0xFF {
        InitHigh(c, code, was);
      } else {
        DoneSkip(was, c, Value(), 16);
      }
      DoneIsLaid(was, c, Value());
    }
  }

  // ----- what calls do together

  lemma BitsDetermine(a: bv32, b: bv32)
    requires Upper(a) == Upper(b)
    requires Bit(a, 0) == Bit(b, 0) && Bit(a, 1) == Bit(b, 1) && Bit(a, 2) == Bit(b, 2) && Bit(a, 3) == Bit(b, 3)
    requires Bit(a, 4) == Bit(b, 4) && Bit(a, 5) == Bit(b, 5) && Bit(a, 6) == Bit(b, 6) && Bit(a, 7) == Bit(b, 7)
    requires Bit(a, 8) == Bit(b, 8) && Bit(a, 9) == Bit(b, 9) && Bit(a, 10) == Bit(b, 10) && Bit(a, 11) == Bit(b, 11)
    requires Bit(a, 12) == Bit(b, 12) && Bit(a, 13) == Bit(b, 13) && Bit(a, 14) == Bit(b, 14)
    requires Bit(a, 15) == Bit(b, 15)
    ensures a == b
  {
  }

  /** A port is its sixteen pins, and the upper half of the output data. */
  lemma PinsDetermine(p: Port, q: Port)
    requires forall i: bv32 :: i < 16 ==> PinOf(p, i) == PinOf(q, i)
    requires Upper(p.odr) == Upper(q.odr)
    ensures p == q
  {
    hide Bit, Nibble, Upper, High;
    assert PinOf(p, 0) == PinOf(q, 0) && PinOf(p, 1) == PinOf(q, 1) && PinOf(p, 2) == PinOf(q, 2);
    assert PinOf(p, 3) == PinOf(q, 3) && PinOf(p, 4) == PinOf(q, 4) && PinOf(p, 5) == PinOf(q, 5);
    assert PinOf(p, 6) == PinOf(q, 6) && PinOf(p, 7) == PinOf(q, 7) && PinOf(p, 8) == PinOf(q, 8);
    assert PinOf(p, 9) == PinOf(q, 9) && PinOf(p, 10) == PinOf(q, 10) && PinOf(p, 11) == PinOf(q, 11);
    assert PinOf(p, 12) == PinOf(q, 12) && PinOf(p, 13) == PinOf(q, 13) && PinOf(p, 14) == PinOf(q, 14);
    assert PinOf(p, 15) == PinOf(q, 15);
    HighPlaces();
    BitsDetermine(p.odr, q.odr);
    NibblesDetermine(p.crl, q.crl);
    NibblesDetermine(p.crh, q.crh);
  }

  lemma HighPlaces()
    ensures High(8) == 0 && High(9) == 1 && High(10) == 2 && High(11) == 3
    ensures High(12) == 4 && High(13) == 5 && High(14) == 6 && High(15) == 7
  {
  }

  /** Calls that select no pin twice give the same port in either order. */
  lemma DisjointCallsCommute(p: Port, c: Setup, d: Setup, pc: Port, pcd: Port, pd: Port, pdc: Port)
    requires Done(p, c, pc, 16) && Done(pc, d, pcd, 16)
    requires Done(p, d, pd, 16) && Done(pd, c, pdc, 16)
    requires c.pins & d.pins == 0
    ensures pcd == pdc
  {
    hide PinOf, Bit, Configured, Upper;
    forall i: bv32 | i < 16
      ensures PinOf(pcd, i) == PinOf(pdc, i)
    {
      DisjointPins(c.pins, d.pins, i);
    }
    PinsDetermine(pcd, pdc);
  }

  lemma DisjointPins(a: bv32, b: bv32, i: bv32)
    requires a & b == 0 && i < 16
    ensures !Bit(a, i) || !Bit(b, i)
  {
  }

  /** The same call again changes nothing. */
  lemma CallTwiceAsOnce(p: Port, c: Setup, q: Port, r: Port)
    requires Done(p, c, q, 16) && Done(q, c, r, 16)
    ensures r == q
  {
    hide PinOf, Bit, Configured, Upper;
    forall i: bv32 | i < 16
      ensures PinOf(r, i) == PinOf(q, i)
    {
      ConfiguredTwice(PinOf(p, i), c.mode, c.speed);
    }
    PinsDetermine(q, r);
  }

  /** The ports `ps` that a run of calls `cs` goes through. */
  ghost predicate RunOf(ps: seq<Port>, cs: seq<Setup>) {
    |ps| == |cs| + 1 && forall k :: 0 <= k < |cs| ==> StepOf(ps, cs, k)
  }

  ghost predicate StepOf(ps: seq<Port>, cs: seq<Setup>, k: nat)
    requires k < |cs| && |ps| == |cs| + 1
  {
    Done(ps[k], cs[k], ps[k + 1], 16)
  }

  /** After any run, a pin is what the last call that selected it asked for, and as it was at first
      if no call did. */
  lemma {:induction false} LastCallCounts(ps: seq<Port>, cs: seq<Setup>, i: bv32, k: int)
    requires RunOf(ps, cs) && i < 16 && -1 <= k < |cs|
    requires forall j :: k < j < |cs| ==> !Bit(cs[j].pins, i)
    requires k >= 0 ==> Bit(cs[k].pins, i)
    ensures k == -1 ==> PinOf(ps[|cs|], i) == PinOf(ps[0], i)
    ensures k >= 0 ==>
              Decode(PinOf(ps[|cs|], i)) ==
              if IsOutput(cs[k].mode) then Output(cs[k].mode, cs[k].speed) else Input(cs[k].mode)
  {
    hide PinOf, Bit, Configured, Upper, Decode;
    var n := |cs|;
    if n > 0 {
      assert StepOf(ps, cs, n - 1);
      if k == n - 1 {
        ConfiguredDecodes(PinOf(ps[n - 1], i), cs[k].mode, cs[k].speed);
      } else {
        var qs, ds := ps[..n], cs[..n - 1];
        forall j | 0 <= j < n - 1
          ensures StepOf(qs, ds, j)
        {
          assert StepOf(ps, cs, j);
        }
        LastCallCounts(qs, ds, i, k);
      }
    }
  }
}
