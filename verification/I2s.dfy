/** The clock prescaler of `I2S_Init`: a divider in halves, rounded in integers, and its
    encoding in the register I2SPR. */
module I2s {
  import opened Arith

  const FREQ_DEFAULT: nat := 2
  const MCLK: nat := 0x200

  /** What the parameter checks of the driver admit. */
  predicate IsFreq(freq: nat) {
    8000 <= freq <= 192000 || freq == FREQ_DEFAULT
  }

  // ----- rounding

  /** `d` is q / f rounded to the nearest integer, halves upwards. */
  predicate Nearest(q: nat, f: nat, d: nat) {
    (2 * d - 1) * f <= 2 * q < (2 * d + 1) * f
  }

  /** Ten times the ratio, truncated, and a half in tenths added. */
  function Tenths(q: nat, f: nat): (x: nat)
    requires f >= 1
    ensures x >= 5
  {
    QuotientNonNeg(q * 10, f);
    q * 10 / f + 5
  }

  /** The integer form rounds exactly, although it truncates twice. */
  lemma TruncatingTwiceRounds(q: nat, f: nat)
    requires f >= 1
    ensures Nearest(q, f, Tenths(q, f) / 10)
  {
    var t := q * 10 / f;
    var d := (t + 5) / 10;
    assert t * f <= q * 10 < (t + 1) * f by { assert q * 10 == t * f + q * 10 % f; assert (t + 1) * f == t * f + f; }
    MulMono(10 * d - 5, t, f);
    MulMono(t + 1, 10 * d + 5, f);
    assert (10 * d - 5) * f == 5 * ((2 * d - 1) * f);
    assert (10 * d + 5) * f == 5 * ((2 * d + 1) * f);
  }

  lemma NearestUnique(q: nat, f: nat, d: nat, e: nat)
    requires f >= 1 && Nearest(q, f, d) && Nearest(q, f, e)
    ensures d == e
  {
    if d < e {
      MulMono(2 * d + 1, 2 * e - 1, f);
    } else if e < d {
      MulMono(2 * e + 1, 2 * d - 1, f);
    }
  }

  // ----- the register

  /** Bitwise or. */
  function Or(a: nat, b: nat): nat
    decreases a + b
  {
    if a == 0 && b == 0 then 0
    else (if a % 2 == 1 || b % 2 == 1 then 1 else 0) + 2 * Or(a / 2, b / 2)
  }

  predicate BitAt(x: nat, k: nat) {
    if k == 0 then x % 2 == 1 else BitAt(x / 2, k - 1)
  }

  lemma {:induction false} OrBits(a: nat, b: nat, k: nat)
    ensures BitAt(Or(a, b), k) <==> BitAt(a, k) || BitAt(b, k)
    decreases k
  {
    if a == 0 && b == 0 {
      OrZero(0);
      if k > 0 {
        OrBits(0, 0, k - 1);
      }
    } else if k > 0 {
      OrBits(a / 2, b / 2, k - 1);
    }
  }

  lemma {:induction false} OrZero(a: nat)
    ensures Or(0, a) == a && Or(a, 0) == a
  {
    if a > 0 {
      OrZero(a / 2);
    }
  }

  lemma OrEven(a: nat, c: nat)
    ensures Or(a, 2 * c) == a % 2 + 2 * Or(a / 2, c)
  {
    assert 2 * c / 2 == c && 2 * c % 2 == 0;
  }

  /** Bits below place `k` and bits from it upwards do not meet. */
  lemma {:induction false} OrApart(a: nat, b: nat, k: nat)
    requires a < Pow2(k)
    ensures Or(a, b * Pow2(k)) == a + b * Pow2(k)
    decreases k
  {
    hide Or;
    if k == 0 {
      OrZero(b * Pow2(k));
    } else {
      var c := b * Pow2(k - 1);
      assert b * Pow2(k) == 2 * c;
      OrApart(a / 2, b, k - 1);
      OrEven(a, c);
    }
  }

  function DivField(r: nat): nat { r % 256 }

  function OddField(r: nat): nat { r / 256 % 2 }

  function MclkField(r: nat): nat { r / 512 % 2 }

  /** The divider, in halves, that the register holds. */
  function Divider(r: nat): nat {
    2 * DivField(r) + OddField(r)
  }

  lemma FieldsOf(i2sdiv: nat, odd: nat, m: nat)
    requires i2sdiv < 256 && odd < 2 && m < 2
    ensures var r := i2sdiv + (odd * 256 + m * 512);
            DivField(r) == i2sdiv && OddField(r) == odd && MclkField(r) == m && r < 0x400
  {
    var r := i2sdiv + (odd * 256 + m * 512);
    DivModUnique(r, odd + 2 * m, i2sdiv, 256);
    DivModUnique(odd + 2 * m, m, odd, 2);
    DivModUnique(r, m, i2sdiv + odd * 256, 512);
  }

  lemma Places()
    ensures Pow2(8) == 256 && Pow2(9) == 512
  {
    assert Pow2(4) == 16;
  }

  /** The three fields that are or-ed together do not overlap. */
  lemma Encoded(i2sdiv: nat, odd: nat, mclk: bool)
    requires i2sdiv < 256 && odd < 2
    ensures var r := Or(i2sdiv, Or(odd * 256, if mclk then MCLK else 0));
            DivField(r) == i2sdiv && OddField(r) == odd && MclkField(r) == (if mclk then 1 else 0) && r < 0x400
  {
    hide Or, Pow2, DivField, OddField, MclkField;
    var m := if mclk then 1 else 0;
    Places();
    OrApart(odd * 256, m, 9);
    OrApart(i2sdiv, odd + 2 * m, 8);
    FieldsOf(i2sdiv, odd, m);
  }

  // ----- the call

  /** The clock that is divided: 256 times the sample rate with a master clock, else the bits of a frame. */
  function Scaled(source: nat, mclk: bool, packet: nat): nat
    requires packet >= 1
  {
    QuotientNonNeg(source, 32 * packet);
    if mclk then source / 256 else source / (32 * packet)
  }

  /** The divider computed, in the 16-bit variable. */
  function Computed(q: nat, f: nat): nat
    requires f >= 1
  {
    Tenths(q, f) % 0x1_0000 / 10
  }

  /** The divider left in the register. */
  function Chosen(q: nat, f: nat): nat
    requires f >= 1
  {
    var d := Computed(q, f);
    if 4 <= d <= 511 then d else 4
  }

  /** The register holds the rounded ratio exactly when that is from 4 to 511. */
  lemma ChosenIsNearestIff(q: nat, f: nat, d: nat)
    requires f >= 1 && Nearest(q, f, d)
    ensures Chosen(q, f) == d <==> 4 <= d <= 511
  {
    hide Nearest, Tenths;
    TruncatingTwiceRounds(q, f);
    NearestUnique(q, f, d, Tenths(q, f) / 10);
  }

  lemma TenthsBound(q: nat, freq: nat)
    requires freq >= 8000
    ensures 8000 * (Tenths(q, freq) - 5) <= q * 10
  {
    var t := q * 10 / freq;
    assert q * 10 == t * freq + q * 10 % freq;
    MulMono(8000, freq, t);
  }

  /** The documentation promises the default for a divider above 511.  That holds except where the
      cast to 16 bits makes a small number of a large one. */
  lemma DefaultWhenTooLargeIff(source: nat, mclk: bool, packet: nat, freq: nat, d: nat)
    requires source < 0x1_0000_0000 && 1 <= packet <= 2 && 8000 <= freq
    requires Nearest(Scaled(source, mclk, packet), freq, d) && d > 511
    ensures var x := Tenths(Scaled(source, mclk, packet), freq);
            Chosen(Scaled(source, mclk, packet), freq) == 4 <==> x < 65586 || 70656 <= x < 131122 || 136192 <= x
  {
    hide Nearest, Tenths;
    var q := Scaled(source, mclk, packet);
    assert q <= 0x800_0000;
    TenthsBound(q, freq);
    TruncatingTwiceRounds(q, freq);
    NearestUnique(q, freq, d, Tenths(q, freq) / 10);
  }

  /** A source clock below 1.67 GHz is never cast to a small number. */
  lemma DefaultForSlowClocks(source: nat, mclk: bool, packet: nat, freq: nat, d: nat)
    requires source < 1_670_000_000 && 1 <= packet <= 2 && 8000 <= freq
    requires Nearest(Scaled(source, mclk, packet), freq, d) && d > 511
    ensures Chosen(Scaled(source, mclk, packet), freq) == 4
  {
    hide Nearest, Tenths, Chosen;
    TenthsBound(Scaled(source, mclk, packet), freq);
    DefaultWhenTooLargeIff(source, mclk, packet, freq, d);
  }

  // ----- the clocks that there are

  const HSE_VALUE: nat := 50_000_000  // of the connectivity line, the only one with a PLL3

  /** The multiplier that four bits of RCC_CFGR2 stand for. */
  function Multiplier(bits: nat): nat {
    if 5 < bits < 15 then bits + 2 else if bits == 15 then 20 else bits
  }

  /** The oscillator divided by PREDIV2. */
  function Divided(prediv: nat): nat {
    QuotientNonNeg(HSE_VALUE, prediv + 1);
    HSE_VALUE / (prediv + 1)
  }

  lemma DividedBound(prediv: nat)
    ensures prediv == 0 ==> Divided(prediv) == 50_000_000
    ensures prediv >= 1 ==> Divided(prediv) <= 25_000_000
  {
    var h := Divided(prediv);
    assert HSE_VALUE == h * (prediv + 1) + HSE_VALUE % (prediv + 1);
    if prediv >= 1 { MulMono(2, prediv + 1, h); }
  }

  /** The source clock from the PLL3: oscillator, PREDIV2 and multiplier. */
  function Pll3Clock(prediv: nat, mul: nat): nat {
    MulNonNeg(Divided(prediv), Multiplier(mul));
    Divided(prediv) * Multiplier(mul) * 2
  }

  /** All settings but one stay below 1.67 GHz. */
  lemma Pll3Bound(prediv: nat, mul: nat)
    requires prediv < 16 && mul < 16
    ensures Pll3Clock(prediv, mul) <= 2_000_000_000
    ensures Pll3Clock(prediv, mul) >= 1_670_000_000 <==> prediv == 0 && mul == 15
    ensures prediv == 0 && mul == 15 ==> Pll3Clock(prediv, mul) == 2_000_000_000
  {
    hide Divided;
    DividedBound(prediv);
    MulMono(Divided(prediv), if prediv == 0 then 50_000_000 else 25_000_000, Multiplier(mul));
  }

  /** Of all PLL3 settings, frame lengths, master clock outputs and sample rates, the rounded ratio
      exceeds 511 without the documented default exactly for the fastest clock, 16-bit frames,
      no master clock, and rates from 8847 to 9530 Hz. */
  lemma DefaultMissedIff(prediv: nat, mul: nat, mclk: bool, packet: nat, freq: nat, d: nat)
    requires prediv < 16 && mul < 16 && 1 <= packet <= 2 && 8000 <= freq <= 192000
    requires Nearest(Scaled(Pll3Clock(prediv, mul), mclk, packet), freq, d) && d > 511
    ensures Chosen(Scaled(Pll3Clock(prediv, mul), mclk, packet), freq) != 4 <==>
              prediv == 0 && mul == 15 && !mclk && packet == 1 && 8847 <= freq <= 9530
  {
    hide Nearest, Tenths, Chosen, Pll3Clock;
    var source := Pll3Clock(prediv, mul);
    Pll3Bound(prediv, mul);
    if source < 1_670_000_000 {
      DefaultForSlowClocks(source, mclk, packet, freq, d);
    } else {
      DefaultWhenTooLargeIff(source, mclk, packet, freq, d);
      TenthsBound(Scaled(source, mclk, packet), freq);
      if !mclk && packet == 1 { TenthsOfFastest(freq); }
    }
  }

  /** Ten times the ratio for the fastest clock without a master clock and with 16-bit frames. */
  lemma TenthsOfFastest(freq: nat)
    requires 8000 <= freq <= 192000
    ensures Tenths(62_500_000, freq) >= 65586 <==> freq <= 9530
    ensures Tenths(62_500_000, freq) < 70656 <==> freq >= 8847
    ensures Tenths(62_500_000, freq) < 131122
  {
    var t := 625_000_000 / freq;
    assert t * freq <= 625_000_000 < t * freq + freq by { assert 625_000_000 == t * freq + 625_000_000 % freq; }
    if freq <= 9530 { MulMono(freq, 9530, 65581); if t < 65581 { MulMono(t + 1, 65581, freq); } }
    if freq > 9530 { MulMono(9531, freq, 65581); if t >= 65581 { MulMono(65581, t, freq); } }
    if freq >= 8847 { MulMono(8847, freq, 70651); if t >= 70651 { MulMono(70651, t, freq); } }
    if freq < 8847 { MulMono(freq, 8846, 70651); if t < 70651 { MulMono(t + 1, 70651, freq); } }
    MulMono(8000, freq, 131117);
    if t >= 131117 { MulMono(131117, t, freq); }
  }

  /** At 9000 Hz the divider should be 6944, and is 391. */
  lemma WrapExample()
    ensures Pll3Clock(0, 15) == 2_000_000_000 && IsFreq(9000)
    ensures Nearest(Scaled(Pll3Clock(0, 15), false, 1), 9000, 6944)
    ensures Chosen(Scaled(Pll3Clock(0, 15), false, 1), 9000) == 391
  {
    Pll3Bound(0, 15);
    assert Scaled(2_000_000_000, false, 1) == 62_500_000;
    assert Tenths(62_500_000, 9000) == 69_449;
  }

  /** `div` is the divider for this clock: rounded to the nearest, if that is from 4 to 511, else 4. */
  ghost predicate Divides(clock: nat, freq: nat, div: nat) {
    && (5 <= div <= 511 ==> (2 * div - 1) * freq <= 2 * clock < (2 * div + 1) * freq)
    && (forall d: nat :: Nearest(clock, freq, d) ==> div == if 4 <= d <= 511 then d else 4)
  }

  lemma ChosenDivides(q: nat, freq: nat)
    requires freq >= 1 && q * 10 / freq + 5 < 0x1_0000
    ensures Divides(q, freq, Chosen(q, freq))
  {
    hide Nearest;
    var d := Tenths(q, freq) / 10;
    TruncatingTwiceRounds(q, freq);
    forall e: nat | Nearest(q, freq, e) ensures Chosen(q, freq) == if 4 <= e <= 511 then e else 4 {
      NearestUnique(q, freq, d, e);
    }
    NearestMeans(q, freq, d);
  }

  lemma NearestMeans(q: nat, f: nat, d: nat)
    ensures Nearest(q, f, d) <==> (2 * d - 1) * f <= 2 * q < (2 * d + 1) * f
  {
  }

  /** What the register says, field by field: the divider with its odd bit, and the master clock bit.  The clock
      divided is one 256th of the source with a master clock, else one 32nd or, for longer frames, one 64th. */
  ghost predicate AsAsked(i2spr: nat, freq: nat, mclk: bool, frame16: bool, source: nat)
    requires freq >= 1
  {
    var div, clock := 2 * (i2spr % 256) + i2spr / 256 % 2,
                      if mclk then source / 256 else if frame16 then source / 32 else source / 64;
    && i2spr == div / 2 + 256 * (div % 2) + (if mclk then 512 else 0)
    && (freq == 2 ==> div == 4)
    && (freq != 2 && clock * 10 / freq + 5 < 0x1_0000 ==> Divides(clock, freq, div))
  }

  lemma HeldAsAsked(i2spr: nat, freq: nat, mclk: bool, frame16: bool, source: nat)
    requires freq >= 1 && MclkField(i2spr) == (if mclk then 1 else 0) && i2spr < 0x400
    requires Divider(i2spr) ==
             if freq == FREQ_DEFAULT then 4 else Chosen(Scaled(source, mclk, if frame16 then 1 else 2), freq)
    ensures AsAsked(i2spr, freq, mclk, frame16, source)
  {
    hide Divides, Chosen, Divider, MclkField;
    LaidOut(i2spr);
    var clock := if mclk then source / 256 else if frame16 then source / 32 else source / 64;
    assert clock == Scaled(source, mclk, if frame16 then 1 else 2);
    if clock * 10 / freq + 5 < 0x1_0000 {
      ChosenDivides(clock, freq);
    }
  }

  lemma LaidOut(r: nat)
    requires r < 0x400
    ensures Divider(r) == 2 * (r % 256) + r / 256 % 2
    ensures r == Divider(r) / 2 + 256 * (Divider(r) % 2) + 512 * MclkField(r)
  {
    var a, b := r % 256, r / 256;
    assert r == 256 * b + a && b < 4;
    DivModUnique(r, b / 2, a + 256 * (b % 2), 512);
    DivModUnique(Divider(r), a, b % 2, 2);
  }

  method Prescaler(freq: nat, mclk: bool, frame16: bool, source: nat) returns (i2spr: nat)
    requires IsFreq(freq) && source < 0x1_0000_0000
    ensures freq == FREQ_DEFAULT ==> Divider(i2spr) == 4
    ensures freq != FREQ_DEFAULT ==>
              Divider(i2spr) == Chosen(Scaled(source, mclk, if frame16 then 1 else 2), freq)
    ensures MclkField(i2spr) == (if mclk then 1 else 0) && i2spr < 0x400
    ensures AsAsked(i2spr, freq, mclk, frame16, source)
  {
    hide Or, Tenths, DivField, OddField, MclkField, AsAsked;
    var i2sdiv, i2sodd;
    if freq == FREQ_DEFAULT {
      i2sodd := 0;
      i2sdiv := 2;
    } else {
      var packetlength := if frame16 then 1 else 2;
      var tmp: nat;
      if mclk {
        tmp := Tenths(source / 256, freq) % 0x1_0000;
      } else {
        tmp := Tenths(source / (32 * packetlength), freq) % 0x1_0000;
      }
      tmp := tmp / 10;
      i2sodd := tmp % 2;
      i2sdiv := (tmp - i2sodd) / 2;
      i2sodd := i2sodd * 256;
    }
    if i2sdiv < 2 || i2sdiv > 0xFF {
      i2sdiv := 2;
      i2sodd := 0;
    }
    Encoded(i2sdiv, i2sodd / 256, mclk);
    i2spr := Or(i2sdiv, Or(i2sodd, if mclk then MCLK else 0));
    HeldAsAsked(i2spr, freq, mclk, frame16, source);
  }
}
