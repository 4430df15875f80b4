/** `Str_FmtNbr_32`: a number written in decimal.  Reals stand for the floats. */
module FmtNbr {
  import opened Arith
  import opened Words

  function Pow10(n: nat): (r: nat)
    ensures r >= 1
  {
    if n == 0 then 1 else 10 * Pow10(n - 1)
  }

  function DigitChar(d: nat): char
    requires d < 10
  {
    '0' + d as char
  }

  predicate IsDigit(c: char) {
    '0' <= c <= '9'
  }

  /** The last `k` decimal digits of `n`, most significant first. */
  function Digits(n: nat, k: nat): (s: string)
    ensures |s| == k && forall i :: 0 <= i < k ==> IsDigit(s[i])
    decreases k
  {
    if k == 0 then "" else Digits(n / 10, k - 1) + [DigitChar(n % 10)]
  }

  /** What a string of digits says. */
  function Parse(s: string): nat {
    if s == "" then 0 else 10 * Parse(s[..|s| - 1]) + DigitValue(s[|s| - 1])
  }

  function DigitValue(c: char): nat {
    if IsDigit(c) then (c - '0') as nat else 0
  }

  datatype Number = Number(negative: bool, whole: nat, fraction: nat)

  /** Where the decimal point is, or the end. */
  function Point(s: string): (k: nat)
    ensures k <= |s|
  {
    if s == "" || s[0] == '.' then 0 else 1 + Point(s[1..])
  }

  /** A decimal number read: its sign, the digits before and those behind the point. */
  function Read(s: string): Number {
    var negative := s != "" && s[0] == '-';
    ReadUnsigned(negative, if negative then s[1..] else s)
  }

  function ReadUnsigned(negative: bool, t: string): Number {
    var k := Point(t);
    Number(negative, Parse(t[..k]), if k < |t| then Parse(t[k + 1..]) else 0)
  }

  /** The number that the last `k` digits of `n` make. */
  function Last(n: nat, k: nat): nat {
    n % Pow10(k)
  }

  /** `n` without its last `k` digits. */
  function Quot(n: nat, k: nat): nat {
    QuotientBelow(n, Pow10(k));
    n / Pow10(k)
  }

  /** `n` has more than `k` digits. */
  predicate Exceeds(n: nat, k: nat) {
    Quot(n, k) > 0
  }

  /** How many integer digits are written: all that are asked for with leading zeros, else
      no more than the number has, and one at least. */
  function Width(n: nat, dig: nat, lead: bool): nat
    decreases dig
  {
    if dig <= 1 || lead || Exceeds(n, dig - 1) then dig else Width(n, dig - 1, false)
  }

  function Magnitude(nbr: real): (r: real)
    ensures r >= 0.0
  {
    if nbr < 0.0 then -nbr else nbr
  }

  /** floor(|nbr| * 10^k). */
  function Scaled(nbr: real, k: nat): (r: nat)
  {
    MulNonNegative(Magnitude(nbr), Pow10(k) as real);
    (Magnitude(nbr) * Pow10(k) as real).Floor
  }

  function Sign(number: real, dig: nat, dp: nat): string {
    if number < 0.0 && (dig > 0 || dp > 0) then "-" else ""
  }

  function Whole(number: real, dig: nat, lead: bool): string {
    Digits(Scaled(number, 0), Width(Scaled(number, 0), dig, lead))
  }

  function Fraction(number: real, dp: nat): string {
    if dp > 0 then "." + Digits(Scaled(number, dp), dp) else ""
  }

  function Formatted(number: real, dig: nat, dp: nat, lead: bool): string {
    Sign(number, dig, dp) + (Whole(number, dig, lead) + Fraction(number, dp))
  }

  // ----- what the digits say

  lemma {:induction false} ParseDigits(n: nat, k: nat)
    ensures Parse(Digits(n, k)) == Last(n, k)
    decreases k
  {
    if k > 0 {
      ParseDigits(n / 10, k - 1);
      var s := Digits(n, k);
      assert s[..k - 1] == Digits(n / 10, k - 1);
      ModTen(n, Pow10(k - 1));
    }
  }

  lemma ModTen(n: nat, p: nat)
    requires p >= 1
    ensures n % (10 * p) == 10 * (n / 10 % p) + n % 10
  {
    var m := n / 10;
    var q := m / p;
    assert m == q * p + m % p;
    assert n == q * (10 * p) + (10 * (m % p) + n % 10) by { assert q * (10 * p) == 10 * (q * p); }
    DivModUnique(n, q, 10 * (m % p) + n % 10, 10 * p);
  }

  /** With leading zeros exactly `dig` digits are written; without, the first digit is zero
      only if it is the only one; in both cases none that counts is lost. */
  lemma {:induction false} WidthSuffices(n: nat, dig: nat, lead: bool)
    ensures var w := Width(n, dig, lead);
            && w <= dig && (dig >= 1 ==> w >= 1) && (lead ==> w == dig)
            && Last(n, w) == Last(n, dig)
            && (w > 1 && !lead ==> Exceeds(n, w - 1))
    decreases dig
  {
    hide Last, Exceeds;
    if !(dig <= 1 || lead || Exceeds(n, dig - 1)) {
      WidthSuffices(n, dig - 1, false);
      Unneeded(n, dig);
    }
  }

  /** One digit more says nothing new of a number that does not reach it. */
  lemma Unneeded(n: nat, dig: nat)
    requires dig >= 1 && !Exceeds(n, dig - 1)
    ensures Last(n, dig - 1) == Last(n, dig)
  {
    SmallRemainders(n, Pow10(dig - 1));
  }

  lemma SmallRemainders(n: nat, p: nat)
    requires p >= 1 && n / p == 0
    ensures n % p == n && n % (10 * p) == n
  {
    SmallQuotient(n, p);
    DivModUnique(n, 0, n, p);
    DivModUnique(n, 0, n, 10 * p);
  }

  lemma SmallQuotient(n: nat, p: nat)
    requires p >= 1 && n / p == 0
    ensures n < p
  {
    assert n == (n / p) * p + n % p;
  }

  lemma {:induction false} PointBehind(a: string, b: string)
    requires forall i :: 0 <= i < |a| ==> IsDigit(a[i])
    ensures Point(a) == |a| && Point(a + "." + b) == |a|
  {
    if a != "" {
      PointBehind(a[1..], b);
      assert (a + "." + b)[1..] == a[1..] + "." + b;
    }
  }

  /** Reading the output back gives the sign, floor(|nbr|) modulo 10^dig and
      floor(|nbr| * 10^dp) modulo 10^dp. */
  lemma FormattedReadsBack(nbr: real, dig: nat, dp: nat, lead: bool)
    ensures Read(Formatted(nbr, dig, dp, lead))
         == Number(nbr < 0.0 && (dig > 0 || dp > 0), Last(Scaled(nbr, 0), dig), Last(Scaled(nbr, dp), dp))
  {
    hide Scaled, Width, Parse, Read, Digits, Last;
    var n, f := Scaled(nbr, 0), Scaled(nbr, dp);
    var w := Width(n, dig, lead);
    WidthSuffices(n, dig, lead);
    ParseDigits(n, w);
    ParseDigits(f, dp);
    ReadParts(nbr < 0.0 && (dig > 0 || dp > 0), Digits(n, w), Digits(f, dp), dp > 0);
  }

  lemma ReadParts(negative: bool, a: string, b: string, point: bool)
    requires forall i :: 0 <= i < |a| ==> IsDigit(a[i])
    requires !point ==> b == ""
    ensures Read((if negative then "-" else "") + (a + (if point then "." + b else "")))
         == Number(negative, Parse(a), Parse(b))
  {
    hide *;
    var tail := if point then "." + b else "";
    var t := a + tail;
    SplitAtPoint(a, b, point);
    ReadSplit(negative, t, a, b, point);
    NoMinus(t, a, b, point);
    ReadSigned(negative, t);
    assert "" + t == t;
  }

  lemma ReadSigned(negative: bool, t: string)
    requires !negative && t != "" ==> t[0] != '-'
    ensures Read(if negative then "-" + t else t) == ReadUnsigned(negative, t)
  {
    assert ("-" + t)[1..] == t;
  }

  lemma NoMinus(t: string, a: string, b: string, point: bool)
    requires forall i :: 0 <= i < |a| ==> IsDigit(a[i])
    requires t == a + (if point then "." + b else "")
    ensures t != "" ==> t[0] != '-'
  {
  }

  lemma ReadSplit(negative: bool, t: string, a: string, b: string, point: bool)
    requires Point(t) == |a| && t[..|a|] == a
    requires if point then |a| < |t| && t[|a| + 1..] == b else |t| == |a| && b == ""
    ensures ReadUnsigned(negative, t) == Number(negative, Parse(a), Parse(b))
  {
  }

  lemma SplitAtPoint(a: string, b: string, point: bool)
    requires forall i :: 0 <= i < |a| ==> IsDigit(a[i])
    ensures var t := a + (if point then "." + b else "");
            && Point(t) == |a| && t[..|a|] == a
            && (point ==> |a| < |t| && t[|a| + 1..] == b) && (!point ==> |t| == |a|)
  {
    PointBehind(a, b);
    if point {
      var t := a + "." + b;
      assert t == a + ("." + b);
      assert t[..|a|] == a && t[|a| + 1..] == b;
    } else {
      assert a + "" == a;
    }
  }

  /** The buffer the documentation asks for holds the output and its NUL. */
  lemma FormattedFits(nbr: real, dig: nat, dp: nat, lead: bool)
    ensures |Formatted(nbr, dig, dp, lead)| + 1 <= dig + dp + 3
    ensures lead ==> |Formatted(nbr, dig, dp, lead)| ==
                       dig + (if nbr < 0.0 && (dig > 0 || dp > 0) then 1 else 0) + (if dp > 0 then 1 + dp else 0)
  {
    hide Scaled;
    WidthSuffices(Scaled(nbr, 0), dig, lead);
  }

  // ----- floors of quotients

  lemma MulNonNegative(x: real, y: real)
    requires x >= 0.0 && y >= 0.0
    ensures x * y >= 0.0
  {
  }

  lemma MulOrder(x: real, y: real, q: real)
    requires x <= y && q >= 0.0
    ensures x * q <= y * q
  {
  }

  /** Dividing by an integer and taking the floor is taking the floor and dividing. */
  lemma FloorOfQuotient(x: real, q: nat)
    requires x >= 0.0 && q >= 1
    ensures (x / q as real).Floor == x.Floor / q
  {
    var n := x.Floor;
    var k := n / q;
    var y, r := x / q as real, q as real;
    assert y * r == x;
    assert n == k * q + n % q;
    assert (k * q) as real == k as real * r;
    assert ((k + 1) * q) as real == (k + 1) as real * r;
    if y < k as real {
      MulStrict(y, k as real, r);
    }
    assert (k + 1) * q == k * q + q;
    NotReached(x, (k + 1) * q);
    if y >= (k + 1) as real {
      MulOrder((k + 1) as real, y, r);
    }
  }

  lemma NotReached(x: real, b: int)
    requires b > x.Floor
    ensures x < b as real
  {
  }

  lemma MulStrict(x: real, y: real, q: real)
    requires x < y && q > 0.0
    ensures x * q < y * q
  {
  }

  lemma ScaledStep(nbr: real, k: nat)
    ensures Scaled(nbr, k) == Scaled(nbr, k + 1) / 10
  {
    var x := Magnitude(nbr);
    var y := x * Pow10(k + 1) as real;
    assert Pow10(k + 1) as real == 10.0 * Pow10(k) as real;
    assert y == 10.0 * (x * Pow10(k) as real);
    MulNonNegative(x, Pow10(k + 1) as real);
    FloorOfQuotient(y, 10);
    assert y / 10.0 == x * Pow10(k) as real;
  }

  lemma {:induction false} ScaledMono(nbr: real, j: nat, k: nat)
    requires j <= k
    ensures Scaled(nbr, j) <= Scaled(nbr, k)
    decreases k
  {
    if j < k {
      ScaledStep(nbr, k - 1);
      ScaledMono(nbr, j, k - 1);
    }
  }

  // ----- digit by digit

  /** Place by place, the digits of a number. */
  lemma {:induction false} DigitAt(n: nat, k: nat, i: nat)
    requires i < k
    ensures Pow10(0) == 1 && Pow10(k) == 10 * Pow10(k - 1)
    ensures var q := Quot(n, k - 1 - i); q == n / Pow10(k - 1 - i) && Digits(n, k)[i] == "0123456789"[q % 10]
    decreases k
  {
    DigitsStep(n, k - 1);
    if i < k - 1 {
      DigitAt(n / 10, k - 1, i);
      QuotientTen(n, k - 1 - i);
    } else {
      QuotZero(n);
      DigitLiteral(n % 10);
    }
  }

  lemma QuotientTen(n: nat, j: nat)
    requires j >= 1
    ensures Quot(n, j) == Quot(n / 10, j - 1)
  {
    var p, m := Pow10(j - 1), n / 10;
    var q := m / p;
    assert m == q * p + m % p;
    assert n == q * (10 * p) + (10 * (m % p) + n % 10) by { assert q * (10 * p) == 10 * (q * p); }
    DivModUnique(n, q, 10 * (m % p) + n % 10, 10 * p);
  }

  lemma DigitLiteral(d: nat)
    requires d < 10
    ensures DigitChar(d) == "0123456789"[d]
  {
  }

  /** Decimal `i` is the last digit of the number with `i` + 1 decimals, cut off. */
  lemma {:induction false} DecimalAt(nbr: real, dp: nat, i: nat)
    requires i < dp
    ensures Digits(Scaled(nbr, dp), dp)[i] == "0123456789"[Scaled(nbr, i + 1) % 10]
    decreases dp
  {
    hide Digits, Scaled;
    DigitsStep(Scaled(nbr, dp), dp - 1);
    ScaledStep(nbr, dp - 1);
    if i < dp - 1 {
      DecimalAt(nbr, dp - 1, i);
    } else {
      DigitLiteral(Scaled(nbr, dp) % 10);
    }
  }

  /** The number without its sign, times a power of ten, cut off to an integer. */
  lemma ScaledIsFloor(nbr: real, k: nat)
    ensures var x := (if nbr < 0.0 then -nbr else nbr) * Pow10(k) as real;
            Scaled(nbr, k) == x.Floor && Scaled(nbr, k) as real <= x < Scaled(nbr, k) as real + 1.0
  {
  }

  /** The digits of the whole part: how many, and which. */
  ghost predicate WholeSays(n: nat, dig: nat, lead: bool, w: string) {
    && |w| <= dig && (lead ==> |w| == dig) && (dig > 0 ==> |w| > 0)
    && (!lead && |w| > 1 ==> Quot(n, |w| - 1) > 0)
    && (forall i :: 0 <= i < |w| ==> w[i] == "0123456789"[Quot(n, |w| - 1 - i) % 10])
    && Last(n, |w|) == Last(n, dig)
  }

  /** The decimals. */
  ghost predicate FractionSays(nbr: real, dp: nat, f: string) {
    |f| == dp && forall i :: 0 <= i < dp ==> f[i] == "0123456789"[Scaled(nbr, i + 1) % 10]
  }

  lemma WholeDigits(n: nat, dig: nat, lead: bool)
    ensures WholeSays(n, dig, lead, Digits(n, Width(n, dig, lead)))
  {
    hide Width, Digits, Last, Pow10, Quot;
    var w := Digits(n, Width(n, dig, lead));
    WidthSuffices(n, dig, lead);
    forall i | 0 <= i < |w| ensures w[i] == "0123456789"[Quot(n, |w| - 1 - i) % 10] {
      DigitAt(n, |w|, i);
    }
  }

  lemma FractionDigits(nbr: real, dp: nat)
    ensures FractionSays(nbr, dp, Digits(Scaled(nbr, dp), dp))
  {
    hide Scaled, Digits;
    forall i | 0 <= i < dp ensures Digits(Scaled(nbr, dp), dp)[i] == "0123456789"[Scaled(nbr, i + 1) % 10] {
      DecimalAt(nbr, dp, i);
    }
  }

  /** The output, character by character: a sign, the digits of the whole part, and the point with the decimals;
      none of the whole digits asked for is missing. */
  lemma FormattedSays(nbr: real, dig: nat, dp: nat, lead: bool)
    ensures var w, f := Whole(nbr, dig, lead), Digits(Scaled(nbr, dp), dp);
            && WholeSays(Scaled(nbr, 0), dig, lead, w) && FractionSays(nbr, dp, f)
            && Formatted(nbr, dig, dp, lead) ==
               (if nbr < 0.0 && (dig > 0 || dp > 0) then "-" else "") + (w + if dp > 0 then "." + f else "")
  {
    hide Scaled, Width, Digits, WholeSays, FractionSays;
    WholeDigits(Scaled(nbr, 0), dig, lead);
    FractionDigits(nbr, dp);
  }

  // ----- the two loops

  lemma QuotientStep(n: nat, i: nat)
    requires i >= 1
    ensures Quot(n, i) == Quot(n, i - 1) / 10
  {
    var p := Pow10(i - 1);
    var q := n / p;
    assert n == q * p + n % p;
    var r := 10 * p;
    assert n == (q / 10) * r + ((q % 10) * p + n % p) by {
      assert q == 10 * (q / 10) + q % 10;
      assert q * p == (10 * (q / 10)) * p + (q % 10) * p;
    }
    assert (q % 10) * p <= 9 * p by { MulMono(q % 10, 9, p); }
    DivModUnique(n, q / 10, (q % 10) * p + n % p, r);
  }

  lemma {:induction false} ExceedsMono(n: nat, i: nat, j: nat)
    requires i <= j && Exceeds(n, j)
    ensures Exceeds(n, i)
    decreases j
  {
    if i < j {
      QuotientStep(n, j);
      ExceedsMono(n, i, j - 1);
    }
  }

  /** Digit `i` from the right is written if and only if it lies within the width. */
  lemma {:induction false} WrittenIff(n: nat, dig: nat, lead: bool, i: nat)
    requires 1 <= i <= dig
    ensures Exceeds(n, i - 1) || dig == 1 || i == 1 || lead <==> i <= Width(n, dig, lead)
    decreases dig
  {
    hide Exceeds;
    WidthSuffices(n, dig, lead);
    if dig > 1 && !lead {
      if Exceeds(n, dig - 1) {
        ExceedsMono(n, i - 1, dig - 1);
      } else if i < dig {
        WrittenIff(n, dig - 1, false, i);
        WidthSuffices(n, dig - 1, false);
      } else {
        WidthSuffices(n, dig - 1, false);
      }
    }
  }

  lemma Pow10Real(k: nat)
    ensures Pow10(0) as real == 1.0
    ensures Pow10(k + 1) as real == Pow10(k) as real * 10.0 && Pow10(k + 1) as real / 10.0 == Pow10(k) as real
  {
  }

  /** The number without its last `k` digits, by real division. */
  method Shifted(x: real, e: real, ghost k: nat) returns (d: Word)
    requires 0.0 <= x < 0x1_0000_0000 as real && e == Pow10(k) as real
    ensures d == Quot(x.Floor, k)
  {
    FloorOfQuotient(x, Pow10(k));
    QuotientBelow(x.Floor, Pow10(k));
    d := (x / e).Floor;
  }

  /** The integer digits, written from `at` on. */
  method WriteWhole(x: real, dig: nat, lead: bool, buf: array<char>, at: nat) returns (p: nat)
    requires 0.0 <= x < 0x1_0000_0000 as real && dig >= 1 && at + dig <= buf.Length
    modifies buf
    ensures p == at + Width(x.Floor, dig, lead) && p <= at + dig
    ensures buf[at..p] == Digits(x.Floor, p - at)
    ensures forall k :: 0 <= k < buf.Length && !(at <= k < p) ==> buf[k] == old(buf[k])
  {
    hide Digits, Width, Exceeds, Pow10, Quot;
    ghost var n, w := x.Floor, Width(x.Floor, dig, lead);
    WidthSuffices(n, dig, lead);
    Pow10Real(0);
    var digExp := 1.0;
    var i := 1;
    while i < dig
      invariant 1 <= i <= dig && digExp == Pow10(i - 1) as real && buf[..] == old(buf[..])
    {
      Pow10Real(i - 1);
      digExp := digExp * 10.0;
      i := i + 1;
    }
    p := at;
    ghost var out := "";
    DigitsStep(Quot(n, dig), 0);
    i := dig;
    while i > 0
      invariant 0 <= i <= dig && (i > 0 ==> digExp == Pow10(i - 1) as real)
      invariant |out| == (if i < w then w - i else 0) && p == at + |out| && out == Digits(Quot(n, i), |out|)
      invariant p <= at + dig - i && buf[at..p] == out
      invariant forall k :: 0 <= k < buf.Length && !(at <= k < p) ==> buf[k] == old(buf[k])
      decreases i
    {
      var digNbr := Shifted(x, digExp, i - 1);
      WrittenIff(n, dig, lead, i);
      ExceedsDef(n, i - 1);
      QuotientStep(n, i);
      DigitsStep(digNbr, |out|);
      if digNbr > 0 || dig == 1 || i == 1 || lead {
        p := Append(buf, at, p, digNbr % 10);
        out := out + [DigitChar(digNbr % 10)];
      }
      if i > 1 { Pow10Real(i - 2); }
      digExp := digExp / 10.0;
      i := i - 1;
    }
    QuotZero(n);
  }

  /** One more digit character. */
  method Append(buf: array<char>, at: nat, p: nat, d: nat) returns (q: nat)
    requires at <= p < buf.Length && d < 10
    modifies buf
    ensures q == p + 1 && buf[at..q] == old(buf[at..p]) + [DigitChar(d)]
    ensures forall k :: 0 <= k < buf.Length && k != p ==> buf[k] == old(buf[k])
  {
    buf[p] := DigitChar(d);
    q := p + 1;
  }

  lemma QuotZero(n: nat)
    ensures Quot(n, 0) == n
  {
  }

  lemma ExceedsDef(n: nat, i: nat)
    ensures Exceeds(n, i) <==> Quot(n, i) > 0
  {
  }

  lemma QuotientBelow(n: nat, p: nat)
    requires p >= 1
    ensures 0 <= n / p <= n
  {
    assert n == (n / p) * p + n % p;
    MulMono(1, p, n / p);
  }

  lemma DigitsStep(n: nat, k: nat)
    ensures Digits(n, 0) == "" && Digits(n, k + 1) == Digits(n / 10, k) + [DigitChar(n % 10)]
  {
  }

  /** floor(|nbr| * 10^k), by real multiplication. */
  method Multiplied(nbr: real, x: real, e: real, ghost k: nat) returns (d: Word)
    requires x == Magnitude(nbr) && e == Pow10(k) as real && Scaled(nbr, k) < 0x1_0000_0000
    ensures d == Scaled(nbr, k)
  {
    d := (x * e).Floor;
  }

  /** The decimals, written from `at` on. */
  method WriteFraction(nbr: real, x: real, dp: nat, buf: array<char>, at: nat)
    requires x == Magnitude(nbr) && Scaled(nbr, dp) < 0x1_0000_0000 && at + dp <= buf.Length
    modifies buf
    ensures buf[at..at + dp] == Digits(Scaled(nbr, dp), dp)
    ensures forall k :: 0 <= k < buf.Length && !(at <= k < at + dp) ==> buf[k] == old(buf[k])
  {
    hide Digits, Scaled, Pow10;
    Pow10Real(0);
    var dpExp := 10.0;
    var i := 0;
    var p := at;
    DigitsStep(Scaled(nbr, 0), 0);
    while i < dp
      invariant 0 <= i <= dp && dpExp == Pow10(i + 1) as real && p == at + i
      invariant buf[at..p] == Digits(Scaled(nbr, i), i)
      invariant forall k :: 0 <= k < buf.Length && !(at <= k < p) ==> buf[k] == old(buf[k])
    {
      ScaledMono(nbr, i + 1, dp);
      ScaledStep(nbr, i);
      var digNbr := Multiplied(nbr, x, dpExp, i + 1);
      DigitsStep(digNbr, i);
      p := Append(buf, at, p, digNbr % 10);
      Pow10Real(i + 1);
      dpExp := dpExp * 10.0;
      i := i + 1;
    }
  }

  lemma ScaledZero(nbr: real)
    ensures Scaled(nbr, 0) == Magnitude(nbr).Floor
  {
  }

  /** The sign, and the number without it. */
  method WriteSign(number: real, dig: nat, dp: nat, buf: array<char>) returns (nbr: real, p: nat)
    requires buf.Length >= 1
    modifies buf
    ensures dig > 0 || dp > 0 ==> nbr == Magnitude(number)
    ensures p <= 1 && buf[..p] == Sign(number, dig, dp)
    ensures forall k :: p <= k < buf.Length ==> buf[k] == old(buf[k])
  {
    nbr, p := number, 0;
    if nbr < 0.0 {
      if dig > 0 || dp > 0 {
        nbr := -nbr;
        buf[p] := '-';
        p := p + 1;
      }
    }
  }

  /** The decimal point and the decimals, if there are any. */
  method WriteDecimals(number: real, nbr: real, dp: nat, buf: array<char>, at: nat) returns (p: nat)
    requires dp > 0 ==> nbr == Magnitude(number) && Scaled(number, dp) < 0x1_0000_0000 && at + 1 + dp <= buf.Length
    requires at <= buf.Length
    modifies buf
    ensures at <= p <= buf.Length && buf[at..p] == Fraction(number, dp)
    ensures forall k :: 0 <= k < buf.Length && !(at <= k < p) ==> buf[k] == old(buf[k])
  {
    hide Digits, Scaled;
    p := at;
    if dp > 0 {
      buf[p] := '.';
      p := p + 1;
      WriteFraction(number, nbr, dp, buf, p);
      p := p + dp;
      assert buf[at..p] == [buf[at]] + buf[at + 1..p];
    }
  }

  /** All but the NUL. */
  method WriteNumber(number: real, dig: nat, dp: nat, lead: bool, buf: array<char>) returns (p: nat)
    requires buf.Length >= dig + dp + 3
    requires dig > 0 ==> Magnitude(number) < 0x1_0000_0000 as real
    requires dp > 0 ==> Scaled(number, dp) < 0x1_0000_0000
    modifies buf
    ensures p < buf.Length && buf[..p] == Formatted(number, dig, dp, lead)
    ensures forall k :: p <= k < buf.Length ==> buf[k] == old(buf[k])
  {
    hide *;
    FormattedFits(number, dig, dp, lead);
    FormattedParts(number, dig, dp, lead);
    var nbr;
    nbr, p := WriteSign(number, dig, dp, buf);
    ghost var sign, whole, fraction := buf[..p], Whole(number, dig, lead), Fraction(number, dp);
    ghost var at := p;
    if dig > 0 {
      p := WriteWhole(nbr, dig, lead, buf, p);
    }
    assert buf[..at] == sign && buf[at..p] == whole;
    Glue(buf[..], at, p, sign, whole);
    at := p;
    p := WriteDecimals(number, nbr, dp, buf, p);
    assert buf[..at] == sign + whole;
    Glue(buf[..], at, p, sign + whole, fraction);
    assert sign + whole + fraction == sign + (whole + fraction);
  }

  /** `Str_FmtNbr_32`. */
  method StrFmtNbr32(number: real, dig: nat, dp: nat, lead: bool, nul: bool, buf: array?<char>) returns (ok: bool)
    requires dig < 0x100 && dp < 0x100
    requires buf != null ==> buf.Length >= dig + dp + 3
    requires dig > 0 ==> Magnitude(number) < 0x1_0000_0000 as real
    requires dp > 0 ==> Scaled(number, dp) < 0x1_0000_0000
    modifies if buf == null then {} else {buf}
    ensures ok <==> buf != null
    ensures ok ==>
              var f := Formatted(number, dig, dp, lead);
              && |f| < buf.Length && buf[..|f|] == f && (nul ==> buf[|f|] == '\0')
              && forall k :: |f| <= k < buf.Length && !(nul && k == |f|) ==> buf[k] == old(buf[k])
  {
    hide *;
    if buf == null {
      return false;
    }
    var p := WriteNumber(number, dig, dp, lead, buf);
    if nul {
      buf[p] := '\0';
    }
    return true;
  }

  lemma FormattedParts(number: real, dig: nat, dp: nat, lead: bool)
    ensures Formatted(number, dig, dp, lead)
         == Sign(number, dig, dp) + (Whole(number, dig, lead) + Fraction(number, dp))
    ensures dig == 0 ==> Whole(number, dig, lead) == ""
    ensures Scaled(number, 0) == Magnitude(number).Floor
    ensures Whole(number, dig, lead) == Digits(Magnitude(number).Floor, Width(Magnitude(number).Floor, dig, lead))
    ensures |Whole(number, dig, lead)| == Width(Magnitude(number).Floor, dig, lead)
    ensures |Fraction(number, dp)| == if dp > 0 then 1 + dp else 0
  {
    WidthSuffices(Scaled(number, 0), dig, lead);
    ScaledZero(number);
  }

  lemma Glue(s: string, at: nat, p: nat, a: string, b: string)
    requires at <= p <= |s| && s[..at] == a && s[at..p] == b
    ensures s[..p] == a + b
  {
  }
}
