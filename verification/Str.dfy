/** `Str_Len`, `Str_Cmp`, `Str_Cmp_N` and `Str_Str` of lib_str.c over NUL-terminated strings
    in memory, against the lexicographic order of octet sequences. */
module Str {
  import opened Words

  /** Octets from `p` to the next NUL, or to the end of memory. */
  function Len(m: seq<Octet>, p: nat): (n: nat)
    ensures p <= |m| ==> p + n <= |m|
    decreases |m| - p
  {
    if p >= |m| || m[p] == 0 then 0 else 1 + Len(m, p + 1)
  }

  predicate Terminated(m: seq<Octet>, p: nat) {
    p + Len(m, p) < |m|
  }

  /** The string at `p`, without its NUL. */
  function StrAt(m: seq<Octet>, p: nat): seq<Octet>
    requires Terminated(m, p)
  {
    m[p..p + Len(m, p)]
  }

  lemma StrParts(m: seq<Octet>, p: nat)
    requires Terminated(m, p)
    ensures m[p] == 0 ==> StrAt(m, p) == []
    ensures m[p] != 0 ==> Terminated(m, p + 1) && StrAt(m, p) == [m[p]] + StrAt(m, p + 1)
  {
  }

  /** The octets before the first NUL, and no others, are the string. */
  lemma {:induction false} StrAtIff(m: seq<Octet>, p: nat, n: nat)
    ensures p + n < |m| && m[p + n] == 0 && (forall i :: p <= i < p + n ==> m[i] != 0)
            <==> Terminated(m, p) && p + n <= |m| && StrAt(m, p) == m[p..p + n]
    decreases n
  {
    if p < |m| && m[p] != 0 {
      if n > 0 {
        StrAtIff(m, p + 1, n - 1);
      }
    }
  }

  ghost predicate NoNul(s: seq<Octet>) {
    forall i :: 0 <= i < |s| ==> s[i] != 0
  }

  lemma {:induction false} StrNoNul(m: seq<Octet>, p: nat)
    requires Terminated(m, p)
    ensures NoNul(StrAt(m, p))
    decreases |m| - p
  {
    StrParts(m, p);
    if m[p] != 0 {
      StrNoNul(m, p + 1);
    }
  }

  // ----- lexicographic order

  /** The difference of the first octets that differ, an ended string counting as NUL. */
  function Order(s: seq<Octet>, t: seq<Octet>): int
    decreases |s|
  {
    if s == [] then (if t == [] then 0 else 0 - t[0])
    else if t == [] then s[0]
    else if s[0] != t[0] then s[0] as int - t[0] as int
    else Order(s[1..], t[1..])
  }

  /** `s` comes before `t`: it is a proper prefix, or smaller at the first difference. */
  ghost predicate Before(s: seq<Octet>, t: seq<Octet>) {
    s < t || exists k :: 0 <= k < |s| && k < |t| && s[..k] == t[..k] && s[k] < t[k]
  }

  lemma {:induction false} OrderZeroIffEqual(s: seq<Octet>, t: seq<Octet>)
    requires NoNul(s) && NoNul(t)
    ensures Order(s, t) == 0 <==> s == t
    decreases |s|
  {
    if s != [] && t != [] && s[0] == t[0] {
      OrderZeroIffEqual(s[1..], t[1..]);
      assert s == [s[0]] + s[1..] && t == [t[0]] + t[1..];
    }
  }

  lemma {:induction false} OrderAntisymmetric(s: seq<Octet>, t: seq<Octet>)
    ensures Order(s, t) == -Order(t, s)
    decreases |s|
  {
    if s != [] && t != [] && s[0] == t[0] {
      OrderAntisymmetric(s[1..], t[1..]);
    }
  }

  lemma {:induction false} OrderTransitive(s: seq<Octet>, t: seq<Octet>, u: seq<Octet>)
    requires NoNul(s) && NoNul(t) && NoNul(u) && Order(s, t) <= 0 && Order(t, u) <= 0
    ensures Order(s, u) <= 0
    decreases |s|
  {
    if s != [] && t != [] && u != [] && s[0] == t[0] == u[0] {
      OrderTransitive(s[1..], t[1..], u[1..]);
    }
  }

  /** The sign of the difference is the lexicographic order. */
  lemma {:induction false} OrderNegativeIffBefore(s: seq<Octet>, t: seq<Octet>)
    requires NoNul(s) && NoNul(t)
    ensures Order(s, t) < 0 <==> Before(s, t)
    decreases |s|
  {
    if s != [] && t != [] && s[0] == t[0] {
      OrderNegativeIffBefore(s[1..], t[1..]);
      BeforeTails(s, t);
    } else if s != [] && t != [] && s[0] < t[0] {
      assert s[..0] == t[..0];
    }
  }

  /** The value is the difference of the first octets that differ, a NUL being what follows the last. */
  lemma {:induction false} OrderIsDifference(s: seq<Octet>, t: seq<Octet>, k: nat)
    requires NoNul(s) && NoNul(t) && k <= |s| && k <= |t| && s[..k] == t[..k]
    requires k < |s| && k < |t| ==> s[k] != t[k]
    ensures Order(s, t) == (if k < |s| then s[k] as int else 0) - (if k < |t| then t[k] as int else 0)
    decreases k
  {
    if k > 0 {
      assert s[0] == s[..k][0] == t[..k][0] == t[0];
      assert s[1..][..k - 1] == s[..k][1..] == t[..k][1..] == t[1..][..k - 1];
      OrderIsDifference(s[1..], t[1..], k - 1);
    }
  }

  lemma BeforeTails(s: seq<Octet>, t: seq<Octet>)
    requires s != [] && t != [] && s[0] == t[0]
    ensures Before(s, t) <==> Before(s[1..], t[1..])
  {
    var a, b := s[1..], t[1..];
    assert s == [s[0]] + a && t == [t[0]] + b;
    if k :| 0 <= k < |a| && k < |b| && a[..k] == b[..k] && a[k] < b[k] {
      assert s[..k + 1] == [s[0]] + a[..k] && t[..k + 1] == [t[0]] + b[..k];
      assert s[k + 1] < t[k + 1];
    }
    if k :| 0 <= k < |s| && k < |t| && s[..k] == t[..k] && s[k] < t[k] {
      assert a[..k - 1] == s[..k][1..] && b[..k - 1] == t[..k][1..];
      assert a[k - 1] < b[k - 1];
    }
  }

  // ----- the routines

  /** `Str_Len`. */
  method StrLen(ram: array<Octet>, pstr: Word) returns (len: nat)
    requires pstr != 0 ==> Terminated(ram[..], pstr)
    ensures len == if pstr == 0 then 0 else |StrAt(ram[..], pstr)|
  {
    len := 0;
    if pstr == 0 {
      return;
    }
    while ram[pstr + len] != 0
      invariant Terminated(ram[..], pstr + len) && len + Len(ram[..], pstr + len) == Len(ram[..], pstr)
      decreases ram.Length - len
    {
      len := len + 1;
    }
  }

  ghost function CmpAt(m: seq<Octet>, a: nat, b: nat): int
    requires Terminated(m, a) && Terminated(m, b)
  {
    Order(StrAt(m, a), StrAt(m, b))
  }

  lemma CmpStep(m: seq<Octet>, a: nat, b: nat)
    requires Terminated(m, a) && Terminated(m, b)
    ensures m[a] == m[b] != 0 ==>
              Terminated(m, a + 1) && Terminated(m, b + 1) && CmpAt(m, a, b) == CmpAt(m, a + 1, b + 1)
    ensures m[a] != m[b] || m[a] == 0 ==> CmpAt(m, a, b) == m[a] as int - m[b] as int
  {
    StrParts(m, a);
    StrParts(m, b);
  }

  lemma NullStep(m: seq<Octet>, a: nat)
    requires Terminated(m, a)
    ensures Order([], StrAt(m, a)) == -(m[a] as int) && Order(StrAt(m, a), []) == m[a]
  {
    StrParts(m, a);
  }

  /** `Str_Cmp`: the lexicographic difference of two strings, a null pointer counting as the
      empty string. */
  method StrCmp(ram: array<Octet>, p1: Word, p2: Word) returns (val: int)
    requires (p1 != 0 ==> Terminated(ram[..], p1)) && (p2 != 0 ==> Terminated(ram[..], p2))
    ensures p1 != 0 && p2 != 0 ==> val == Order(StrAt(ram[..], p1), StrAt(ram[..], p2))
    ensures p1 == 0 ==> val == if p2 == 0 then 0 else Order([], StrAt(ram[..], p2))
    ensures p1 != 0 && p2 == 0 ==> val == Order(StrAt(ram[..], p1), [])
    ensures -0x8000 <= val < 0x8000
  {
    hide Len, StrAt, Order;
    if p1 == 0 {
      if p2 == 0 {
        return 0;
      }
      NullStep(ram[..], p2);
      return 0 - ram[p2] as int;
    }
    if p2 == 0 {
      NullStep(ram[..], p1);
      return ram[p1];
    }
    var a: nat, b: nat := p1, p2;
    while ram[a] == ram[b] && ram[a] != 0
      invariant Terminated(ram[..], a) && Terminated(ram[..], b) && CmpAt(ram[..], a, b) == CmpAt(ram[..], p1, p2)
      decreases ram.Length - a
    {
      CmpStep(ram[..], a, b);
      a, b := a + 1, b + 1;
    }
    CmpStep(ram[..], a, b);
    if ram[a] != ram[b] {
      val := ram[a] as int - ram[b] as int;
    } else {
      val := 0;
    }
  }

  function Upto(s: seq<Octet>, n: nat): seq<Octet> {
    if n < |s| then s[..n] else s
  }

  ghost function CmpNAt(m: seq<Octet>, a: nat, b: nat, n: nat): int
    requires Terminated(m, a) && Terminated(m, b)
  {
    Order(Upto(StrAt(m, a), n), Upto(StrAt(m, b), n))
  }

  lemma UptoTail(o: Octet, s: seq<Octet>, n: nat)
    requires n > 0
    ensures var r := Upto([o] + s, n); r != [] && r[0] == o && r[1..] == Upto(s, n - 1)
  {
    assert Upto([o] + s, n) == [o] + Upto(s, n - 1);
  }

  lemma CmpNStep(m: seq<Octet>, a: nat, b: nat, n: nat)
    requires Terminated(m, a) && Terminated(m, b)
    ensures n == 0 ==> CmpNAt(m, a, b, n) == 0
    ensures n > 0 && m[a] == m[b] != 0 ==>
              Terminated(m, a + 1) && Terminated(m, b + 1) && CmpNAt(m, a, b, n) == CmpNAt(m, a + 1, b + 1, n - 1)
    ensures n > 0 && (m[a] != m[b] || m[a] == 0) ==> CmpNAt(m, a, b, n) == m[a] as int - m[b] as int
  {
    StrParts(m, a);
    StrParts(m, b);
    if n > 0 && m[a] == m[b] != 0 {
      UptoTail(m[a], StrAt(m, a + 1), n);
      UptoTail(m[b], StrAt(m, b + 1), n);
    }
  }

  /** `Str_Cmp_N`: the lexicographic difference of the first `n` octets. */
  method StrCmpN(ram: array<Octet>, p1: Word, p2: Word, n: nat) returns (val: int)
    requires (p1 != 0 ==> Terminated(ram[..], p1)) && (p2 != 0 ==> Terminated(ram[..], p2))
    ensures n == 0 ==> val == 0
    ensures n > 0 && p1 == 0 ==> val == if p2 == 0 then 0 else Order([], StrAt(ram[..], p2))
    ensures n > 0 && p1 != 0 && p2 == 0 ==> val == Order(StrAt(ram[..], p1), [])
    ensures p1 != 0 && p2 != 0 ==> val == CmpNAt(ram[..], p1, p2, n)
  {
    hide Len, StrAt, Order, Upto, CmpNAt;
    if n == 0 {
      if p1 != 0 && p2 != 0 {
        CmpNStep(ram[..], p1, p2, 0);
      }
      return 0;
    }
    if p1 == 0 {
      if p2 == 0 {
        return 0;
      }
      NullStep(ram[..], p2);
      return 0 - ram[p2] as int;
    }
    if p2 == 0 {
      NullStep(ram[..], p1);
      return ram[p1];
    }
    var a: nat, b: nat, len := p1, p2, 0;
    while ram[a] == ram[b] && ram[a] != 0 && len < n
      invariant Terminated(ram[..], a) && Terminated(ram[..], b) && 0 <= len <= n
      invariant CmpNAt(ram[..], a, b, n - len) == CmpNAt(ram[..], p1, p2, n)
      decreases ram.Length - a
    {
      CmpNStep(ram[..], a, b, n - len);
      a, b, len := a + 1, b + 1, len + 1;
    }
    CmpNStep(ram[..], a, b, n - len);
    if len == n {
      return 0;
    }
    if ram[a] != ram[b] {
      val := ram[a] as int - ram[b] as int;
    } else {
      val := 0;
    }
  }

  /** The comparison is zero exactly when the strings agree for `n` octets, or up to a NUL
      that both have before. */
  lemma CmpNZeroIff(m: seq<Octet>, a: nat, b: nat, n: nat)
    requires Terminated(m, a) && Terminated(m, b)
    ensures CmpNAt(m, a, b, n) == 0 <==> Upto(StrAt(m, a), n) == Upto(StrAt(m, b), n)
  {
    StrNoNul(m, a);
    StrNoNul(m, b);
    OrderZeroIffEqual(Upto(StrAt(m, a), n), Upto(StrAt(m, b), n));
  }

  /** By octets: zero exactly when none of the first `n` octets differ, up to a NUL in both. */
  lemma CmpNByOctets(m: seq<Octet>, a: nat, b: nat, n: nat)
    requires Terminated(m, a) && Terminated(m, b)
    ensures CmpNAt(m, a, b, n) == 0 <==> AgreeFor(m, a, b, n)
    decreases n
  {
    hide CmpNAt;
    CmpNStep(m, a, b, n);
    if n > 0 && m[a] == m[b] != 0 {
      CmpNByOctets(m, a + 1, b + 1, n - 1);
    }
  }

  predicate AgreeFor(m: seq<Octet>, a: nat, b: nat, n: nat)
    requires a < |m| && b < |m|
    decreases n
  {
    n == 0 || (m[a] == m[b] && (m[a] == 0 || (a + 1 < |m| && b + 1 < |m| && AgreeFor(m, a + 1, b + 1, n - 1))))
  }

  // ----- search

  ghost predicate OccursAt(s: seq<Octet>, t: seq<Octet>, i: int) {
    0 <= i <= |s| - |t| && s[i..i + |t|] == t
  }

  lemma {:induction false} StrTail(m: seq<Octet>, p: nat, i: nat)
    requires Terminated(m, p) && i <= |StrAt(m, p)|
    ensures Terminated(m, p + i) && StrAt(m, p + i) == StrAt(m, p)[i..]
    decreases i
  {
    if i > 0 {
      StrParts(m, p);
      StrTail(m, p + 1, i - 1);
    }
  }

  lemma StrFits(m: seq<Octet>, p: nat)
    requires Terminated(m, p)
    ensures p + |StrAt(m, p)| < |m|
  {
  }

  lemma OccursWithin(s: seq<Octet>, t: seq<Octet>)
    ensures forall i :: OccursAt(s, t, i) ==> 0 <= i <= |s| - |t|
  {
  }

  /** Comparing at `ix` decides whether the search string occurs there. */
  lemma CompareDecides(m: seq<Octet>, p: nat, q: nat, ix: nat)
    requires Terminated(m, p) && Terminated(m, q) && ix + |StrAt(m, q)| <= |StrAt(m, p)|
    ensures Terminated(m, p + ix)
    ensures CmpNAt(m, p + ix, q, |StrAt(m, q)|) == 0 <==> OccursAt(StrAt(m, p), StrAt(m, q), ix)
  {
    var s, t := StrAt(m, p), StrAt(m, q);
    StrTail(m, p, ix);
    CmpNZeroIff(m, p + ix, q, |t|);
    assert Upto(s[ix..], |t|) == s[ix..ix + |t|] && Upto(t, |t|) == t;
  }

  /** `Str_Str`: the first place where a non-empty string occurs, null exactly when there is
      none; an empty string is found at the end. */
  method StrStr(ram: array<Octet>, pstr: Word, psrch: Word) returns (r: nat)
    requires pstr != 0 && psrch != 0 ==> Terminated(ram[..], pstr) && Terminated(ram[..], psrch)
    requires ram.Length < 0x1_0000_0000
    ensures pstr == 0 || psrch == 0 ==> r == 0
    ensures pstr != 0 && psrch != 0 ==>
              var s, t := StrAt(ram[..], pstr), StrAt(ram[..], psrch);
              && (t == [] ==> r == pstr + |s|)
              && (t != [] && r == 0 ==> forall i :: !OccursAt(s, t, i))
              && (t != [] && r != 0 ==> OccursAt(s, t, r - pstr) && forall i :: i < r - pstr ==> !OccursAt(s, t, i))
  {
    if pstr == 0 {
      return 0;
    }
    if psrch == 0 {
      return 0;
    }
    hide *;
    ghost var m := ram[..];
    ghost var s, t := StrAt(m, pstr), StrAt(m, psrch);
    StrFits(m, pstr);
    OccursWithin(s, t);
    var len := StrLen(ram, pstr);
    var srchLen := StrLen(ram, psrch);
    if srchLen > len {
      return 0;
    }
    if srchLen == 0 {
      return pstr + len;
    }
    var found, ix := Search(ram, pstr, psrch, len, srchLen);
    if !found {
      return 0;
    }
    return pstr + ix;
  }

  /** The search proper, place after place. */
  method Search(ram: array<Octet>, pstr: Word, psrch: Word, len: nat, srchLen: nat) returns (found: bool, at: nat)
    requires ram.Length < 0x1_0000_0000 && pstr != 0 && psrch != 0 && Terminated(ram[..], pstr)
    requires Terminated(ram[..], psrch)
    requires len == |StrAt(ram[..], pstr)| && srchLen == |StrAt(ram[..], psrch)| && 0 < srchLen <= len
    ensures found ==> OccursAt(StrAt(ram[..], pstr), StrAt(ram[..], psrch), at)
    ensures forall i :: 0 <= i < at || (!found && 0 <= i <= len - srchLen) ==>
                          !OccursAt(StrAt(ram[..], pstr), StrAt(ram[..], psrch), i)
  {
    hide *;
    ghost var m := ram[..];
    ghost var s, t := StrAt(m, pstr), StrAt(m, psrch);
    StrFits(m, pstr);
    var last, ix := len - srchLen, 0;
    found, at := false, 0;
    while !found && ix <= last
      invariant 0 <= ix <= last + 1 && ix == (if found then at + 1 else at)
      invariant found ==> OccursAt(s, t, at)
      invariant forall i :: 0 <= i < at ==> !OccursAt(s, t, i)
      decreases last + 1 - ix
    {
      CompareDecides(m, pstr, psrch, ix);
      var cmp := StrCmpN(ram, pstr + ix, psrch, srchLen);
      found := cmp == 0;
      at := if found then ix else ix + 1;
      ix := ix + 1;
    }
  }
}
