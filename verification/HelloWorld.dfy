/** The telnet example: `HelloWorld_recv` gathers a line from the packet buffers of many
    calls in a small buffer, and answers it. */
module HelloWorld {
  const MAX_NAME_SIZE: nat := 32
  const HELLO: string := "Hello "

  predicate IsEnd(c: char) {
    c == '\r' || c == '\n'
  }

  /** Where the first line end is, or the length. */
  function End(s: string): (t: nat)
    ensures t <= |s| && (t < |s| ==> IsEnd(s[t])) && forall i :: 0 <= i < t ==> !IsEnd(s[i])
  {
    if s == "" || IsEnd(s[0]) then 0 else 1 + End(s[1..])
  }

  ghost predicate NoEnd(s: string) {
    forall i :: 0 <= i < |s| ==> !IsEnd(s[i])
  }

  function Flat(chain: seq<string>): string {
    if chain == [] then "" else Flat(chain[..|chain| - 1]) + chain[|chain| - 1]
  }

  function Upto(s: string, n: nat): (r: string)
    ensures |r| == (if |s| < n then |s| else n) && r <= s
  {
    if |s| < n then s else s[..n]
  }

  /** The octets of a line not yet answered, and what has been sent. */
  datatype Dialog = Dialog(line: string, sent: seq<string>)

  /** What is sent for a line: a greeting, and of the line what the buffer can hold. */
  function Reply(line: string): seq<string> {
    [HELLO, Upto(line, 30) + "\r\n"]
  }

  /** What one call makes of the octets `s` that it is given. */
  function Received(d: Dialog, s: string): Dialog {
    if End(s) == |s| then Dialog(d.line + s, d.sent)
    else Dialog("", d.sent + Reply(d.line + s[..End(s)]))
  }

  /** The last octet in memory of a number of 32 bits, least significant octet first. */
  function LastOctet(n: int): char
    requires 0 <= n < 0x1_0000_0000
  {
    (n / 0x100_0000) as char
  }

  datatype Status = ErrOk | ErrArg | Closed

  /** struct name, with what was written to the connection. */
  class Name {
    var length: int
    const bytes: array<char>
    var sent: seq<string>
    ghost var line: string

    ghost predicate Valid()
      reads this, bytes
    {
      && bytes.Length == MAX_NAME_SIZE && 0 <= length <= MAX_NAME_SIZE
      && length == |Upto(line, MAX_NAME_SIZE)| && bytes[..length] == Upto(line, MAX_NAME_SIZE)
    }

    ghost function Abs(): Dialog
      reads this
    {
      Dialog(line, sent)
    }

    constructor ()
      ensures Valid() && Abs() == Dialog("", [])
    {
      length := 0;
      bytes := new char[MAX_NAME_SIZE];
      sent, line := [], "";
    }

    /** One octet, kept while there is room. */
    method Keep(c: char)
      requires Valid()
      modifies this, bytes
      ensures Valid() && line == old(line) + [c] && sent == old(sent)
    {
      if length < MAX_NAME_SIZE {
        bytes[length] := c;
        length := length + 1;
        assert bytes[..length] == old(bytes[..length]) + [c];
      }
      line := line + [c];
    }

    /** The buffer is given its line end.  For an empty line the octet in front of `bytes` is read, which
        belongs to `length`. */
    method Terminate()
      requires Valid() && |line| >= 1 && IsEnd(line[|line| - 1]) && NoEnd(line[..|line| - 1])
      modifies this`length, bytes
      ensures 0 <= length <= bytes.Length && bytes[..length] == Upto(line[..|line| - 1], 30) + "\r\n"
    {
      hide Upto, NoEnd;
      ghost var kept := Upto(line[..|line| - 1], 30);
      KeptOf(line, bytes[..length]);
      assert forall i :: 0 <= i < |kept| ==> bytes[i] == bytes[..length][i] == kept[i];
      assert bytes[length - 1] == bytes[..length][length - 1];
      var front, last := if length >= 2 then bytes[length - 2] else LastOctet(length), bytes[length - 1];
      if front != '\r' || last != '\n' {
        var newLength :=
          if IsEnd(last) && length + 1 <= MAX_NAME_SIZE then length + 1
          else if length + 2 <= MAX_NAME_SIZE then length + 2
          else MAX_NAME_SIZE;
        length := newLength;
        bytes[length - 2] := '\r';
        bytes[length - 1] := '\n';
      }
      EndedBy(bytes[..length], kept);
    }

    /** The answer to a line whose end has been received. */
    method Answer()
      requires Valid() && |line| >= 1 && IsEnd(line[|line| - 1]) && NoEnd(line[..|line| - 1])
      modifies this, bytes
      ensures Valid() && line == ""
      ensures sent == old(sent) + Reply(old(line)[..|old(line)| - 1])
    {
      Terminate();
      sent := sent + [HELLO];
      sent := sent + [bytes[..length]];
      length := 0;
      line := "";
    }
  }

  /** What a buffer that holds `line` keeps of it without its end. */
  lemma KeptOf(line: string, buffer: string)
    requires |line| >= 1 && buffer == Upto(line, MAX_NAME_SIZE)
    ensures var text := line[..|line| - 1];
            && Upto(text, 30) <= buffer && 1 <= |buffer| <= MAX_NAME_SIZE && |Upto(text, 30)| <= 30
            && (|Upto(text, 30)| == |text| || |Upto(text, 30)| == 30 <= |text|) && |Upto("", MAX_NAME_SIZE)| == 0
            && (NoEnd(text) && IsEnd(line[|line| - 1]) ==>
                  if |line| <= MAX_NAME_SIZE then |buffer| == |text| + 1 && IsEnd(buffer[|buffer| - 1])
                  else |buffer| == MAX_NAME_SIZE && !IsEnd(buffer[|buffer| - 1]))
            && (NoEnd(text) && |buffer| >= 2 ==> !IsEnd(buffer[|buffer| - 2]))
  {
    var text := line[..|line| - 1];
    assert forall i :: 0 <= i < |text| ==> text[i] == line[i];
  }

  lemma EndedBy(s: string, kept: string)
    requires |s| == |kept| + 2 && s[|kept|] == '\r' && s[|kept| + 1] == '\n'
    requires forall i :: 0 <= i < |kept| ==> s[i] == kept[i]
    ensures s == kept + "\r\n"
  {
  }

  /** The octets `got` are those before `part` of buffer `j`, up to the first line end. */
  ghost predicate Progress(chain: seq<string>, j: nat, part: string, done: bool, got: string)
    requires j <= |chain|
  {
    if done then got <= Flat(chain) && End(Flat(chain)) == |got| - 1
    else got == Flat(chain[..j]) + part && End(got) == |got|
  }

  lemma {:induction false} EndAppend(a: string, b: string)
    requires End(a) == |a|
    ensures End(a + b) == |a| + End(b)
  {
    if a == "" {
      assert a + b == b;
    } else {
      assert (a + b)[1..] == a[1..] + b;
      EndAppend(a[1..], b);
    }
  }

  lemma {:induction false} FlatPrefix(chain: seq<string>, j: nat)
    requires j < |chain|
    ensures Flat(chain[..j + 1]) == Flat(chain[..j]) + chain[j]
    ensures Flat(chain[..j + 1]) <= Flat(chain)
    decreases |chain|
  {
    assert chain[..j + 1][..j] == chain[..j];
    if j + 1 < |chain| {
      FlatPrefix(chain[..|chain| - 1], j);
      assert chain[..|chain| - 1][..j + 1] == chain[..j + 1];
    } else {
      assert chain[..j + 1] == chain;
    }
  }

  lemma ProgressStart(chain: seq<string>)
    ensures Progress(chain, 0, "", false, "")
  {
  }

  lemma ProgressOctet(chain: seq<string>, j: nat, i: nat, got: string)
    requires j < |chain| && i < |chain[j]| && Progress(chain, j, chain[j][..i], false, got)
    ensures Progress(chain, j, chain[j][..i + 1], IsEnd(chain[j][i]), got + [chain[j][i]])
  {
    hide End, IsEnd, Flat;
    var c, flat := chain[j], Flat(chain);
    var next := got + [c[i]];
    assert c[..i + 1] == c[..i] + [c[i]];
    assert next == Flat(chain[..j]) + c[..i + 1];
    EndOctet(got, c[i]);
    FlatPrefix(chain, j);
    if IsEnd(c[i]) {
      assert Flat(chain[..j]) + c == next + c[i + 1..];
      assert next <= Flat(chain[..j + 1]);
      FirstEndAt(flat, got, c[i]);
    }
  }

  lemma EndOctet(got: string, c: char)
    requires End(got) == |got|
    ensures !IsEnd(c) ==> End(got + [c]) == |got| + 1
  {
    EndAppend(got, [c]);
  }

  lemma FirstEndAt(flat: string, got: string, c: char)
    requires got + [c] <= flat && End(got) == |got| && IsEnd(c)
    ensures End(flat) == |got|
  {
    hide End, IsEnd;
    var behind := flat[|got|..];
    assert flat == got + behind && behind[0] == c;
    EndAppend(got, behind);
    EndAtOnce(behind);
  }

  lemma EndAtOnce(s: string)
    requires s != "" && IsEnd(s[0])
    ensures End(s) == 0
  {
  }

  lemma ProgressBuffer(chain: seq<string>, j: nat, i: nat, done: bool, got: string)
    requires j < |chain| && i <= |chain[j]| && Progress(chain, j, chain[j][..i], done, got)
    requires (!done ==> i == |chain[j]|)
    ensures Progress(chain, j + 1, "", done, got)
  {
    FlatPrefix(chain, j);
    if !done { assert chain[j][..i] == chain[j]; }
  }

  /** What is to be done after the last buffer is what `Received` says. */
  lemma ProgressWhole(d: Dialog, chain: seq<string>, done: bool, got: string)
    requires Progress(chain, |chain|, "", done, got) && NoEnd(d.line)
    ensures var all, r := d.line + got, Received(d, Flat(chain));
            if done then
              && |all| >= 1 && IsEnd(all[|all| - 1]) && NoEnd(all[..|all| - 1])
              && r == Dialog("", d.sent + Reply(all[..|all| - 1]))
            else NoEnd(all) && r == Dialog(all, d.sent)
  {
    hide Reply, End, NoEnd, IsEnd, Flat;
    var flat := Flat(chain);
    EndIs(flat);
    assert chain[..|chain|] == chain;
    if done {
      LastOff(d.line, got, flat, End(flat));
      NoEndBoth(d.line, flat[..End(flat)]);
    } else {
      assert got == flat + "" == flat;
      assert flat[..|flat|] == flat;
      NoEndBoth(d.line, flat);
    }
  }

  lemma NoEndBoth(a: string, b: string)
    requires NoEnd(a) && NoEnd(b)
    ensures NoEnd(a + b)
  {
  }

  lemma EndIs(s: string)
    ensures End(s) < |s| ==> IsEnd(s[End(s)])
    ensures NoEnd(s[..End(s)])
  {
  }

  lemma LastOff(line: string, got: string, flat: string, e: nat)
    requires got <= flat && |got| == e + 1
    ensures var all := line + got;
            all[..|all| - 1] == line + flat[..e] && all[|all| - 1] == flat[e]
  {
  }

  // ----- whatever the split

  /** Octets without a line end may come in two calls or in one. */
  lemma TwoCallsAsOne(d: Dialog, a: string, b: string)
    requires End(a) == |a|
    ensures Received(Received(d, a), b) == Received(d, a + b)
  {
    hide Reply, End, Received;
    EndAppend(a, b);
    ReceivedNoEnd(d, a);
    if End(b) == |b| {
      ReceivedNoEnd(Dialog(d.line + a, d.sent), b);
      ReceivedNoEnd(d, a + b);
      Assoc(d.line, a, b);
    } else {
      ReceivedEnd(Dialog(d.line + a, d.sent), b);
      ReceivedEnd(d, a + b);
      TakeBehind(a, b, End(b));
      Assoc(d.line, a, b[..End(b)]);
    }
  }

  lemma ReceivedNoEnd(d: Dialog, s: string)
    requires End(s) == |s|
    ensures Received(d, s) == Dialog(d.line + s, d.sent)
  {
  }

  lemma ReceivedEnd(d: Dialog, s: string)
    requires End(s) < |s|
    ensures Received(d, s) == Dialog("", d.sent + Reply(d.line + s[..End(s)]))
  {
  }

  lemma Assoc(x: string, y: string, z: string)
    ensures x + y + z == x + (y + z)
  {
  }

  lemma TakeBehind(a: string, b: string, e: nat)
    requires e <= |b|
    ensures (a + b)[..|a| + e] == a + b[..e]
  {
  }

  function AllReceived(d: Dialog, calls: seq<seq<string>>): Dialog {
    if calls == [] then d
    else Received(AllReceived(d, calls[..|calls| - 1]), Flat(calls[|calls| - 1]))
  }

  function AllOctets(calls: seq<seq<string>>): string {
    if calls == [] then "" else AllOctets(calls[..|calls| - 1]) + Flat(calls[|calls| - 1])
  }

  /** However a line is split over calls and buffers, the dialog is as if it had come in one. */
  lemma {:induction false} SplitDoesNotMatter(d: Dialog, calls: seq<seq<string>>)
    requires calls != [] ==> End(AllOctets(calls[..|calls| - 1])) == |AllOctets(calls[..|calls| - 1])|
    ensures AllReceived(d, calls) == if calls == [] then d else Received(d, AllOctets(calls))
  {
    if calls != [] {
      var init := calls[..|calls| - 1];
      if init != [] {
        EndPrefix(AllOctets(init[..|init| - 1]), Flat(init[|init| - 1]));
        SplitDoesNotMatter(d, init);
        TwoCallsAsOne(d, AllOctets(init), Flat(calls[|calls| - 1]));
      } else {
        assert AllOctets(calls) == Flat(calls[|calls| - 1]);
      }
    }
  }

  lemma {:induction false} EndPrefix(a: string, b: string)
    requires End(a + b) == |a + b|
    ensures End(a) == |a|
  {
    if End(a) < |a| {
      assert (a + b)[End(a)] == a[End(a)];
    }
  }

  /** The answer to a line, from an empty buffer: its first 30 octets or
      fewer, then CR LF; and the buffer is empty again. */
  lemma LineIsAnswered(sent: seq<string>, calls: seq<seq<string>>, text: string, rest: string)
    requires calls != [] && AllOctets(calls) == text + rest && rest != "" && (rest[0] == '\r' || rest[0] == '\n')
    requires forall i :: 0 <= i < |text| ==> text[i] != '\r' && text[i] != '\n'
    requires |AllOctets(calls[..|calls| - 1])| <= |text|
    ensures AllReceived(Dialog("", sent), calls)
         == Dialog("", sent + ["Hello ", (if |text| <= 30 then text else text[..30]) + "\r\n"])
  {
    hide Reply, Flat, End, AllOctets, AllReceived, Received, Upto;
    var before, all := AllOctets(calls[..|calls| - 1]), text + rest;
    OctetsPrefix(calls, |calls| - 1);
    EndOfLine(before, text, rest);
    SplitDoesNotMatter(Dialog("", sent), calls);
    ReceivedEnd(Dialog("", sent), all);
    ReplyIs(text);
    assert "" + text == text;
  }

  lemma EndOfLine(before: string, text: string, rest: string)
    requires NoEnd(text) && rest != "" && IsEnd(rest[0]) && before <= text + rest && |before| <= |text|
    ensures End(before) == |before| && End(text + rest) == |text| && (text + rest)[..|text|] == text
  {
    var all := text + rest;
    assert forall i :: 0 <= i < |before| ==> before[i] == all[i] == text[i];
    EndAppend(text, rest);
    EndAtOnce(rest);
    assert all[..|text|] == text;
  }

  /** A greeting, and of the line thirty octets or fewer, ended by CR LF. */
  lemma ReplyIs(line: string)
    ensures Reply(line) == ["Hello ", (if |line| <= 30 then line else line[..30]) + "\r\n"]
  {
    assert Upto(line, 30) == if |line| <= 30 then line else line[..30];
  }

  /** `HelloWorld_recv`; no packet buffer at all stands for the null pointer. */
  method Recv(name: Name?, chain: seq<string>, errOk: bool) returns (status: Status)
    requires name != null ==> name.Valid()
    requires name != null ==> NoEnd(name.line)
    modifies name, if name == null then {} else {name.bytes}
    ensures name != null ==> name.Valid() && NoEnd(name.line)
    ensures status == if chain == [] then (if errOk then Closed else ErrOk) else if name == null then ErrArg else ErrOk
    ensures name != null && chain != [] ==> name.Abs() == Received(old(name.Abs()), Flat(chain))
    ensures name != null && chain == [] ==> name.Abs() == old(name.Abs())
  {
    hide Progress, End, Flat, Received, IsEnd, Reply;
    if chain != [] {
      if name == null {
        return ErrArg;
      }
      var done, j := false, 0;
      ghost var got := "";
      ProgressStart(chain);
      while j < |chain|
        invariant 0 <= j <= |chain| && name.Valid() && name.sent == old(name.sent) && name.line == old(name.line) + got
        invariant Progress(chain, j, "", done, got)
      {
        var c, i := chain[j], 0;
        assert c[..0] == "";
        while i < |c| && !done
          invariant 0 <= i <= |c| && name.Valid() && name.sent == old(name.sent) && name.line == old(name.line) + got
          invariant Progress(chain, j, c[..i], done, got)
        {
          ProgressOctet(chain, j, i, got);
          done := IsEnd(c[i]);
          name.Keep(c[i]);
          got := got + [c[i]];
          i := i + 1;
        }
        ProgressBuffer(chain, j, i, done, got);
        j := j + 1;
      }
      ProgressWhole(old(name.Abs()), chain, done, got);
      if done {
        name.Answer();
      }
      return ErrOk;
    } else if errOk {
      return Closed;
    }
    return ErrOk;
  }

  // ----- a line over many calls

  /** The octets of `calls` are a line, its end, and what comes behind that in the last call. */
  ghost predicate IsLine(calls: seq<seq<string>>, text: string, rest: string) {
    && calls != [] && (forall k :: 0 <= k < |calls| ==> calls[k] != [])
    && (forall i :: 0 <= i < |text| ==> text[i] != '\r' && text[i] != '\n')
    && rest != "" && (rest[0] == '\r' || rest[0] == '\n')
    && AllOctets(calls) == text + rest && |AllOctets(calls[..|calls| - 1])| <= |text|
  }

  lemma {:induction false} OctetsPrefix(calls: seq<seq<string>>, j: nat)
    requires j < |calls|
    ensures AllOctets(calls[..j + 1]) == AllOctets(calls[..j]) + Flat(calls[j])
    ensures AllOctets(calls[..j]) <= AllOctets(calls[..|calls| - 1])
    ensures AllOctets(calls[..j + 1]) <= AllOctets(calls)
    decreases |calls|
  {
    var init := calls[..|calls| - 1];
    assert calls[..j + 1][..j] == calls[..j];
    if j < |init| {
      OctetsPrefix(init, j);
      assert init[..j + 1] == calls[..j + 1] && init[..j] == calls[..j];
    } else {
      assert calls[..j + 1] == calls;
    }
  }

  /** Before call `k` no line end has come. */
  lemma NoEndBefore(calls: seq<seq<string>>, text: string, rest: string, k: nat)
    requires IsLine(calls, text, rest) && k < |calls|
    ensures End(AllOctets(calls[..k])) == |AllOctets(calls[..k])|
  {
    hide Flat;
    var before, all := AllOctets(calls[..k]), text + rest;
    OctetsPrefix(calls, k);
    assert before <= all && |before| <= |text|;
    assert forall i :: 0 <= i < |before| ==> before[i] == all[i] == text[i];
  }

  /** Before call `k` the line so far is kept. */
  lemma LineSoFar(sent: seq<string>, calls: seq<seq<string>>, text: string, rest: string, k: nat)
    requires IsLine(calls, text, rest) && k < |calls|
    ensures AllReceived(Dialog("", sent), calls[..k]) == Dialog(AllOctets(calls[..k]), sent)
  {
    hide Flat, Reply, End, AllOctets, IsLine, AllReceived, Received;
    var before := calls[..k];
    NoEndBefore(calls, text, rest, k);
    if k == 0 {
      NothingReceived(Dialog("", sent), calls);
      NoOctets();
    } else {
      NoEndBefore(calls, text, rest, k - 1);
      assert before[..k - 1] == calls[..k - 1];
      SplitDoesNotMatter(Dialog("", sent), before);
      ReceivedNoEnd(Dialog("", sent), AllOctets(before));
    }
  }

  lemma NoOctets()
    ensures AllOctets([]) == ""
  {
  }

  /** However a line is split over calls and buffers, the calls answer it once, with its first 30
      octets, and leave the buffer empty. */
  method RecvLine(name: Name, calls: seq<seq<string>>, ghost text: string, ghost rest: string)
    requires name.Valid() && name.line == "" && IsLine(calls, text, rest)
    modifies name, name.bytes
    ensures name.Valid() && name.length == 0
    ensures name.sent == old(name.sent) + ["Hello ", (if |text| <= 30 then text else text[..30]) + "\r\n"]
  {
    hide Received, Flat, End, Reply, AllReceived, AllOctets;
    ghost var sent := name.sent;
    var k := 0;
    NothingReceived(Dialog("", sent), calls);
    while k < |calls|
      invariant 0 <= k <= |calls| && name.Valid() && NoEnd(name.line)
      invariant name.Abs() == AllReceived(Dialog("", sent), calls[..k])
    {
      LineSoFar(sent, calls, text, rest, k);
      var status := Recv(name, calls[k], true);
      OneMoreCall(Dialog("", sent), calls, k);
      k := k + 1;
    }
    assert calls[..k] == calls;
    LineIsAnswered(sent, calls, text, rest);
  }

  lemma NothingReceived(d: Dialog, calls: seq<seq<string>>)
    ensures AllReceived(d, calls[..0]) == d
  {
  }

  lemma OneMoreCall(d: Dialog, calls: seq<seq<string>>, k: nat)
    requires k < |calls|
    ensures AllReceived(d, calls[..k + 1]) == Received(AllReceived(d, calls[..k]), Flat(calls[k]))
  {
    assert calls[..k + 1][..k] == calls[..k];
  }
}
