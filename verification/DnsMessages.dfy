/** The code that writes and reads names and queries in packet buffers. */
module DnsMessages {
  import opened Bytes
  import opened DnsNames

  /** Copies `src` into `dst` at `at`. */
  method CopyTo(dst: array<byte>, at: nat, src: seq<byte>)
    requires at + |src| <= dst.Length
    modifies dst
    ensures dst[..at + |src|] == old(dst[..at]) + src
    ensures forall i :: 0 <= i < at || at + |src| <= i < dst.Length ==> dst[i] == old(dst[i])
  {
    for i := 0 to |src|
      invariant forall k :: 0 <= k < dst.Length ==>
        dst[k] == if at <= k < at + i then src[k - at] else old(dst[k])
    {
      dst[at + i] := src[i];
    }
  }

  /** Where the names written so far are in the message. */
  class LabelTable {
    var labels: seq<Entry>

    constructor ()
      ensures labels == []
    {
      labels := [];
    }

    method GetPos(name: seq<byte>) returns (pos: int)
      ensures pos == match Find(labels, name) case None => -1 case Some(p) => p
      ensures pos < 0 ==> pos == -1 && forall i :: 0 <= i < |labels| ==> labels[i].name != name
      ensures pos >= 0 ==> exists i :: 0 <= i < |labels| && labels[i] == Entry(name, pos)
                                       && forall k :: 0 <= k < i ==> labels[k].name != name
    {
      for i := 0 to |labels|
        invariant Find(labels, name) == Find(labels[i..], name)
        invariant forall k :: 0 <= k < i ==> labels[k].name != name
      {
        if labels[i].name == name {
          assert labels[i] == Entry(name, labels[i].pos);
          return labels[i].pos;
        }
        assert labels[i..][1..] == labels[i + 1..];
      }
      return -1;
    }

    method Add(name: seq<byte>, pos: nat) returns (r: int)
      modifies this
      ensures Some(labels) == Learn(Some(old(labels)), name, pos)
      ensures r == (if |old(labels)| == MAX_LABELS then -1 else 0)
      ensures labels == old(labels) + if r == 0 then [Entry(name, pos)] else []
    {
      if |labels| == MAX_LABELS {
        return -1;
      }
      labels := labels + [Entry(name, pos)];
      return 0;
    }
  }

  ghost function TableOf(t: LabelTable?): Table
    reads t
  {
    if t == null then None else Some(t.labels)
  }

  /** The position of `name` in the table, if there is one; -1 if it is not known. */
  method Known(table: LabelTable?, name: seq<byte>) returns (ref: int)
    ensures ref == match Look(TableOf(table), name) case None => -1 case Some(pos) => pos
  {
    ref := -1;
    if table != null {
      ref := table.GetPos(name);
    }
  }

  /** The index of the first dot from `start` on, or the length. */
  method FindDot(name: seq<byte>, start: nat) returns (at: nat)
    requires start <= |name|
    ensures start <= at <= |name| && at == start + DotAt(name[start..])
  {
    at := start;
    while at < |name| && name[at] != DOT
      invariant start <= at <= |name|
      invariant start + DotAt(name[start..]) == at + DotAt(name[at..])
    {
      assert name[at..][1..] == name[at + 1..];
      at := at + 1;
    }
  }

  /** What writing a name comes to, the limit on its length included. */
  ghost function WriteName(m: seq<byte>, name: seq<byte>, t: Table, bufLen: nat): Written {
    if |name| > MAX_NAME then Failed(-2, t) else Write(m, name, t, bufLen)
  }

  /** A writer that returned `r` has done what `w` says. */
  ghost predicate Came(w: Written, r: int, buf: seq<byte>, t: Table) {
    match w
    case Failed(code, after) => r == code && t == after
    case Done(m, after) => r == |m| && m <= buf && t == after
  }

  /** The closing zero would go past the limit. */
  ghost predicate Overruns(start: nat, name: seq<byte>, t: Table, bufLen: nat) {
    |name| <= MAX_NAME && Spills(start, name, t, bufLen)
  }

  /** What is written fits a buffer of `room` bytes. */
  ghost predicate InRoom(w: Written, room: nat) {
    w.Done? ==> |w.message| <= room
  }

  /**
   * Writes `name` at `start`: the position after it, or an error. The closing zero may go one byte
   * past the limit, so when the buffer ends there the name must not be one of those that overrun it.
   */
  method NameToLabels(buf: array<byte>, bufLen: nat, start: nat, name: seq<byte>, table: LabelTable?) returns (r: int)
    requires bufLen <= buf.Length && start <= buf.Length && NoZero(name)
    requires bufLen == buf.Length ==> !Overruns(start, name, TableOf(table), bufLen)
    modifies buf, if table == null then {} else {table}
    ensures Came(WriteName(old(buf[..start]), name, old(TableOf(table)), bufLen), r, buf[..], TableOf(table))
    ensures forall i :: 0 <= i < start || bufLen < i < buf.Length ==> buf[i] == old(buf[i])
    ensures r == -1 ==> !LabelsFit(name)
    ensures r < 0 && r != -1 ==> r == -2 && (|name| > 255 || start + |name| + 2 > bufLen)
    ensures |name| > 255 ==> r == -2
  {
    if |name| > MAX_NAME {
      return -2;
    }
    if Write(buf[..start], name, TableOf(table), bufLen).Failed? {
      FailsBecause(buf[..start], name, TableOf(table), bufLen);
    }
    hide Write, Came, NoZero, InRoom, Spills;
    WriteStaysInRoom(buf[..start], name, TableOf(table), bufLen, buf.Length);
    var j, at, stop := start, 0, false;
    r := 0;
    assert name[0..] == name;
    while !stop
      invariant at <= |name| && start <= j <= buf.Length
      invariant forall i :: 0 <= i < start || bufLen < i < buf.Length ==> buf[i] == old(buf[i])
      invariant stop ==> Came(Write(old(buf[..start]), name, old(TableOf(table)), bufLen), r, buf[..], TableOf(table))
      invariant !stop ==> Write(buf[..j], name[at..], TableOf(table), bufLen)
                          == Write(old(buf[..start]), name, old(TableOf(table)), bufLen)
      invariant InRoom(Write(old(buf[..start]), name, old(TableOf(table)), bufLen), buf.Length)
      decreases |name| - at, !stop
    {
      r, j, at, stop := NextLabel(buf, bufLen, j, name, at, table);
    }
  }

  lemma WriteStaysInRoom(m: seq<byte>, name: seq<byte>, t: Table, bufLen: nat, room: nat)
    requires bufLen <= room && NoZero(name) && |name| <= MAX_NAME
    requires bufLen == room ==> !Overruns(|m|, name, t, bufLen)
    ensures InRoom(Write(m, name, t, bufLen), room)
  {
    hide Write, Spills, NoZero;
    SpillsExact(m, name, t, bufLen);
  }

  /** Writes a pointer, or the label at `at`; it stops after a pointer, the last label or an error. */
  method NextLabel(buf: array<byte>, bufLen: nat, start: nat, name: seq<byte>, at: nat, table: LabelTable?)
    returns (r: int, j: nat, next: nat, stop: bool)
    requires bufLen <= buf.Length && start <= buf.Length && at <= |name|
    requires InRoom(Write(buf[..start], name[at..], TableOf(table), bufLen), buf.Length)
    modifies buf, if table == null then {} else {table}
    ensures start <= j <= buf.Length && at <= next <= |name|
    ensures var was := old(Write(buf[..start], name[at..], TableOf(table), bufLen));
            if stop then Came(was, r, buf[..], TableOf(table))
            else at < next && j <= bufLen && was == Write(buf[..j], name[next..], TableOf(table), bufLen)
    ensures forall i :: 0 <= i < start || bufLen < i < buf.Length ==> buf[i] == old(buf[i])
  {
    hide Write, Look, Learn, Terminate, DotAt, PointerTo, NoZero;
    j, next, stop := start, at, true;
    WriteStep(buf[..j], name[at..], TableOf(table), bufLen);
    var ref := Known(table, name[at..]);
    if ref >= 0 {
      if j + 2 > bufLen {
        r := -2;
      } else {
        CopyTo(buf, j, PointerTo(ref));
        r := j + 2;
      }
      return;
    }
    r, j, next, stop := FirstLabel(buf, bufLen, start, name, at, table);
  }

  /** Writes the label at `at`; the name that starts with it is not in the table. */
  method FirstLabel(buf: array<byte>, bufLen: nat, start: nat, name: seq<byte>, at: nat, table: LabelTable?)
    returns (r: int, j: nat, next: nat, stop: bool)
    requires bufLen <= buf.Length && start <= buf.Length && at <= |name|
    requires InRoom(Write(buf[..start], name[at..], TableOf(table), bufLen), buf.Length)
    requires Look(TableOf(table), name[at..]).None?
    modifies buf, if table == null then {} else {table}
    ensures start <= j <= buf.Length && at <= next <= |name|
    ensures var was := old(Write(buf[..start], name[at..], TableOf(table), bufLen));
            if stop then Came(was, r, buf[..], TableOf(table))
            else at < next && j <= bufLen && was == Write(buf[..j], name[next..], TableOf(table), bufLen)
    ensures forall i :: 0 <= i < start || bufLen < i < buf.Length ==> buf[i] == old(buf[i])
  {
    hide Write, Look, Learn, Terminate, DotAt, PointerTo, NoZero;
    j, next, stop := start, at, true;
    WriteStep(buf[..j], name[at..], TableOf(table), bufLen);
    var dot := FindDot(name, at);
    var n: nat := dot - at;
    if n > 63 {
      r := -1;
      return;
    }
    if j + n + 1 > bufLen {
      r := -2;
      return;
    }
    PutLabel(buf, j, name, at, dot, table);
    if dot == |name| {
      r := CloseName(buf, j + n + 1);
    } else {
      assert name[at..][n + 1..] == name[dot + 1..];
      r, j, next, stop := 0, j + n + 1, dot + 1, false;
    }
  }

  /** Writes the label `name[at..dot]`, and remembers the name that starts with it. */
  method PutLabel(buf: array<byte>, j: nat, name: seq<byte>, at: nat, dot: nat, table: LabelTable?)
    requires at <= dot <= |name| && dot - at <= 63 && j + (dot - at) + 1 <= buf.Length
    modifies buf, if table == null then {} else {table}
    ensures buf[..j + (dot - at) + 1] == old(buf[..j]) + [(dot - at) as byte] + name[at..][..dot - at]
    ensures TableOf(table) == Learn(old(TableOf(table)), name[at..], j)
    ensures forall i :: 0 <= i < j || j + (dot - at) + 1 <= i < buf.Length ==> buf[i] == old(buf[i])
  {
    if table != null {
      var added := table.Add(name[at..], j);
    }
    assert name[at..][..dot - at] == name[at..dot];
    ghost var before := buf[..j];
    CopyTo(buf, j, [(dot - at) as byte] + name[at..dot]);
    AppendPieces(before, [(dot - at) as byte], name[at..dot]);
  }

  /** Ends the name with a zero, if it does not end with one. */
  method CloseName(buf: array<byte>, j: nat) returns (r: nat)
    requires 0 < j <= buf.Length && |Terminate(buf[..j])| <= buf.Length
    modifies buf
    ensures r <= buf.Length && buf[..r] == Terminate(old(buf[..j]))
    ensures forall i :: 0 <= i < buf.Length && i != j ==> buf[i] == old(buf[i])
  {
    r := j;
    if buf[j - 1] != 0 {
      buf[j] := 0;
      r := j + 1;
    }
  }

  /** What reading after a first pointer comes to: the end is after the pointer. */
  ghost function EndAt(r: Option<Parsed>, nameEnd: int): Option<Parsed> {
    if r.None? || nameEnd < 0 then r else Some(Parsed(r.value.text, nameEnd))
  }

  /** Appends the `n` bytes at `j` to the text, after a dot if it is not empty; keeps room for a zero. */
  method PutText(packet: array<byte>, length: nat, j: nat, n: nat, nameOut: array<byte>, start: nat)
    returns (ok: bool, cp: nat)
    requires length <= packet.Length && packet != nameOut && start <= nameOut.Length
    modifies nameOut
    ensures ok <==> start + |Sep(old(nameOut[..start]))| + n < nameOut.Length && j + n <= length
    ensures ok ==> cp <= nameOut.Length
                   && nameOut[..cp] == old(nameOut[..start] + Sep(nameOut[..start])) + packet[..length][j..j + n]
  {
    cp := start;
    if cp > 0 {
      if cp + 1 >= nameOut.Length {
        return false, cp;
      }
      nameOut[cp] := DOT;
      cp := cp + 1;
    }
    if cp + n >= nameOut.Length || j + n > length {
      return false, cp;
    }
    assert nameOut[..cp] == old(nameOut[..start] + Sep(nameOut[..start]));
    assert packet[..length][j..j + n] == packet[j..j + n];
    CopyTo(nameOut, cp, packet[j..j + n]);
    cp := cp + n;
    return true, cp;
  }

  /** Reads the name at `idx` of the first `length` bytes into `nameOut`, and moves `idx` past it. */
  method NameParse(packet: array<byte>, length: nat, idx: nat, nameOut: array<byte>) returns (r: int, next: nat)
    requires length <= packet.Length && packet != nameOut
    modifies nameOut
    ensures match Parse(packet[..length], idx, 0, [], nameOut.Length)
            case None => r == -1 && next == idx
            case Some(n) => r == 0 && next == n.end && n.text + [0] <= nameOut[..]
  {
    hide Parse;
    ghost var p, room := packet[..length], nameOut.Length;
    var nameEnd: int, j: nat, ptrCount: nat, cp: nat := -1, idx, 0, 0;
    next := idx;
    while true
      invariant next == idx && ptrCount <= length && cp <= room
      invariant EndAt(Parse(p, j, ptrCount, nameOut[..cp], room), nameEnd) == Parse(p, idx, 0, [], room)
      decreases length - ptrCount, length - j
    {
      ParseStep(p, j, ptrCount, nameOut[..cp], room);
      if j >= length {
        return -1, idx;
      }
      var labelLen := packet[j];
      j := j + 1;
      if labelLen == 0 {
        break;
      }
      if labelLen >= 64 {
        if j >= length {
          return -1, idx;
        }
        var low := packet[j];
        j := j + 1;
        if nameEnd < 0 {
          nameEnd := j;
        }
        j := Target(labelLen, low);
        if j >= length {
          return -1, idx;
        }
        ptrCount := ptrCount + 1;
        if ptrCount > length {
          return -1, idx;
        }
        continue;
      }
      var n := labelLen as nat;
      var ok;
      ok, cp := PutText(packet, length, j, n, nameOut, cp);
      if !ok {
        return -1, idx;
      }
      j := j + n;
    }
    if cp >= nameOut.Length {
      return -1, idx;
    }
    nameOut[cp] := 0;
    return 0, if nameEnd < 0 then j else nameEnd;
  }

  /** One turn of the reading loop. */
  lemma ParseStep(p: seq<byte>, j: nat, jumps: nat, out: seq<byte>, room: nat)
    requires jumps <= |p|
    ensures Parse(p, j, jumps, out, room) ==
            if j >= |p| then None
            else if p[j] == 0 then if |out| >= room then None else Some(Parsed(out, j + 1))
            else if p[j] >= 64 then
              if j + 1 >= |p| || Target(p[j], p[j + 1]) >= |p| || jumps + 1 > |p| then None
              else EndAt(Parse(p, Target(p[j], p[j + 1]), jumps + 1, out, room), j + 2)
            else if |out| + |Sep(out)| + p[j] as int >= room || j + 1 + p[j] as int > |p| then None
            else Parse(p, j + 1 + p[j] as int, jumps, out + Sep(out) + p[j + 1..j + 1 + p[j] as int], room)
  {
  }

  const BOTH_WAYS: seq<byte> := [0xc0, 5, 1, 'a' as byte, 0, 1, 'b' as byte, 0xc0, 2]

  /** Pointers back and forth: behind the label `b` in this packet one leads back to the label `a`, and the
      one at its start leads to `b`. Four bytes are room enough for `b.a` and its zero. */
  lemma BothWays()
    ensures var ba := ['b' as byte, '.' as byte, 'a' as byte];
            && Parse(BOTH_WAYS, 0, 0, [], 4) == Some(Parsed(ba, 2))
            && Parse(BOTH_WAYS, 5, 0, [], 4) == Some(Parsed(ba, 9)) && Parse(BOTH_WAYS, 5, 0, [], 3) == None
  {
    hide Parse;
    BackToA(0, 4);
    BackToA(0, 3);
    BackToA(1, 4);
    ParseStep(BOTH_WAYS, 0, 0, [], 4);
  }

  lemma BackToA(jumps: nat, room: nat)
    requires jumps <= 1 && 3 <= room <= 4
    ensures Parse(BOTH_WAYS, 5, jumps, [], room)
            == if room == 3 then None else Some(Parsed(['b' as byte, '.' as byte, 'a' as byte], 9))
  {
    hide Parse;
    var p, b := BOTH_WAYS, ['b' as byte];
    var ba := ['b' as byte, '.' as byte, 'a' as byte];
    assert p[6..7] == b && [] + Sep([]) + b == b;
    ParseStep(p, 5, jumps, [], room);
    ParseStep(p, 7, jumps, b, room);
    assert p[3..4] == ['a' as byte] && b + Sep(b) + ['a' as byte] == ba;
    ParseStep(p, 2, jumps + 1, b, room);
    ParseStep(p, 4, jumps + 1, ba, room);
  }
}
