/** Names in DNS messages: what a message spells, and what the writer makes it spell. */
module DnsNames {
  import opened Bytes

  const DOT: byte := '.' as byte
  const MAX_LABELS: nat := 128
  const MAX_NAME: nat := 255

  // Reading

  datatype Parsed = Parsed(text: seq<byte>, end: nat)

  /** Where a pointer points: its lower 14 bits. */
  function Target(high: byte, low: byte): nat {
    (high as int % 64) * 256 + low as int
  }

  /** The dot before all labels but the first. */
  function Sep(out: seq<byte>): seq<byte> {
    if |out| == 0 then [] else [DOT]
  }

  /**
   * Reads the name at `j` after `jumps` jumps, with `out` already read, into `room` bytes: the text,
   * and the position after the name where reading began.
   */
  function Parse(p: seq<byte>, j: nat, jumps: nat, out: seq<byte>, room: nat): Option<Parsed>
    requires jumps <= |p|
    decreases |p| - jumps, |p| - j
  {
    if j >= |p| then None
    else if p[j] == 0 then if |out| >= room then None else Some(Parsed(out, j + 1))
    else if p[j] >= 64 then
      if j + 1 >= |p| || Target(p[j], p[j + 1]) >= |p| || jumps + 1 > |p| then None
      else
        match Parse(p, Target(p[j], p[j + 1]), jumps + 1, out, room)
        case None => None
        case Some(r) => Some(Parsed(r.text, j + 2))
    else
      var n := p[j] as int;
      if |out| + |Sep(out)| + n >= room || j + 1 + n > |p| then None
      else Parse(p, j + 1 + n, jumps, out + Sep(out) + p[j + 1..j + 1 + n], room)
  }

  /** The position after the name at `j`, which ends at a zero or with a pointer. */
  function End(p: seq<byte>, j: nat): nat
    decreases |p| - j
  {
    if j >= |p| then j
    else if p[j] == 0 then j + 1
    else if p[j] >= 64 then j + 2
    else End(p, j + 1 + p[j] as int)
  }

  /** From `j` on the message spells these labels with at most `jumps` pointers. Two bytes, the first of which
      is no length, point to where their lower 14 bits say. */
  ghost predicate Spells(p: seq<byte>, j: nat, labels: seq<seq<byte>>, jumps: nat)
    decreases |labels|, jumps
  {
    j < |p| &&
    if p[j] == 0 then |labels| == 0
    else if p[j] >= 64 then
      && jumps > 0 && j + 1 < |p|
      && Spells(p, (p[j] as int * 256 + p[j + 1] as int) % 0x4000, labels, jumps - 1)
    else
      var n := p[j] as int;
      && |labels| > 0 && j + 1 + n <= |p| && labels[0] == p[j + 1..j + 1 + n]
      && Spells(p, j + 1 + n, labels[1..], jumps)
  }

  /** Labels appended to `out`, with dots between. */
  ghost function JoinOnto(out: seq<byte>, labels: seq<seq<byte>>): (r: seq<byte>)
    ensures |r| >= |out|
    decreases |labels|
  {
    if |labels| == 0 then out else JoinOnto(out + Sep(out) + labels[0], labels[1..])
  }

  lemma TargetIs(high: byte, low: byte)
    ensures Target(high, low) == (high as int * 256 + low as int) % 0x4000
  {
  }

  /** What a message spells is what is read from it. */
  lemma {:induction false} SpellsParse(p: seq<byte>, j: nat, labels: seq<seq<byte>>, jumps: nat, left: nat,
      out: seq<byte>, room: nat)
    requires Spells(p, j, labels, left) && jumps + left <= |p| && |JoinOnto(out, labels)| < room
    ensures Parse(p, j, jumps, out, room) == Some(Parsed(JoinOnto(out, labels), End(p, j)))
    decreases |labels|, left
  {
    if p[j] == 0 {
    } else if p[j] >= 64 {
      TargetIs(p[j], p[j + 1]);
      SpellsParse(p, Target(p[j], p[j + 1]), labels, jumps + 1, left - 1, out, room);
    } else {
      var n := p[j] as int;
      SpellsParse(p, j + 1 + n, labels[1..], jumps, left, out + Sep(out) + labels[0], room);
    }
  }

  /** What is read from a message is what it spells. */
  lemma {:induction false} ParseSpells(p: seq<byte>, j: nat, jumps: nat, out: seq<byte>, room: nat)
    returns (labels: seq<seq<byte>>)
    requires jumps <= |p| && Parse(p, j, jumps, out, room).Some?
    ensures Spells(p, j, labels, |p| - jumps) && |JoinOnto(out, labels)| < room
    decreases |p| - jumps, |p| - j
  {
    labels := [];
    if p[j] >= 64 {
      TargetIs(p[j], p[j + 1]);
      labels := ParseSpells(p, Target(p[j], p[j + 1]), jumps + 1, out, room);
    } else if p[j] > 0 {
      var n := p[j] as int;
      var first := p[j + 1..j + 1 + n];
      var rest := ParseSpells(p, j + 1 + n, jumps, out + Sep(out) + first, room);
      labels := [first] + rest;
      assert labels[1..] == rest;
    }
  }

  /**
   * A name can be read if and only if the message spells some labels there, with no more pointers than it
   * has bytes, and they fit the room with dots between them: the text is these labels, and reading goes
   * on where they end.
   */
  lemma ParseExact(p: seq<byte>, j: nat, room: nat)
    ensures Parse(p, j, 0, [], room).Some? <==>
              exists labels :: Spells(p, j, labels, |p|) && |JoinOnto([], labels)| < room
    ensures forall labels :: Spells(p, j, labels, |p|) && |JoinOnto([], labels)| < room ==>
              Parse(p, j, 0, [], room) == Some(Parsed(JoinOnto([], labels), End(p, j)))
  {
    hide Parse, Spells, JoinOnto, End;
    if Parse(p, j, 0, [], room).Some? {
      var labels := ParseSpells(p, j, 0, [], room);
    }
    forall labels | Spells(p, j, labels, |p|) && |JoinOnto([], labels)| < room
      ensures Parse(p, j, 0, [], room) == Some(Parsed(JoinOnto([], labels), End(p, j)))
    {
      SpellsParse(p, j, labels, 0, |p|, [], room);
    }
  }

  lemma {:induction false} ParseEnd(p: seq<byte>, j: nat, jumps: nat, out: seq<byte>, room: nat)
    requires jumps <= |p| && Parse(p, j, jumps, out, room).Some?
    ensures Parse(p, j, jumps, out, room).value.end == End(p, j)
    decreases |p| - j
  {
    if 0 < p[j] < 64 {
      var n := p[j] as int;
      ParseEnd(p, j + 1 + n, jumps, out + Sep(out) + p[j + 1..j + 1 + n], room);
    }
  }

  /** More message, and more jumps allowed, change nothing. */
  lemma SpellsMore(p: seq<byte>, q: seq<byte>, j: nat, labels: seq<seq<byte>>, jumps: nat, more: nat)
    requires Spells(p, j, labels, jumps) && p <= q && jumps <= more
    ensures j < |p| && Spells(q, j, labels, more) && End(q, j) == End(p, j)
  {
    hide End;
    MoreSpells(p, q, j, labels, jumps, more);
    MoreEnds(p, q, j, labels, jumps);
  }

  lemma {:induction false} MoreSpells(p: seq<byte>, q: seq<byte>, j: nat, labels: seq<seq<byte>>, jumps: nat, more: nat)
    requires Spells(p, j, labels, jumps) && p <= q && jumps <= more
    ensures Spells(q, j, labels, more)
    decreases |labels|, jumps
  {
    if p[j] >= 64 {
      var target := (p[j] as int * 256 + p[j + 1] as int) % 0x4000;
      assert q[j] == p[j] && q[j + 1] == p[j + 1];
      MoreSpells(p, q, target, labels, jumps - 1, more - 1);
    } else if p[j] > 0 {
      var n := p[j] as int;
      assert q[j + 1..j + 1 + n] == p[j + 1..j + 1 + n];
      MoreSpells(p, q, j + 1 + n, labels[1..], jumps, more);
    }
  }

  lemma {:induction false} MoreEnds(p: seq<byte>, q: seq<byte>, j: nat, labels: seq<seq<byte>>, jumps: nat)
    requires Spells(p, j, labels, jumps) && p <= q
    ensures End(q, j) == End(p, j)
    decreases |labels|
  {
    if 0 < p[j] < 64 {
      MoreEnds(p, q, j + 1 + p[j] as int, labels[1..], jumps);
    }
  }

  // Writing

  datatype Entry = Entry(name: seq<byte>, pos: nat)

  /** The position of the first entry for `name`. */
  function Find(entries: seq<Entry>, name: seq<byte>): (r: Option<nat>)
    ensures r.Some? ==> exists i :: 0 <= i < |entries| && entries[i] == Entry(name, r.value)
  {
    if |entries| == 0 then None
    else if entries[0].name == name then
      assert entries[0] == Entry(name, entries[0].pos);
      Some(entries[0].pos)
    else
      var r := Find(entries[1..], name);
      var rest := entries[1..];
      assert r.Some? ==> exists i :: 0 <= i < |rest| && rest[i] == Entry(name, r.value) && entries[i + 1] == rest[i];
      r
  }

  /** A table, if there is one. */
  type Table = Option<seq<Entry>>

  function Look(t: Table, name: seq<byte>): Option<nat> {
    if t.None? then None else Find(t.value, name)
  }

  /** Remembers where `name` is written; a full table stays as it is. */
  function Learn(t: Table, name: seq<byte>, pos: nat): Table {
    if t.None? || |t.value| == MAX_LABELS then t else Some(t.value + [Entry(name, pos)])
  }

  /** The index of the first dot, or the length. */
  function DotAt(name: seq<byte>): (k: nat)
    ensures k <= |name| && (k < |name| ==> name[k] == DOT)
    ensures forall i :: 0 <= i < k ==> name[i] != DOT
  {
    if |name| == 0 || name[0] == DOT then 0 else 1 + DotAt(name[1..])
  }

  /** The two bytes of a pointer; only 16 bits are kept, of which two mark it. */
  function PointerTo(pos: nat): (p: seq<byte>)
    ensures |p| == 2
  {
    [(0xc0 + pos / 256 % 64) as byte, (pos % 256) as byte]
  }

  /** A pointer is the word 0xc000 with the position in its lower 14 bits. It reads back as its target just
      when that is in the first 0x4000 bytes. */
  lemma PointerReadsBack(pos: nat)
    ensures PointerTo(pos)[0] as int * 256 + PointerTo(pos)[1] as int == 0xc000 + pos % 0x4000
    ensures PointerTo(pos)[0] >= 64
    ensures Target(PointerTo(pos)[0], PointerTo(pos)[1]) == pos <==> pos < 0x4000
  {
  }

  /** The message after writing, or an error; the table is kept in either case. */
  datatype Written = Done(message: seq<byte>, table: Table) | Failed(code: int, table: Table)

  /** Closes the name, unless an empty last label already has. */
  function Terminate(m: seq<byte>): (r: seq<byte>)
    requires |m| > 0
    ensures m <= r && r[|r| - 1] == 0 && |r| <= |m| + 1
  {
    if m[|m| - 1] != 0 then m + [0] else m
  }

  /** Writes `name` at the end of the message `m`. */
  function Write(m: seq<byte>, name: seq<byte>, t: Table, bufLen: nat): (w: Written)
    ensures w.Failed? ==> w.code == -1 || w.code == -2
    decreases |name|
  {
    match Look(t, name)
    case Some(pos) => if |m| + 2 > bufLen then Failed(-2, t) else Done(m + PointerTo(pos), t)
    case None =>
      var k := DotAt(name);
      if k > 63 then Failed(-1, t)
      else if |m| + k + 1 > bufLen then Failed(-2, t)
      else
        var next := m + [k as byte] + name[..k];
        var learnt := Learn(t, name, |m|);
        if k == |name| then Done(Terminate(next), learnt) else Write(next, name[k + 1..], learnt, bufLen)
  }

  /** One turn of the writing loop. */
  lemma WriteStep(m: seq<byte>, name: seq<byte>, t: Table, bufLen: nat)
    ensures var k := DotAt(name);
            var next := m + [(k % 256) as byte] + name[..k];
            Write(m, name, t, bufLen) ==
            if Look(t, name).Some? then
              if |m| + 2 > bufLen then Failed(-2, t) else Done(m + PointerTo(Look(t, name).value), t)
            else if k > 63 then Failed(-1, t)
            else if |m| + k + 1 > bufLen then Failed(-2, t)
            else if k == |name| then Done(Terminate(next), Learn(t, name, |m|))
            else Write(next, name[k + 1..], Learn(t, name, |m|), bufLen)
  {
    hide Look, Find, PointerTo, Terminate, Learn, DotAt;
  }

  /** The labels of a name, up to the first empty one, which is written as the end of the name. */
  ghost function Split(name: seq<byte>): seq<seq<byte>>
    decreases |name|
  {
    var k := DotAt(name);
    if k == 0 then [] else if k < |name| then [name[..k]] + Split(name[k + 1..]) else [name]
  }

  /** No label is empty. */
  ghost predicate WellFormed(name: seq<byte>)
    decreases |name|
  {
    var k := DotAt(name);
    k == |name| || (k > 0 && WellFormed(name[k + 1..]))
  }

  ghost predicate NoZero(name: seq<byte>) {
    forall i :: 0 <= i < |name| ==> name[i] != 0
  }

  /** The name without a dot at its end. */
  function Stripped(name: seq<byte>): seq<byte> {
    if |name| > 0 && name[|name| - 1] == DOT then name[..|name| - 1] else name
  }

  lemma StrippedJoin(a: seq<byte>, rest: seq<byte>)
    ensures Stripped(a + [DOT] + rest) == if |rest| == 0 then a else a + [DOT] + Stripped(rest)
  {
    if |rest| == 0 {
      assert (a + [DOT] + rest)[..|a|] == a;
    }
  }

  lemma JoinCons(out: seq<byte>, first: seq<byte>, labels: seq<seq<byte>>)
    ensures JoinOnto(out, [first] + labels) == JoinOnto(out + Sep(out) + first, labels)
  {
    assert ([first] + labels)[1..] == labels;
  }

  /** The labels of a name, joined, are the name. */
  lemma {:induction false} JoinSplit(out: seq<byte>, name: seq<byte>)
    requires WellFormed(name)
    ensures JoinOnto(out, Split(name)) == if |name| == 0 then out else out + Sep(out) + Stripped(name)
    decreases |name|
  {
    hide JoinOnto, Stripped, DotAt;
    var k := DotAt(name);
    if k < |name| {
      var first, rest := name[..k], name[k + 1..];
      JoinCons(out, first, Split(rest));
      JoinSplit(out + Sep(out) + first, rest);
      assert name == first + [DOT] + rest;
      StrippedJoin(first, rest);
      Regroup(out + Sep(out), first, Stripped(rest));
    } else {
      JoinWhole(out, name);
    }
  }

  lemma Regroup(out: seq<byte>, first: seq<byte>, rest: seq<byte>)
    ensures out + first + [DOT] + rest == out + (first + [DOT] + rest)
  {
  }

  lemma JoinWhole(out: seq<byte>, name: seq<byte>)
    requires DotAt(name) == |name|
    ensures JoinOnto(out, Split(name)) == if |name| == 0 then out else out + Sep(out) + Stripped(name)
  {
    if |name| > 0 {
      JoinCons(out, name, []);
    }
  }

  /** With an empty label inside less is left of a name than its text, unless it is but a dot. */
  lemma {:induction false} JoinShort(out: seq<byte>, name: seq<byte>)
    requires !WellFormed(name) && (|out| > 0 || name != [DOT])
    ensures |JoinOnto(out, Split(name))| < |out| + |Sep(out)| + |Stripped(name)|
    decreases |name|
  {
    hide JoinOnto, Stripped;
    var k := DotAt(name);
    if k == 0 {
      NothingLeft(out, name);
    } else {
      var first, rest := name[..k], name[k + 1..];
      JoinCons(out, first, Split(rest));
      JoinShort(out + Sep(out) + first, rest);
      assert name == first + [DOT] + rest;
      StrippedJoin(first, rest);
    }
  }

  lemma NothingLeft(out: seq<byte>, name: seq<byte>)
    requires |name| > 0 && name[0] == DOT
    ensures JoinOnto(out, []) == out && (name != [DOT] ==> |Stripped(name)| > 0)
  {
    assert |name| == 1 ==> name == [DOT];
  }

  /** The labels of a name, joined, are the name just when none is empty, or all there is is a dot. */
  lemma TextKept(name: seq<byte>)
    ensures JoinOnto([], Split(name)) == Stripped(name) <==> WellFormed(name) || name == [DOT]
    ensures |JoinOnto([], Split(name))| <= |name|
  {
    hide Split, WellFormed;
    assert [] + Sep([]) + Stripped(name) == Stripped(name);
    if WellFormed(name) {
      JoinSplit([], name);
    } else if name == [DOT] {
      DotText();
    } else {
      JoinShort([], name);
    }
  }

  lemma DotText()
    ensures JoinOnto([], Split([DOT])) == [] == Stripped([DOT])
  {
    assert DotAt([DOT]) == 0;
  }

  // The table of labels

  /** What is left of the name of the entry can be read at its position. */
  ghost predicate Sound(e: Entry, m: seq<byte>) {
    e.pos < |m| && Spells(m, e.pos, Split(e.name), e.pos)
  }

  ghost predicate AllSound(t: Table, m: seq<byte>) {
    t.Some? ==> forall i :: 0 <= i < |t.value| ==> Sound(t.value[i], m)
  }

  lemma SoundMore(e: Entry, m: seq<byte>, more: seq<byte>)
    requires Sound(e, m) && m <= more
    ensures Sound(e, more)
  {
    SpellsMore(m, more, e.pos, Split(e.name), e.pos, e.pos);
  }

  lemma AllSoundMore(t: Table, m: seq<byte>, more: seq<byte>)
    requires AllSound(t, m) && m <= more
    ensures AllSound(t, more)
  {
    if t.Some? {
      forall i | 0 <= i < |t.value|
        ensures Sound(t.value[i], more)
      {
        SoundMore(t.value[i], m, more);
      }
    }
  }

  /** The entries for names no longer than `limit` are sound and lie before `start`. */
  ghost predicate SoundUpTo(t: Table, m: seq<byte>, limit: nat, start: nat) {
    t.Some? ==> forall i :: 0 <= i < |t.value| && |t.value[i].name| <= limit ==>
      t.value[i].pos < start && Sound(t.value[i], m)
  }

  /** `after` has all entries of `t`, and more for names no longer than `limit` at `start` or later. */
  ghost predicate Grown(t: Table, after: Table, m: seq<byte>, limit: nat, start: nat) {
    && (t.Some? <==> after.Some?)
    && (t.Some? ==>
      && t.value <= after.value
      && forall i :: |t.value| <= i < |after.value| ==>
        |after.value[i].name| <= limit && start <= after.value[i].pos < |m| && Sound(after.value[i], m))
  }

  /** Learning a name shorter names do not mind. */
  lemma LearntUpTo(t: Table, m: seq<byte>, name: seq<byte>, next: seq<byte>, limit: nat, start: nat)
    requires SoundUpTo(t, m, |name|, start) && limit < |name| && m <= next
    ensures SoundUpTo(Learn(t, name, |m|), next, limit, start) && (Learn(t, name, |m|).None? <==> t.None?)
  {
    hide Sound;
    var learnt := Learn(t, name, |m|);
    if t.Some? {
      forall i | 0 <= i < |learnt.value| && |learnt.value[i].name| <= limit
        ensures learnt.value[i].pos < start && Sound(learnt.value[i], next)
      {
        assert i < |t.value| && learnt.value[i] == t.value[i];
        SoundMore(t.value[i], m, next);
      }
    }
  }

  /** What has grown from a table that learnt `name` has grown from the table before. */
  lemma LearntGrown(t: Table, m: seq<byte>, name: seq<byte>, after: Table, done: seq<byte>, limit: nat, start: nat)
    requires Grown(Learn(t, name, |m|), after, done, limit, start) && limit <= |name|
    requires start <= |m| < |done| && Sound(Entry(name, |m|), done)
    ensures Grown(t, after, done, |name|, start)
  {
    hide Sound;
    var learnt := Learn(t, name, |m|);
    if t.Some? {
      forall i | |t.value| <= i < |after.value|
        ensures |after.value[i].name| <= |name| && start <= after.value[i].pos < |done| && Sound(after.value[i], done)
      {
        if i < |learnt.value| {
          assert after.value[i] == learnt.value[i] == Entry(name, |m|);
        }
      }
    }
  }

  lemma PointerSpells(m: seq<byte>, pos: nat, labels: seq<seq<byte>>, start: nat)
    requires Spells(m, pos, labels, pos) && pos < start <= |m| && pos < 0x4000
    ensures Spells(m + PointerTo(pos), |m|, labels, start)
    ensures End(m + PointerTo(pos), |m|) == |m| + 2
  {
    hide PointerTo;
    var done := m + PointerTo(pos);
    PointerReadsBack(pos);
    assert done[|m|] == PointerTo(pos)[0] && done[|m| + 1] == PointerTo(pos)[1];
    PointsTo(done[|m|], done[|m| + 1], pos);
    SpellsMore(m, done, pos, labels, pos, start - 1);
  }

  lemma PointsTo(high: byte, low: byte, pos: nat)
    requires pos < 0x4000 && high as int * 256 + low as int == 0xc000 + pos
    ensures (high as int * 256 + low as int) % 0x4000 == pos && high >= 64
  {
  }

  lemma LabelSpells(m: seq<byte>, first: seq<byte>, done: seq<byte>, labels: seq<seq<byte>>, start: nat)
    requires 0 < |first| <= 63 && m + [|first| as byte] + first <= done
    requires Spells(done, |m| + 1 + |first|, labels, start)
    ensures Spells(done, |m|, [first] + labels, start)
    ensures End(done, |m|) == End(done, |m| + 1 + |first|)
  {
    var next := m + [|first| as byte] + first;
    assert done[|m|] == next[|m|];
    assert done[|m| + 1..|m| + 1 + |first|] == next[|m| + 1..] == first;
    assert ([first] + labels)[1..] == labels;
  }

  /** The last label: an empty one is its own end. */
  lemma LastSpells(m: seq<byte>, name: seq<byte>, start: nat)
    requires |name| <= 63 && NoZero(name) && DotAt(name) == |name|
    ensures var next := m + [|name| as byte] + name;
            && m <= next <= Terminate(next)
            && Spells(Terminate(next), |m|, Split(name), start) && End(Terminate(next), |m|) == |Terminate(next)|
  {
    var next := m + [|name| as byte] + name;
    var done := Terminate(next);
    if |name| > 0 {
      assert next[|next| - 1] == name[|name| - 1];
      LabelSpells(m, name, done, [], start);
      assert [name] + [] == Split(name);
    }
  }

  /** Reading stops where writing did: the end is reached, or a pointer, before an empty label inside. */
  ghost predicate Closes(t: Table, name: seq<byte>)
    decreases |name|
  {
    var k := DotAt(name);
    Look(t, name).Some? || k == |name| || (k > 0 && Closes(t, name[k + 1..]))
  }

  lemma {:induction false} FindSnoc(entries: seq<Entry>, e: Entry, name: seq<byte>)
    requires e.name != name
    ensures Find(entries + [e], name) == Find(entries, name)
  {
    if |entries| > 0 {
      assert (entries + [e])[1..] == entries[1..] + [e];
      FindSnoc(entries[1..], e, name);
    }
  }

  /** Learning a longer name does not matter. */
  lemma LookLearnt(t: Table, longer: seq<byte>, pos: nat, name: seq<byte>)
    requires |name| < |longer|
    ensures Look(Learn(t, longer, pos), name) == Look(t, name)
  {
    hide Find;
    if t.Some? {
      FindSnoc(t.value, Entry(longer, pos), name);
    }
  }

  lemma {:induction false} ClosesLearnt(t: Table, longer: seq<byte>, pos: nat, name: seq<byte>)
    requires |name| < |longer|
    ensures Closes(Learn(t, longer, pos), name) <==> Closes(t, name)
    decreases |name|
  {
    hide Look, Learn;
    LookLearnt(t, longer, pos, name);
    var k := DotAt(name);
    if k < |name| {
      ClosesLearnt(t, longer, pos, name[k + 1..]);
    }
  }

  /** A well-formed name closes with any table. Without one, no other name does, and `.` only if it is known. */
  lemma {:induction false} ClosesWhen(t: Table, name: seq<byte>)
    ensures WellFormed(name) ==> Closes(t, name)
    ensures t.None? ==> (Closes(t, name) <==> WellFormed(name))
    ensures name == [DOT] ==> (Closes(t, name) <==> Look(t, name).Some?)
    decreases |name|
  {
    hide Find;
    var k := DotAt(name);
    if k < |name| {
      ClosesWhen(t, name[k + 1..]);
    }
  }

  /** An empty label inside is an end, behind which more is written. */
  lemma EmptyLabelEnds(m: seq<byte>, name: seq<byte>, p: seq<byte>, start: nat)
    requires |name| > 0 && DotAt(name) == 0 && m + [0] < p
    ensures Spells(p, |m|, Split(name), start) && End(p, |m|) == |m| + 1 < |p|
  {
    assert p[|m|] == (m + [0])[|m|];
  }

  /**
   * A name, up to its first empty label, is spelled where it is written, and all the table then says is
   * true. `start` is where the whole name began: the table points before it.
   */
  lemma {:induction false} WriteSpells(m: seq<byte>, name: seq<byte>, t: Table, bufLen: nat, start: nat)
    requires start <= |m| && NoZero(name) && SoundUpTo(t, m, |name|, start)
    requires Write(m, name, t, bufLen).Done? && (t.None? || |Write(m, name, t, bufLen).message| <= 0x4000)
    ensures var w := Write(m, name, t, bufLen);
            && m < w.message && |w.message| <= bufLen + 1
            && Spells(w.message, |m|, Split(name), start)
            && (End(w.message, |m|) == |w.message| <==> Closes(t, name))
            && Grown(t, w.table, w.message, |name|, start)
    decreases |name|
  {
    hide Spells, End, Sound, Terminate, Look, PointerTo, Target, Write, Learn, DotAt, Split, NoZero;
    WriteStep(m, name, t, bufLen);
    NoZeroRest(name);
    var w := Write(m, name, t, bufLen);
    var k := DotAt(name);
    if Look(t, name).Some? {
      FoundIsSound(t, m, name, start);
      PointerSpells(m, Look(t, name).value, Split(name), start);
    } else if k == |name| {
      assert name[..k] == name;
      LastSpells(m, name, start);
      NameIsSound(m, name, start, w.message);
      assert Grown(Learn(t, name, |m|), w.table, w.message, |name|, start);
      LearntGrown(t, m, name, w.table, w.message, |name|, start);
    } else {
      var first, rest := name[..k], name[k + 1..];
      var next := m + [(k % 256) as byte] + first;
      LearntUpTo(t, m, name, next, |rest|, start);
      WriteSpells(next, rest, Learn(t, name, |m|), bufLen, start);
      ClosesLearnt(t, name, |m|, rest);
      assert m <= next;
      FirstSpells(m, name, w.message, start);
      NameIsSound(m, name, start, w.message);
      LearntGrown(t, m, name, w.table, w.message, |rest|, start);
    }
  }

  /** A first label, when the rest is spelled. */
  lemma FirstSpells(m: seq<byte>, name: seq<byte>, done: seq<byte>, start: nat)
    requires var k := DotAt(name);
             && k < |name| && k <= 63
             && var next := m + [(k % 256) as byte] + name[..k];
                next < done && Spells(done, |next|, Split(name[k + 1..]), start)
    ensures Spells(done, |m|, Split(name), start)
    ensures var k := DotAt(name);
            End(done, |m|) == if k == 0 then |m| + 1 else End(done, |m| + 1 + k)
    ensures DotAt(name) == 0 ==> End(done, |m|) < |done|
  {
    hide Spells, End, DotAt, Split;
    var k := DotAt(name);
    if k == 0 {
      assert m + [0] + name[..k] == m + [0];
      EmptyLabelEnds(m, name, done, start);
    } else {
      SplitFirst(name);
      LabelSpells(m, name[..k], done, Split(name[k + 1..]), start);
    }
  }

  lemma NoZeroRest(name: seq<byte>)
    requires NoZero(name)
    ensures DotAt(name) < |name| ==> NoZero(name[DotAt(name) + 1..])
  {
  }

  lemma SplitFirst(name: seq<byte>)
    requires 0 < DotAt(name) < |name|
    ensures Split(name) == [name[..DotAt(name)]] + Split(name[DotAt(name) + 1..])
  {
    var k := DotAt(name);
    hide DotAt;
    var rest := Split(name[k + 1..]);
    assert Split(name) == [name[..k]] + rest;
  }

  lemma FoundIsSound(t: Table, m: seq<byte>, name: seq<byte>, start: nat)
    requires SoundUpTo(t, m, |name|, start) && Look(t, name).Some?
    ensures t.Some?
    ensures var pos := Look(t, name).value;
            pos < start && pos < |m| && Spells(m, pos, Split(name), pos)
  {
    var pos := Look(t, name).value;
    var i :| 0 <= i < |t.value| && t.value[i] == Entry(name, pos);
    assert Sound(t.value[i], m);
  }

  lemma NameIsSound(m: seq<byte>, name: seq<byte>, start: nat, done: seq<byte>)
    requires m < done && start <= |m|
    requires Spells(done, |m|, Split(name), start)
    ensures Sound(Entry(name, |m|), done)
  {
    SpellsMore(done, done, |m|, Split(name), start, |m|);
  }

  // Round trips

  const TEXT_ROOM: nat := 256

  /** Reading the name at `start` gives `name`, but for a dot at its end, and stops at `end`. */
  ghost predicate ReadsAs(p: seq<byte>, start: nat, end: nat, name: seq<byte>) {
    Parse(p, start, 0, [], TEXT_ROOM) == Some(Parsed(Stripped(name), end))
  }

  /** A name that is spelled is read as it was just when its text is kept, and up to where it ends. */
  lemma SpelledReadsAs(m: seq<byte>, p: seq<byte>, start: nat, name: seq<byte>, end: nat)
    requires |name| <= MAX_NAME && Spells(m, start, Split(name), start) && m <= p
    ensures ReadsAs(p, start, end, name) <==> (WellFormed(name) || name == [DOT]) && end == End(m, start)
  {
    hide Spells, End, Split, WellFormed, JoinOnto;
    SpellsMore(m, p, start, Split(name), start, start);
    TextKept(name);
    SpellsParse(p, start, Split(name), 0, start, [], TEXT_ROOM);
  }

  /** Some bytes, and a name written after them. */
  datatype Item = Item(raw: seq<byte>, name: seq<byte>)

  /** Where a name is, and whether the table knew all of it. */
  datatype Span = Span(start: nat, end: nat, known: bool)

  datatype Message = Message(bytes: seq<byte>, spans: seq<Span>)

  /** Writes all items after `m`, with one table: the message, and where in it the names are. */
  ghost function WriteAll(m: seq<byte>, items: seq<Item>, t: Table, bufLen: nat): Option<Message>
    decreases |items|
  {
    if |items| == 0 then Some(Message(m, []))
    else
      var before := m + items[0].raw;
      match Write(before, items[0].name, t, bufLen)
      case Failed(_, _) => None
      case Done(next, after) =>
        match WriteAll(next, items[1..], after, bufLen)
        case None => None
        case Some(r) => Some(Message(r.bytes, [Span(|before|, |next|, Look(t, items[0].name).Some?)] + r.spans))
  }

  lemma {:induction false} WriteAllExtends(m: seq<byte>, items: seq<Item>, t: Table, bufLen: nat)
    requires WriteAll(m, items, t, bufLen).Some?
    ensures m <= WriteAll(m, items, t, bufLen).value.bytes
    decreases |items|
  {
    if |items| > 0 {
      var before := m + items[0].raw;
      var w := Write(before, items[0].name, t, bufLen);
      WriteExtends(before, items[0].name, t, bufLen);
      WriteAllExtends(w.message, items[1..], w.table, bufLen);
    }
  }

  lemma {:induction false} WriteExtends(m: seq<byte>, name: seq<byte>, t: Table, bufLen: nat)
    requires Write(m, name, t, bufLen).Done?
    ensures m < Write(m, name, t, bufLen).message
    decreases |name|
  {
    var k := DotAt(name);
    if Look(t, name).None? && k < |name| {
      WriteExtends(m + [k as byte] + name[..k], name[k + 1..], Learn(t, name, |m|), bufLen);
    }
  }

  /**
   * A name is read back where it was written, with the position after it, if and only if it is well
   * formed, or is a dot that the table knew. What else is in the message does not matter, nor what the
   * table already held, if it was true.
   */
  lemma {:induction false} AllReadBack(m: seq<byte>, items: seq<Item>, t: Table, bufLen: nat)
    requires AllSound(t, m) && WriteAll(m, items, t, bufLen).Some?
    requires forall i :: 0 <= i < |items| ==> NoZero(items[i].name) && |items[i].name| <= MAX_NAME
    requires |WriteAll(m, items, t, bufLen).value.bytes| <= 0x4000
    ensures var r := WriteAll(m, items, t, bufLen).value;
            && m <= r.bytes && |r.spans| == |items|
            && forall i :: 0 <= i < |items| ==>
                 (ReadsAs(r.bytes, r.spans[i].start, r.spans[i].end, items[i].name)
                  <==> WellFormed(items[i].name) || (items[i].name == [DOT] && r.spans[i].known))
    decreases |items|
  {
    hide Spells, End, WellFormed, ReadsAs, Write, Look, Closes;
    if |items| > 0 {
      var r := WriteAll(m, items, t, bufLen).value;
      var before, name := m + items[0].raw, items[0].name;
      var w := Write(before, name, t, bufLen);
      var rest := WriteAll(w.message, items[1..], w.table, bufLen).value;
      WriteAllExtends(w.message, items[1..], w.table, bufLen);
      WriteStaysSound(m, before, name, t, bufLen);
      AllReadBack(w.message, items[1..], w.table, bufLen);
      SpelledReadsAs(w.message, r.bytes, |before|, name, |w.message|);
      ClosesWhen(t, name);
      forall i | 0 <= i < |items|
        ensures ReadsAs(r.bytes, r.spans[i].start, r.spans[i].end, items[i].name)
                <==> WellFormed(items[i].name) || (items[i].name == [DOT] && r.spans[i].known)
      {
        if i > 0 {
          assert items[i] == items[1..][i - 1] && r.spans[i] == rest.spans[i - 1];
        }
      }
    }
  }

  lemma WriteStaysSound(m: seq<byte>, before: seq<byte>, name: seq<byte>, t: Table, bufLen: nat)
    requires AllSound(t, m) && m <= before && NoZero(name)
    requires Write(before, name, t, bufLen).Done? && |Write(before, name, t, bufLen).message| <= 0x4000
    ensures var w := Write(before, name, t, bufLen);
            && before < w.message && AllSound(w.table, w.message)
            && Spells(w.message, |before|, Split(name), |before|)
            && (End(w.message, |before|) == |w.message| <==> Closes(t, name))
  {
    hide Spells, End, Write, Closes;
    AllSoundMore(t, m, before);
    var w := Write(before, name, t, bufLen);
    WriteSpells(before, name, t, bufLen, |before|);
    AllSoundMore(t, before, w.message);
    if t.Some? {
      forall i | 0 <= i < |w.table.value|
        ensures Sound(w.table.value[i], w.message)
      {
        assert i < |t.value| ==> w.table.value[i] == t.value[i];
      }
    }
  }

  /** A single name reads back just when it is well formed: no label but an empty one after a last dot. */
  lemma NameReadsBack(m: seq<byte>, name: seq<byte>, bufLen: nat)
    requires NoZero(name) && |name| <= MAX_NAME && Write(m, name, None, bufLen).Done?
    ensures var p := Write(m, name, None, bufLen).message;
            ReadsAs(p, |m|, |p|, name) <==> WellFormed(name)
  {
    hide Spells, Split, End, Write, WellFormed, ReadsAs;
    var p := Write(m, name, None, bufLen).message;
    WriteSpells(m, name, None, bufLen, |m|);
    SpelledReadsAs(p, p, |m|, name, |p|);
    ClosesWhen(None, name);
  }

  /** Every label can be given a length byte. */
  ghost predicate LabelsFit(name: seq<byte>)
    decreases |name|
  {
    var k := DotAt(name);
    k <= 63 && (k < |name| ==> LabelsFit(name[k + 1..]))
  }

  /** With two bytes more room than the name is long, only a long label can stand in the way. */
  lemma {:induction false} WriteFits(m: seq<byte>, name: seq<byte>, bufLen: nat)
    requires |m| + |name| + 2 <= bufLen
    ensures var w := Write(m, name, None, bufLen);
            && (w.Done? <==> LabelsFit(name))
            && (if w.Done? then |w.message| <= |m| + |name| + 2 else w.code == -1)
    decreases |name|
  {
    var k := DotAt(name);
    if k <= 63 && k < |name| {
      WriteFits(m + [k as byte] + name[..k], name[k + 1..], bufLen);
    }
  }

  /** The name, or what comes after one of its dots, is in the table. */
  ghost predicate Refers(t: Table, name: seq<byte>)
    decreases |name|
  {
    var k := DotAt(name);
    Look(t, name).Some? || (k < |name| && Refers(t, name[k + 1..]))
  }

  /** The closing zero of `name`, written at `start`, goes one past the limit: all labels fit, none is
      a pointer, the last is not empty, and they fill the room to the last byte. */
  ghost predicate Spills(start: nat, name: seq<byte>, t: Table, bufLen: nat) {
    && LabelsFit(name) && !Refers(t, name)
    && |name| > 0 && name[|name| - 1] != DOT && start + |name| + 1 == bufLen
  }

  /** A name that has been learnt is no part of itself. */
  lemma {:induction false} RefersLearnt(t: Table, longer: seq<byte>, pos: nat, name: seq<byte>)
    requires |name| < |longer|
    ensures Refers(Learn(t, longer, pos), name) <==> Refers(t, name)
    decreases |name|
  {
    hide Look, Learn;
    LookLearnt(t, longer, pos, name);
    var k := DotAt(name);
    if k < |name| {
      RefersLearnt(t, longer, pos, name[k + 1..]);
    }
  }

  /** The first label of a name that spills fits, and the rest spills. */
  lemma SpillsStep(start: nat, name: seq<byte>, t: Table, bufLen: nat)
    ensures var k := DotAt(name);
            Spills(start, name, t, bufLen) <==>
            && k <= 63 && Look(t, name).None?
            && if k < |name| then Spills(start + k + 1, name[k + 1..], t, bufLen)
               else |name| > 0 && start + |name| + 1 == bufLen
    ensures Spills(start, name, t, bufLen) ==> start + |name| + 1 == bufLen
  {
    hide Look, DotAt;
  }

  /** Learning a longer name does not matter. */
  lemma SpillsLearnt(t: Table, longer: seq<byte>, pos: nat, start: nat, name: seq<byte>, bufLen: nat)
    requires |name| < |longer|
    ensures Spills(start, name, Learn(t, longer, pos), bufLen) <==> Spills(start, name, t, bufLen)
  {
    hide Learn, LabelsFit;
    RefersLearnt(t, longer, pos, name);
  }

  /** A message gets longer than the limit, by one byte, exactly when the name spills. */
  lemma {:induction false} SpillsExact(m: seq<byte>, name: seq<byte>, t: Table, bufLen: nat)
    requires NoZero(name)
    ensures var w := Write(m, name, t, bufLen);
            && (w.Done? ==> |w.message| <= bufLen + 1)
            && (w.Done? && |w.message| > bufLen <==> Spills(|m|, name, t, bufLen))
    decreases |name|
  {
    hide Write, Spills, Look, Learn, DotAt;
    var k := DotAt(name);
    WriteStep(m, name, t, bufLen);
    SpillsStep(|m|, name, t, bufLen);
    if Look(t, name).None? && k < |name| && k <= 63 {
      var rest := name[k + 1..];
      SpillsLearnt(t, name, |m|, |m| + k + 1, rest, bufLen);
      SpillsExact(m + [(k % 256) as byte] + name[..k], rest, Learn(t, name, |m|), bufLen);
    } else if k == |name| {
      Closed(m, name);
    }
  }

  /** A last label takes its zero, unless it is empty. */
  lemma Closed(m: seq<byte>, name: seq<byte>)
    requires NoZero(name) && DotAt(name) == |name|
    ensures |name| <= 63 ==>
              |Terminate(m + [(|name| % 256) as byte] + name[..|name|])| == |m| + |name| + if |name| > 0 then 2 else 1
  {
    if |name| > 0 {
      assert name[..|name|][|name| - 1] != 0;
    }
  }

  /** With room for two bytes, the name `a` takes three. */
  lemma OneByteOver()
    ensures Write([], ['a' as byte], None, 2) == Done([1, 'a' as byte, 0], None)
  {
    var a := ['a' as byte];
    assert DotAt(a) == 1 && a[..1] == a;
    assert Terminate([] + [1] + a) == [1, 'a' as byte, 0];
  }

  /** The name `.` is written as two ends, and does not read back. */
  lemma DotLost()
    ensures Write([], [DOT], None, 9) == Done([0, 0], None) && !ReadsAs([0, 0], 0, 2, [DOT])
  {
    hide ReadsAs;
    assert DotAt([DOT]) == 0 && [DOT][1..] == [] && [DOT][..0] == [] && DotAt([]) == 0;
    assert Write([], [DOT], None, 9) == Write([0], [], None, 9) == Done([0, 0], None);
    assert !WellFormed([DOT]);
    NameReadsBack([], [DOT], 9);
  }

  /** The name `a..b` ends at its empty label. */
  lemma InnerLabelLost()
    ensures var name := ['a' as byte, DOT, DOT, 'b' as byte];
            var p := [1, 'a' as byte, 0, 1, 'b' as byte, 0];
            Write([], name, None, 9) == Done(p, None) && !ReadsAs(p, 0, |p|, name)
  {
    hide ReadsAs, Parse, Write, DotAt, WellFormed;
    WrittenAb();
    DotsOfAb();
    NameReadsBack([], ['a' as byte, DOT, DOT, 'b' as byte], 9);
  }

  lemma WrittenAb()
    ensures Write([], ['a' as byte, DOT, DOT, 'b' as byte], None, 9)
            == Done([1, 'a' as byte, 0, 1, 'b' as byte, 0], None)
  {
    hide Write, DotAt, Terminate;
    var a, b, ab := ['a' as byte], ['b' as byte], ['a' as byte, DOT, DOT, 'b' as byte];
    var dotB, one, two := [DOT] + b, [1, 'a' as byte], [1, 'a' as byte, 0];
    DotsOfAb();
    assert ab[..1] == a && ab[2..] == dotB && [] + [1 as byte] + a == one;
    WriteStep([], ab, None, 9);
    assert dotB[..0] == [] && dotB[1..] == b && one + [0] + [] == two;
    WriteStep(one, dotB, None, 9);
    assert b[..1] == b && two + [1] + b == [1, 'a' as byte, 0, 1, 'b' as byte];
    WriteStep(two, b, None, 9);
    LastIsB();
  }

  lemma LastIsB()
    ensures Terminate([1, 'a' as byte, 0, 1, 'b' as byte]) == [1, 'a' as byte, 0, 1, 'b' as byte, 0]
  {
  }

  lemma DotsOfAb()
    ensures var b, ab := ['b' as byte], ['a' as byte, DOT, DOT, 'b' as byte];
            DotAt(ab) == 1 && DotAt([DOT] + b) == 0 && DotAt(b) == 1 && !WellFormed(ab)
  {
    var b, ab := ['b' as byte], ['a' as byte, DOT, DOT, 'b' as byte];
    assert DotAt(ab[1..]) == 0 && ab[2..] == [DOT] + b && b[1..] == [];
    assert !WellFormed([DOT] + b);
  }

  /** The second `.` of a message is a pointer to the first, and is read back where that is not. */
  lemma SecondDotKept()
    ensures var dot := Item([], [DOT]);
            var r := WriteAll([], [dot, dot], Some([]), 9);
            && r.Some? && r.value.bytes == [0, 0, 0xc0, 0] && |r.value.spans| == 2
            && !ReadsAs(r.value.bytes, r.value.spans[0].start, r.value.spans[0].end, [DOT])
            && ReadsAs(r.value.bytes, r.value.spans[1].start, r.value.spans[1].end, [DOT])
  {
    hide ReadsAs, Parse, WellFormed;
    var dot := Item([], [DOT]);
    var items, t := [dot, dot], Some([Entry([DOT], 0), Entry([], 1)]);
    TwoDots();
    assert WriteAll([0, 0, 0xc0, 0], [], t, 9) == Some(Message([0, 0, 0xc0, 0], []));
    assert items[1..] == [dot] && items[1..][1..] == [];
    assert [] + dot.raw == [] && [0, 0] + dot.raw == [0, 0];
    assert WriteAll([0, 0], [dot], t, 9) == Some(Message([0, 0, 0xc0, 0], [Span(2, 4, true)] + []));
    DotIsIll();
    AllReadBack([], items, Some([]), 9);
  }

  lemma TwoDots()
    ensures var t := Some([Entry([DOT], 0), Entry([], 1)]);
            && Look(Some([]), [DOT]) == None && Look(t, [DOT]) == Some(0)
            && Write([], [DOT], Some([]), 9) == Done([0, 0], t)
            && Write([0, 0], [DOT], t, 9) == Done([0, 0, 0xc0, 0], t)
  {
    hide Write, DotAt, Terminate, Look, Learn, PointerTo;
    DotsLearnt();
    DotDots();
    assert [] + [0 as byte] + [] == [0] && [0] + [0 as byte] + [] == [0, 0] && [0, 0] + [0xc0, 0] == [0, 0, 0xc0, 0];
    WriteStep([], [DOT], Some([]), 9);
    WriteStep([0], [], Some([Entry([DOT], 0)]), 9);
    WriteStep([0, 0], [DOT], Some([Entry([DOT], 0), Entry([], 1)]), 9);
  }

  lemma DotDots()
    ensures DotAt([DOT]) == 0 == DotAt([]) && [DOT][1..] == [] && [DOT][..0] == [] && Terminate([0, 0]) == [0, 0]
    ensures PointerTo(0) == [0xc0, 0]
  {
  }

  lemma DotsLearnt()
    ensures var one, two := Some([Entry([DOT], 0)]), Some([Entry([DOT], 0), Entry([], 1)]);
            && Look(Some([]), [DOT]) == None && Learn(Some([]), [DOT], 0) == one
            && Look(one, []) == None && Learn(one, [], 1) == two && Look(two, [DOT]) == Some(0)
  {
    assert [] + [Entry([DOT], 0)] == [Entry([DOT], 0)];
    assert [Entry([DOT], 0)] + [Entry([], 1)] == [Entry([DOT], 0), Entry([], 1)];
    assert [Entry([DOT], 0)][1..] == [] && |[DOT]| != 0;
  }

  lemma DotIsIll()
    ensures !WellFormed([DOT])
  {
    assert DotAt([DOT]) == 0;
  }

  const A: byte := 'a' as byte
  const B: byte := 'b' as byte
  const AB := [A, DOT, B]
  const CB := ['c' as byte, DOT, B]

  /** After a header of twelve bytes the names `a.b`, `c.b` and `a.b`: the second ends with a pointer to the
      end of the first, and the third is a pointer to the first, c0 0c. All are read back. */
  lemma SuffixShared(header: seq<byte>)
    requires |header| == 12
    ensures var r := WriteAll([], [Item(header, AB), Item([], CB), Item([], AB)], Some([]), 99);
            && r.Some? && |r.value.spans| == 3
            && r.value.bytes == header + [1, A, 1, B, 0] + [1, 'c' as byte, 0xc0, 14] + [0xc0, 12]
            && ReadsAs(r.value.bytes, 12, 17, AB) && ReadsAs(r.value.bytes, 17, 21, CB)
            && ReadsAs(r.value.bytes, 21, 23, AB)
  {
    hide ReadsAs, WellFormed, Write, WriteAll;
    var items := [Item(header, AB), Item([], CB), Item([], AB)];
    ThreeNames(header);
    AbWellFormed();
    AllReadBack([], items, Some([]), 99);
    assert items[0].name == AB && items[1].name == CB && items[2].name == AB;
  }

  lemma ThreeNames(header: seq<byte>)
    requires |header| == 12
    ensures var r := WriteAll([], [Item(header, AB), Item([], CB), Item([], AB)], Some([]), 99);
            r == Some(Message(header + [1, A, 1, B, 0] + [1, 'c' as byte, 0xc0, 14] + [0xc0, 12],
                              [Span(12, 17, false), Span(17, 21, false), Span(21, 23, true)]))
  {
    hide Write;
    var first := header + [1, A, 1, B, 0];
    var second := first + [1, 'c' as byte, 0xc0, 14];
    var third := second + [0xc0, 12];
    var t := [Entry(AB, 12), Entry([B], 14)];
    var all := Some(t + [Entry(CB, 17)]);
    FirstAb(header);
    ThenCb(first);
    ThenAb(second);
    assert [] + header == header && first + [] == first && second + [] == second;
    assert [Item([], AB)] + [] == [Item([], AB)];
    var x, y, z := Span(12, 17, false), Span(17, 21, false), Span(21, 23, true);
    assert [z] + [] == [z] && [y] + [z] == [y, z] && [x] + [y, z] == [x, y, z];
    WriteAllNone(third, all);
    WriteAllOne(second, Item([], AB), [], all, 99);
    assert [Item([], CB)] + [Item([], AB)] == [Item([], CB), Item([], AB)];
    WriteAllOne(first, Item([], CB), [Item([], AB)], Some(t), 99);
    var rest := [Item([], CB), Item([], AB)];
    assert [Item(header, AB)] + rest == [Item(header, AB), Item([], CB), Item([], AB)];
    WriteAllOne([], Item(header, AB), rest, Some([]), 99);
    assert Look(Some([]), AB) == None;
  }

  lemma WriteAllNone(m: seq<byte>, t: Table)
    ensures WriteAll(m, [], t, 99) == Some(Message(m, []))
  {
  }

  lemma WriteAllOne(m: seq<byte>, item: Item, rest: seq<Item>, t: Table, bufLen: nat)
    requires var w := Write(m + item.raw, item.name, t, bufLen);
             w.Done? && WriteAll(w.message, rest, w.table, bufLen).Some?
    ensures var before := m + item.raw;
            var w := Write(before, item.name, t, bufLen);
            var r := WriteAll(w.message, rest, w.table, bufLen).value;
            WriteAll(m, [item] + rest, t, bufLen)
            == Some(Message(r.bytes, [Span(|before|, |w.message|, Look(t, item.name).Some?)] + r.spans))
  {
    hide Write;
    assert ([item] + rest)[1..] == rest;
  }

  lemma AbDots()
    ensures DotAt(AB) == 1 == DotAt(CB) == DotAt([B]) && AB[..1] == [A] && CB[..1] == ['c' as byte]
    ensures AB[2..] == [B] == CB[2..] && [B][..1] == [B]
  {
    assert AB[1..][0] == DOT && CB[1..][0] == DOT && [B][1..] == [];
    assert DotAt(AB[1..]) == 0 == DotAt(CB[1..]) == DotAt([]);
  }

  lemma AbWellFormed()
    ensures WellFormed(AB) && WellFormed(CB)
  {
    AbDots();
    assert WellFormed([B]);
  }

  lemma FirstAb(header: seq<byte>)
    requires |header| == 12
    ensures Write(header, AB, Some([]), 99)
            == Done(header + [1, A, 1, B, 0], Some([Entry(AB, 12), Entry([B], 14)]))
  {
    hide Write, DotAt, Terminate, Look, Learn;
    AbDots();
    var next := header + [1] + [A];
    AbUnknown();
    WriteStep(header, AB, Some([]), 99);
    WriteStep(next, [B], Some([Entry(AB, 12)]), 99);
    Pieces(header);
  }

  lemma AbUnknown()
    ensures Look(Some([]), AB) == None && Learn(Some([]), AB, 12) == Some([Entry(AB, 12)])
    ensures Look(Some([Entry(AB, 12)]), [B]) == None
    ensures Learn(Some([Entry(AB, 12)]), [B], 14) == Some([Entry(AB, 12), Entry([B], 14)])
  {
    assert |AB| != |[B]| && [Entry(AB, 12)][1..] == [] && [] + [Entry(AB, 12)] == [Entry(AB, 12)];
    assert [Entry(AB, 12)] + [Entry([B], 14)] == [Entry(AB, 12), Entry([B], 14)];
  }

  lemma Pieces(header: seq<byte>)
    ensures Terminate(header + [1] + [A] + [1] + [B]) == header + [1, A, 1, B, 0]
  {
    assert header + [1] + [A] + [1] + [B] == header + [1, A, 1, B];
    assert header + [1, A, 1, B] + [0] == header + [1, A, 1, B, 0];
  }

  lemma ThenCb(m: seq<byte>)
    requires |m| == 17
    ensures var t := [Entry(AB, 12), Entry([B], 14)];
            Write(m, CB, Some(t), 99) == Done(m + [1, 'c' as byte, 0xc0, 14], Some(t + [Entry(CB, 17)]))
            && Look(Some(t), CB) == None
  {
    hide Write, DotAt, Look, Learn, PointerTo;
    AbDots();
    CbUnknown();
    var next := m + [1] + ['c' as byte];
    WriteStep(m, CB, Some([Entry(AB, 12), Entry([B], 14)]), 99);
    WriteStep(next, [B], Some([Entry(AB, 12), Entry([B], 14)] + [Entry(CB, 17)]), 99);
    assert next + [0xc0, 14] == m + [1, 'c' as byte, 0xc0, 14];
  }

  lemma CbUnknown()
    ensures var t := [Entry(AB, 12), Entry([B], 14)];
            var all := Some(t + [Entry(CB, 17)]);
            && Look(Some(t), CB) == None && Learn(Some(t), CB, 17) == all
            && Look(all, [B]) == Some(14) && Look(all, AB) == Some(12)
    ensures PointerTo(14) == [0xc0, 14] && PointerTo(12) == [0xc0, 12]
  {
    var t := [Entry(AB, 12), Entry([B], 14)];
    var all := t + [Entry(CB, 17)];
    assert t[1..] == [Entry([B], 14)] && t[1..][1..] == [];
    assert all[0] == Entry(AB, 12) && all[1..][0] == Entry([B], 14);
    assert AB[0] != CB[0] && |[B]| != |CB| && |AB| != |[B]|;
    assert Find(all[1..], [B]) == Some(14);
  }

  lemma ThenAb(m: seq<byte>)
    requires |m| == 21
    ensures var t := Some([Entry(AB, 12), Entry([B], 14)] + [Entry(CB, 17)]);
            Write(m, AB, t, 99) == Done(m + [0xc0, 12], t) && Look(t, AB) == Some(12)
  {
    hide Write, DotAt, Look, Learn, PointerTo;
    CbUnknown();
    WriteStep(m, AB, Some([Entry(AB, 12), Entry([B], 14)] + [Entry(CB, 17)]), 99);
  }

  /** Writing fails for a label over 63 bytes, or for want of room for the name and two bytes. */
  lemma {:induction false} FailsBecause(m: seq<byte>, name: seq<byte>, t: Table, bufLen: nat)
    requires Write(m, name, t, bufLen).Failed?
    ensures var code := Write(m, name, t, bufLen).code;
            if code == -1 then !LabelsFit(name) else code == -2 && |m| + |name| + 2 > bufLen
    decreases |name|
  {
    hide Look, Learn;
    var k := DotAt(name);
    if Look(t, name).None? && k <= 63 && k < |name| && |m| + k + 1 <= bufLen {
      FailsBecause(m + [k as byte] + name[..k], name[k + 1..], Learn(t, name, |m|), bufLen);
    }
  }
}
