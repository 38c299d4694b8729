/** Positions in a buffer, byte-string search and line reading. */
module Search {
  import opened Bytes
  import opened Chains
  import opened Evbuffers

  const SSIZE_MAX: nat := 0x7fff_ffff_ffff_ffff

  /** A position: `chain` is the number of a chain, or the number of chains for no chain. */
  datatype Ptr = NotFound | Ptr(pos: nat, chain: nat, posInChain: nat)

  ghost predicate Good(cs: seq<Chain>, p: Ptr)
    requires AllOk(cs)
  {
    p.Ptr? ==>
      && p.chain <= |cs|
      && p.pos == |Spell(cs[..p.chain])| + p.posInChain
      && (if p.chain < |cs| then p.posInChain <= cs[p.chain].off else p.posInChain == 0)
  }

  /** The bytes of chain `i` in the whole. */
  lemma SpellWindow(cs: seq<Chain>, i: nat)
    requires AllOk(cs) && i < |cs|
    ensures var at := |Spell(cs[..i])|;
            && at + cs[i].off <= |Spell(cs)|
            && Spell(cs)[at..at + cs[i].off] == cs[i].Data()
            && |Spell(cs[..i + 1])| == at + cs[i].off
            && (forall k :: 0 <= k < cs[i].off ==> cs[i].Data()[k] == Spell(cs)[at + k])
  {
    hide Spell, Chain.Data;
    SpellAt(cs, i);
  }

  /** Walks `left` bytes on from a place in a chain. */
  method Walk(cs: seq<Chain>, chain: nat, posInChain: nat, left: nat) returns (at: Option<(nat, nat)>)
    requires AllOk(cs) && chain <= |cs|
    requires Good(cs, Ptr(|Spell(cs[..chain])| + posInChain, chain, posInChain))
    ensures var target := |Spell(cs[..chain])| + posInChain + left;
            && (at.None? <==> target > |Spell(cs)|)
            && (at.Some? ==> Good(cs, Ptr(target, at.value.0, at.value.1)))
            && (at.Some? && at.value.0 < |cs| ==> at.value.1 < cs[at.value.0].off)
  {
    hide Spell, Chain.Data;
    var i: nat, position: nat, rest: nat := chain, posInChain, left;
    while i < |cs| && position + rest >= cs[i].off
      invariant chain <= i <= |cs| && (if i < |cs| then position <= cs[i].off else position == 0)
      invariant |Spell(cs[..i])| + position + rest == |Spell(cs[..chain])| + posInChain + left
    {
      SpellAt(cs, i);
      rest := rest - (cs[i].off - position);
      i, position := i + 1, 0;
    }
    assert cs[..|cs|] == cs;
    if i < |cs| {
      SpellWindow(cs, i);
      at := Some((i, position + rest));
    } else if rest == 0 {
      at := Some((i, 0));
    } else {
      at := None;
    }
  }

  datatype How = Set | Advance

  /** Sets a position, or advances it. */
  method PtrSet(b: Evbuffer, pos: Ptr, position: nat, how: How) returns (ok: bool, p: Ptr)
    requires b.Valid() && Good(b.chains, pos)
    ensures how.Advance? && (pos.NotFound? || position > SIZE_MAX - pos.pos) ==> !ok && p == pos
    ensures how.Set? || (pos.Ptr? && position <= SIZE_MAX - pos.pos) ==>
              var target := position + if how.Set? then 0 else pos.pos;
              && (ok <==> target <= |b.Contents()|)
              && (ok ==> p.Ptr? && p.pos == target && Good(b.chains, p)
                         && (p.chain < |b.chains| ==> p.posInChain < b.chains[p.chain].off))
              && (!ok ==> p.NotFound?)
  {
    hide Spell, Chain.Data;
    if how.Advance? && (pos.NotFound? || SIZE_MAX - position < pos.pos) {
      return false, pos;
    }
    SpellEmpties(b.chains[..0]);
    var at := if how.Set? then Ptr(0, 0, 0) else pos;
    var found := Walk(b.chains, at.chain, at.posInChain, position);
    if found.None? {
      return false, NotFound;
    }
    return true, Ptr(at.pos + position, found.value.0, found.value.1);
  }

  /** The pattern occurs at `k`. */
  ghost predicate MatchAt(s: seq<byte>, what: seq<byte>, k: int) {
    0 <= k && k + |what| <= |s| && s[k..k + |what|] == what
  }

  /** Bytes `position` to `position + n` of chain `i`, in the whole. */
  lemma WindowSlice(cs: seq<Chain>, i: nat, position: nat, n: nat)
    requires AllOk(cs) && i < |cs| && position + n <= cs[i].off
    ensures var at := |Spell(cs[..i])|;
            && at + cs[i].off <= |Spell(cs)| && |Spell(cs[..i + 1])| == at + cs[i].off
            && Spell(cs)[at + position..at + position + n] == cs[i].Data()[position..position + n]
  {
    hide Spell, Chain.Data;
    SpellWindow(cs, i);
    var at := |Spell(cs[..i])|;
    SubSlice(Spell(cs), at, at + cs[i].off, position, position + n);
  }

  /** Byte `position` of chain `i`, or the end if there is no such chain, is at `pos` in the whole. */
  ghost predicate Reached(cs: seq<Chain>, i: nat, position: nat, pos: nat)
    requires AllOk(cs)
  {
    && i <= |cs| && (if i < |cs| then position <= cs[i].off else position == 0)
    && pos == |Spell(cs[..i])| + position
  }

  /** The next `n` bytes are in chain `i`, and may be all that is left of it. */
  lemma SliceThere(cs: seq<Chain>, i: nat, position: nat, pos: nat, n: nat)
    requires AllOk(cs) && i < |cs| && Reached(cs, i, position, pos)
    ensures position <= cs[i].off
    ensures position + n <= cs[i].off ==>
              pos + n <= |Spell(cs)| && Spell(cs)[pos..pos + n] == cs[i].Data()[position..position + n]
    ensures position + n == cs[i].off ==> Reached(cs, i + 1, 0, pos + n)
  {
    hide Spell, Chain.Data;
    if position + n <= cs[i].off {
      WindowSlice(cs, i, position, n);
    }
  }

  lemma ReachedEnd(cs: seq<Chain>, i: nat, position: nat, pos: nat)
    requires AllOk(cs) && i >= |cs| && Reached(cs, i, position, pos)
    ensures pos == |Spell(cs)|
  {
    hide Spell;
    assert cs[..|cs|] == cs;
  }

  /** Compares the bytes from a position on with `mem`. */
  method PtrMemcmp(b: Evbuffer, p: Ptr, mem: seq<byte>) returns (equal: bool)
    requires b.Valid() && p.Ptr? && Good(b.chains, p)
    ensures equal <==> MatchAt(b.Contents(), mem, p.pos)
    ensures equal ==> p.pos + |mem| <= |b.Contents()|
  {
    hide Spell, Chain.Data, Packed, Reached;
    if p.pos + |mem| > b.totalLen {
      return false;
    }
    ghost var all := b.Contents();
    var i: nat, position: nat, done: nat := p.chain, p.posInChain, 0;
    GoodReached(b.chains, p);
    while done < |mem| && i < |b.chains|
      invariant done <= |mem| && (done < |mem| ==> Reached(b.chains, i, position, p.pos + done))
      invariant all[p.pos..p.pos + done] == mem[..done]
      decreases |b.chains| - i
    {
      SliceThere(b.chains, i, position, p.pos + done, 0);
      var n: nat := if |mem| - done + position > b.chains[i].off then b.chains[i].off - position else |mem| - done;
      SliceThere(b.chains, i, position, p.pos + done, n);
      if b.chains[i].Data()[position..position + n] != mem[done..done + n] {
        NoMatch(all, mem, p.pos, done, n);
        return false;
      }
      SameSoFar(all, mem, p.pos, done, n);
      done, i, position := done + n, i + 1, 0;
    }
    if done < |mem| {
      ReachedEnd(b.chains, i, position, p.pos + done);
    }
    assert mem[..|mem|] == mem;
    equal := true;
  }

  lemma GoodReached(cs: seq<Chain>, p: Ptr)
    requires AllOk(cs) && p.Ptr? && Good(cs, p)
    ensures Reached(cs, p.chain, p.posInChain, p.pos)
  {
  }

  lemma SameSoFar(s: seq<byte>, mem: seq<byte>, pos: nat, done: nat, n: nat)
    requires pos + |mem| <= |s| && done + n <= |mem|
    requires s[pos..pos + done] == mem[..done]
    requires s[pos + done..pos + done + n] == mem[done..done + n]
    ensures s[pos..pos + (done + n)] == mem[..done + n]
  {
    assert s[pos..pos + (done + n)] == s[pos..pos + done] + s[pos + done..pos + done + n];
    assert mem[..done + n] == mem[..done] + mem[done..done + n];
  }

  lemma NoMatch(s: seq<byte>, what: seq<byte>, k: nat, from: nat, n: nat)
    requires from + n <= |what| && k + |what| <= |s|
    requires s[k + from..k + from + n] != what[from..from + n]
    ensures !MatchAt(s, what, k)
  {
    SubSlice(s, k, k + |what|, from, from + n);
  }

  /** The first place where `c` is, or the length if it is nowhere. */
  function Memchr(s: seq<byte>, c: byte): (n: nat)
    ensures n <= |s| && (n < |s| ==> s[n] == c) && forall k :: 0 <= k < n ==> s[k] != c
  {
    if |s| == 0 || s[0] == c then 0 else 1 + Memchr(s[1..], c)
  }

  /** Where a search that starts at `p` begins. */
  function StartPos(p: Option<Ptr>): nat {
    if p.Some? && p.value.Ptr? then p.value.pos else 0
  }

  /** Where a match may end at the latest. */
  function EndLimit(p: Option<Ptr>, len: nat): int {
    match p
    case None => len
    case Some(NotFound) => -1
    case Some(Ptr(pos, _, _)) => pos
  }

  /** `k` is the first match at or after `from`. */
  ghost predicate FirstMatch(s: seq<byte>, what: seq<byte>, from: nat, k: int) {
    from <= k && MatchAt(s, what, k) && forall j :: from <= j < k ==> !MatchAt(s, what, j)
  }

  /** The first match of `what` at or after `start` that ends before `end`. */
  method SearchRange(b: Evbuffer, what: seq<byte>, start: Option<Ptr>, end: Option<Ptr>) returns (r: Ptr)
    requires b.Valid()
    requires start.Some? ==> Good(b.chains, start.value)
    requires end.Some? ==> Good(b.chains, end.value)
    ensures |what| == 0 || |what| > SSIZE_MAX ==> r == if start.Some? then start.value else Ptr(0, 0, 0)
    ensures 0 < |what| <= SSIZE_MAX && start == Some(NotFound) ==> r.NotFound?
    ensures 0 < |what| <= SSIZE_MAX && start != Some(NotFound) ==>
              var limit := EndLimit(end, |b.Contents()|);
              && (r.Ptr? ==> Good(b.chains, r) && r.pos + |what| <= limit
                             && FirstMatch(b.Contents(), what, StartPos(start), r.pos))
              && (r.NotFound? ==> forall k :: StartPos(start) <= k && k + |what| <= limit ==>
                                    !MatchAt(b.Contents(), what, k))
  {
    hide Spell, Chain.Data, MatchAt, Memchr;
    SpellEmpties(b.chains[..0]);
    r := if start.Some? then start.value else Ptr(0, 0, 0);
    if |what| == 0 || |what| > SSIZE_MAX || r.NotFound? {
      return;
    }
    ghost var from, all := r.pos, b.Contents();
    assert b.chains[..|b.chains|] == b.chains;
    var stop := false;
    while !stop && r.chain < |b.chains|
      invariant r.Ptr? ==> Good(b.chains, r) && from <= r.pos && NoMatches(all, what, from, r.pos)
      invariant !stop ==> r.Ptr?
      invariant stop && r.Ptr? ==> MatchAt(all, what, r.pos) && r.pos + |what| <= EndLimit(end, |all|)
      invariant r.NotFound? ==> NoMatches(all, what, from, EndLimit(end, |all|) - |what| + 1)
      decreases !stop, if r.Ptr? then |b.chains| - r.chain else 0,
                if r.Ptr? && r.chain < |b.chains| then b.chains[r.chain].off - r.posInChain else 0
    {
      ghost var at := r.pos;
      r, stop := SearchStep(b, what, r, end);
      NoMatchesJoin(all, what, from, at, if r.Ptr? then r.pos else EndLimit(end, |all|) - |what| + 1);
    }
    NoneEnding(all, what, from, EndLimit(end, |all|));
    if !stop {
      NoMatchAfter(all, what);
      r := NotFound;
    }
  }

  /** No match begins from `from` on and before `to`. */
  ghost predicate NoMatches(s: seq<byte>, what: seq<byte>, from: int, to: int) {
    forall k :: from <= k < to ==> !MatchAt(s, what, k)
  }

  lemma NoMatchesJoin(s: seq<byte>, what: seq<byte>, from: nat, at: nat, to: int)
    requires NoMatches(s, what, from, at) && NoMatches(s, what, at, to)
    ensures NoMatches(s, what, from, to)
  {
  }

  lemma NoneEnding(s: seq<byte>, what: seq<byte>, from: nat, limit: int)
    ensures NoMatches(s, what, from, limit - |what| + 1) ==>
              forall k :: from <= k && k + |what| <= limit ==> !MatchAt(s, what, k)
  {
  }

  lemma NoMatchAfter(s: seq<byte>, what: seq<byte>)
    requires |what| > 0
    ensures forall k :: k >= |s| ==> !MatchAt(s, what, k)
  {
  }

  /** Looks for the next place in one chain where the first byte is, and compares there. */
  method SearchStep(b: Evbuffer, what: seq<byte>, at: Ptr, end: Option<Ptr>) returns (r: Ptr, stop: bool)
    requires b.Valid() && |what| > 0 && at.Ptr? && Good(b.chains, at) && at.chain < |b.chains|
    requires end.Some? ==> Good(b.chains, end.value)
    ensures !stop ==>
              && r.Ptr? && Good(b.chains, r) && at.chain <= r.chain
              && (at.chain == r.chain ==> at.posInChain < r.posInChain)
    ensures r.Ptr? ==> Good(b.chains, r) && at.pos <= r.pos && NoMatches(b.Contents(), what, at.pos, r.pos)
    ensures stop && r.Ptr? ==> MatchAt(b.Contents(), what, r.pos) && r.pos + |what| <= EndLimit(end, |b.Contents()|)
    ensures r.NotFound? ==> NoMatches(b.Contents(), what, at.pos, EndLimit(end, |b.Contents()|) - |what| + 1)
  {
    hide Spell, Chain.Data, MatchAt, Memchr;
    var i := at.chain;
    SpellWindow(b.chains, i);
    if end.Some? && end.value.Ptr? && end.value.chain < |b.chains| {
      SpellWindow(b.chains, end.value.chain);
    }
    ghost var all := b.Contents();
    var rest := b.chains[i].Data()[at.posInChain..];
    var n := Memchr(rest, what[0]);
    SkipTo(all, what, at.pos, rest, n);
    stop := false;
    if n < |rest| {
      r := Ptr(at.pos + n, i, at.posInChain + n);
      var equal := PtrMemcmp(b, r, what);
      if equal {
        stop := true;
        if end.Some? && (end.value.NotFound? || r.pos + |what| > end.value.pos) {
          NoneInTime(all, what, at.pos, r.pos, EndLimit(end, |all|));
          r := NotFound;
        }
        return;
      }
      r := Ptr(r.pos + 1, i, r.posInChain + 1);
      if r.posInChain == b.chains[i].off {
        r := Ptr(r.pos, i + 1, 0);
      }
    } else {
      if end.Some? && end.value.Ptr? && i == end.value.chain {
        return NotFound, true;
      }
      r := Ptr(at.pos + n, i + 1, 0);
    }
  }

  /** If the first match does not end in time, none does. */
  lemma NoneInTime(s: seq<byte>, what: seq<byte>, from: nat, k: nat, limit: int)
    requires k + |what| > limit && NoMatches(s, what, from, k)
    ensures NoMatches(s, what, from, limit - |what| + 1)
  {
  }

  /** Where the first byte is missing there is no match. */
  lemma SkipTo(s: seq<byte>, what: seq<byte>, pos: nat, rest: seq<byte>, n: nat)
    requires |what| > 0 && pos + |rest| <= |s| && s[pos..pos + |rest|] == rest
    requires n <= |rest| && forall k :: 0 <= k < n ==> rest[k] != what[0]
    ensures forall k :: pos <= k < pos + n ==> !MatchAt(s, what, k)
  {
    forall k | pos <= k < pos + n
      ensures !MatchAt(s, what, k)
    {
      assert s[k] == s[pos..pos + |rest|][k - pos] == rest[k - pos] != what[0];
      assert k + |what| <= |s| ==> s[k..k + |what|][0] == s[k];
    }
  }

  const CR: byte := 13
  const LF: byte := 10
  const EOL_CHARS: set<byte> := {CR, LF}

  /** The first place where one of `stops` is, or the length if there is none. */
  function FirstIn(s: seq<byte>, stops: set<byte>): (n: nat)
    ensures n <= |s| && (n < |s| ==> s[n] in stops) && forall k :: 0 <= k < n ==> s[k] !in stops
  {
    if |s| == 0 || s[0] in stops then 0 else 1 + FirstIn(s[1..], stops)
  }

  const CHUNK: nat := 128

  /** Scans for a carriage return or line feed, in chunks: one pass for each of them per chunk. */
  method FindEolChar(s: seq<byte>) returns (n: nat)
    ensures n == FirstIn(s, EOL_CHARS)
  {
    hide FirstIn, Memchr;
    var at := 0;
    while at < |s|
      invariant forall k :: 0 <= k < at && k < |s| ==> s[k] !in EOL_CHARS
    {
      var chunk := if at + CHUNK < |s| then CHUNK else |s| - at;
      var here := s[at..at + chunk];
      var cr, lf := Memchr(here, CR), Memchr(here, LF);
      if cr < chunk || lf < chunk {
        n := at + if cr < chunk && !(lf < chunk && lf < cr) then cr else lf;
        NoneInChunk(s, at, here, n - at);
        FirstInIs(s, EOL_CHARS, n);
        return;
      }
      NoneInChunk(s, at, here, chunk);
      at := at + CHUNK;
    }
    n := |s|;
    FirstInIs(s, EOL_CHARS, n);
  }

  lemma NoneInChunk(s: seq<byte>, at: nat, chunk: seq<byte>, n: nat)
    requires n <= |chunk| && at + |chunk| <= |s| && chunk == s[at..at + |chunk|]
    requires forall k :: 0 <= k < n ==> chunk[k] != CR && chunk[k] != LF
    ensures forall k :: at <= k < at + n ==> s[k] !in EOL_CHARS
    ensures n < |chunk| ==> s[at + n] == chunk[n]
  {
    assert forall k :: at <= k < at + n ==> s[k] == chunk[k - at];
  }

  lemma FirstInIs(s: seq<byte>, stops: set<byte>, n: nat)
    requires n <= |s| && (n < |s| ==> s[n] in stops) && forall k :: 0 <= k < n ==> s[k] !in stops
    ensures n == FirstIn(s, stops)
  {
    hide FirstIn;
    var m := FirstIn(s, stops);
    assert n < |s| && m < |s| ==> s[n] in stops && s[m] in stops;
  }

  /** The first byte of `s`, at or after `from`, that is one of `stops`. */
  ghost function FirstFrom(s: seq<byte>, from: nat, stops: set<byte>): (n: nat)
    requires from <= |s|
    ensures from <= n <= |s| && (n < |s| ==> s[n] in stops)
    ensures forall k :: from <= k < n ==> s[k] !in stops
  {
    from + FirstIn(s[from..], stops)
  }

  /** Moves a position on to the first byte that is one of `stops`. */
  method Seek(b: Evbuffer, it: Ptr, stops: set<byte>) returns (r: Ptr)
    requires b.Valid() && it.Ptr? && Good(b.chains, it)
    ensures it.pos <= |b.Contents()|
    ensures var n := FirstFrom(b.Contents(), it.pos, stops);
            if n < |b.Contents()| then
              r.Ptr? && r.pos == n && Good(b.chains, r) && r.chain < |b.chains| && r.posInChain < b.chains[r.chain].off
            else
              r.NotFound?
  {
    hide Spell, Chain.Data, FirstIn;
    var i: nat, at: nat, pos: nat := it.chain, it.posInChain, it.pos;
    ghost var all := b.Contents();
    assert b.chains[..|b.chains|] == b.chains;
    while i < |b.chains|
      invariant it.chain <= i && Good(b.chains, Ptr(pos, i, at)) && it.pos <= pos
      invariant forall k :: it.pos <= k < pos ==> k < |all| && all[k] !in stops
    {
      SpellWindow(b.chains, i);
      var rest := b.chains[i].Data()[at..];
      var n;
      if stops == EOL_CHARS {
        n := FindEolChar(rest);
      } else {
        n := FirstIn(rest, stops);
      }
      assert forall k :: 0 <= k < |rest| ==> all[pos + k] == rest[k];
      assert forall k :: pos <= k < pos + n ==> all[k] == rest[k - pos];
      if n < |rest| {
        return Ptr(pos + n, i, at + n);
      }
      i, at, pos := i + 1, 0, pos + |rest|;
    }
    r := NotFound;
  }

  /** How many bytes from `from` on are among `chars`. */
  ghost function Run(s: seq<byte>, from: nat, chars: set<byte>): (n: nat)
    requires from <= |s|
    ensures from + n <= |s| && (from + n < |s| ==> s[from + n] !in chars)
    ensures forall k :: from <= k < from + n ==> s[k] in chars
    decreases |s| - from
  {
    if from < |s| && s[from] in chars then 1 + Run(s, from + 1, chars) else 0
  }

  lemma RunUnique(s: seq<byte>, from: nat, n: nat, chars: set<byte>)
    requires from + n <= |s| && (from + n < |s| ==> s[from + n] !in chars)
    requires forall k :: from <= k < from + n ==> s[k] in chars
    ensures n == Run(s, from, chars)
  {
  }

  /** Counts the bytes from a position on that are among `chars`. */
  method Strspn(b: Evbuffer, it: Ptr, chars: set<byte>) returns (count: nat)
    requires b.Valid() && it.Ptr? && Good(b.chains, it)
    ensures it.pos <= |b.Contents()|
    ensures count == Run(b.Contents(), it.pos, chars)
  {
    hide Spell, Chain.Data, Run;
    var i: nat, at: nat := it.chain, it.posInChain;
    ghost var all := b.Contents();
    assert b.chains[..|b.chains|] == b.chains;
    count := 0;
    while i < |b.chains|
      invariant it.chain <= i && Good(b.chains, Ptr(it.pos + count, i, at))
      invariant forall k :: it.pos <= k < it.pos + count ==> k < |all| && all[k] in chars
      decreases |b.chains| - i, if i < |b.chains| then b.chains[i].off - at else 0
    {
      SpellWindow(b.chains, i);
      if at < b.chains[i].off {
        assert b.chains[i].Data()[at] == all[it.pos + count];
        if b.chains[i].Data()[at] !in chars {
          RunUnique(all, it.pos, count, chars);
          return;
        }
        at, count := at + 1, count + 1;
      } else {
        i, at := i + 1, 0;
      }
    }
    RunUnique(all, it.pos, count, chars);
  }

  datatype EolStyle = Any | Crlf | CrlfStrict | Lf | Nul

  const CRLF: seq<byte> := [CR, LF]

  /** The line end of a style: where it starts, and how long it is. */
  ghost function Eol(s: seq<byte>, from: nat, style: EolStyle): Option<(nat, nat)>
    requires from <= |s|
  {
    match style
    case Any =>
      var n := FirstFrom(s, from, EOL_CHARS);
      if n < |s| then Some((n, Run(s, n, EOL_CHARS))) else None
    case Crlf =>
      var n := FirstFrom(s, from, {LF});
      if n == |s| then None else if n > from && s[n - 1] == CR then Some((n - 1, 2)) else Some((n, 1))
    case CrlfStrict =>
      if k: nat :| FirstMatch(s, CRLF, from, k) then Some((k, 2)) else None
    case Lf =>
      var n := FirstFrom(s, from, {LF});
      if n < |s| then Some((n, 1)) else None
    case Nul =>
      var n := FirstFrom(s, from, {0});
      if n < |s| then Some((n, 1)) else None
  }

  lemma FirstMatchUnique(s: seq<byte>, what: seq<byte>, from: nat, k: nat)
    requires FirstMatch(s, what, from, k)
    ensures forall j: nat :: FirstMatch(s, what, from, j) ==> j == k
  {
    hide MatchAt;
  }

  /** Finds the first line end at or after `start`. */
  method SearchEol(b: Evbuffer, start: Option<Ptr>, style: EolStyle) returns (r: Ptr, eolLen: nat)
    requires b.Valid()
    requires start.Some? ==> Good(b.chains, start.value)
    ensures start == Some(NotFound) ==> r.NotFound?
    ensures start != Some(NotFound) ==> StartPos(start) <= |b.Contents()|
    ensures start != Some(NotFound) ==>
              var e := Eol(b.Contents(), StartPos(start), style);
              if e.Some? then r.Ptr? && r.pos == e.value.0 && eolLen == e.value.1 else r.NotFound?
    ensures if r.Ptr? then Good(b.chains, r) else eolLen == 0
  {
    hide Spell, Chain.Data, Packed, Good, FirstMatch, FirstIn, Run;
    eolLen := 0;
    if start.Some? && start.value.NotFound? {
      return NotFound, 0;
    }
    var it := if start.Some? then start.value else Ptr(0, 0, 0);
    StartIsGood(b.chains);
    GoodInside(b.chains, it);
    if start.Some? && it.chain == |b.chains| {
      NoEolAtEnd(b.Contents(), style);
      return NotFound, 0;
    }
    match style
    case Any =>
      r := Seek(b, it, EOL_CHARS);
      if r.Ptr? {
        eolLen := Strspn(b, r, EOL_CHARS);
      }
    case CrlfStrict =>
      r := SeekStrict(b, it);
      eolLen := if r.Ptr? then 2 else 0;
    case Crlf =>
      r, eolLen := SeekCrlf(b, it);
    case Lf =>
      r := Seek(b, it, {LF});
      eolLen := if r.Ptr? then 1 else 0;
    case Nul =>
      r := Seek(b, it, {0});
      eolLen := if r.Ptr? then 1 else 0;
  }

  lemma StartIsGood(cs: seq<Chain>)
    requires AllOk(cs)
    ensures Good(cs, Ptr(0, 0, 0))
  {
    SpellEmpties(cs[..0]);
  }

  /** A position is within the contents, and without a chain at their end. */
  lemma GoodInside(cs: seq<Chain>, p: Ptr)
    requires AllOk(cs) && p.Ptr? && Good(cs, p)
    ensures p.chain <= |cs| && p.pos <= |Spell(cs)| && (p.chain == |cs| ==> p.pos == |Spell(cs)|)
  {
    hide Spell, Chain.Data;
    assert cs[..|cs|] == cs;
    if p.chain < |cs| {
      SpellWindow(cs, p.chain);
    }
  }

  /** A carriage return followed by a line feed. */
  method SeekStrict(b: Evbuffer, it: Ptr) returns (r: Ptr)
    requires b.Valid() && it.Ptr? && Good(b.chains, it)
    ensures r.Ptr? ==> Good(b.chains, r) && FirstMatch(b.Contents(), CRLF, it.pos, r.pos)
                       && forall j: nat :: FirstMatch(b.Contents(), CRLF, it.pos, j) ==> j == r.pos
    ensures r.NotFound? ==> forall j: nat :: !FirstMatch(b.Contents(), CRLF, it.pos, j)
  {
    hide Spell, Chain.Data, Packed, Good, MatchAt;
    r := SearchRange(b, CRLF, Some(it), None);
    if r.Ptr? {
      FirstMatchUnique(b.Contents(), CRLF, it.pos, r.pos);
    } else {
      NoFirstMatch(b.Contents(), CRLF, it.pos);
    }
  }

  lemma NoFirstMatch(s: seq<byte>, what: seq<byte>, from: nat)
    requires forall k :: from <= k && k + |what| <= |s| ==> !MatchAt(s, what, k)
    ensures forall k: nat :: !FirstMatch(s, what, from, k)
  {
  }

  lemma NoEolAtEnd(s: seq<byte>, style: EolStyle)
    ensures Eol(s, |s|, style).None?
  {
  }

  /** The position before `r`, where there is a byte. */
  method StepBack(b: Evbuffer, r: Ptr) returns (before: Ptr)
    requires b.Valid() && r.Ptr? && Good(b.chains, r) && 0 < r.pos <= |b.Contents()|
    ensures before.Ptr? && before.pos == r.pos - 1 && Good(b.chains, before) && before.chain < |b.chains|
    ensures before.posInChain < b.chains[before.chain].off
    ensures b.chains[before.chain].Ok()
    ensures b.chains[before.chain].Data()[before.posInChain] == b.Contents()[r.pos - 1]
  {
    hide Spell, Chain.Data, Packed;
    if r.posInChain >= 1 {
      before := Ptr(r.pos - 1, r.chain, r.posInChain - 1);
    } else {
      var ok;
      ok, before := PtrSet(b, r, r.pos - 1, Set);
    }
    assert b.chains[..|b.chains|] == b.chains;
    SpellWindow(b.chains, before.chain);
  }

  /** A line feed, and the carriage return before it if there is one. */
  method SeekCrlf(b: Evbuffer, it: Ptr) returns (r: Ptr, eolLen: nat)
    requires b.Valid() && it.Ptr? && Good(b.chains, it)
    ensures it.pos <= |b.Contents()|
    ensures var e := Eol(b.Contents(), it.pos, Crlf);
            if e.Some? then r.Ptr? && r.pos == e.value.0 && eolLen == e.value.1 else r.NotFound?
    ensures if r.Ptr? then Good(b.chains, r) else eolLen == 0
  {
    hide Spell, Chain.Data, Packed, Good, FirstIn;
    eolLen := 0;
    r := Seek(b, it, {LF});
    if r.NotFound? {
      return;
    }
    eolLen := 1;
    if r.pos == it.pos {
      return;
    }
    var before := StepBack(b, r);
    if b.chains[before.chain].Data()[before.posInChain] == CR {
      r, eolLen := before, 2;
    }
  }

  /** Takes one line off the front of the buffer, and the line end with it. */
  method Readln(b: Evbuffer, style: EolStyle) returns (line: Option<seq<byte>>)
    requires b.Valid()
    modifies b`chains, b`last, b`lwd, b`totalLen
    ensures b.Valid()
    ensures line.None? <==> b.freezeStart || Eol(old(b.Contents()), 0, style).None?
    ensures line.None? ==> b.Contents() == old(b.Contents())
    ensures line.Some? ==>
              var (at, len) := Eol(old(b.Contents()), 0, style).value;
              line.value == old(b.Contents())[..at] && b.Contents() == old(b.Contents())[at + len..]
  {
    hide Spell, Chain.Data, Eol, Packed, Good;
    if b.freezeStart {
      return None;
    }
    var it, eolLen := SearchEol(b, None, style);
    if it.NotFound? {
      return None;
    }
    EolInside(b.Contents(), style);
    line := TakeLine(b, it.pos, eolLen);
  }

  /** Takes `at` bytes off, and drops `len` more. */
  method TakeLine(b: Evbuffer, at: nat, len: nat) returns (line: Option<seq<byte>>)
    requires b.Valid() && !b.freezeStart && at + len <= |b.Contents()|
    modifies b`chains, b`last, b`lwd, b`totalLen
    ensures b.Valid()
    ensures line == Some(old(b.Contents())[..at]) && b.Contents() == old(b.Contents())[at + len..]
  {
    hide Spell, Chain.Data, Packed, AllOk;
    DropTwice(b.Contents(), at, len);
    line := b.Remove(at);
    var ok := b.Drain(len);
  }

  lemma DropTwice(s: seq<byte>, at: nat, len: nat)
    requires at + len <= |s|
    ensures s[at..][len..] == s[at + len..]
    ensures forall t: seq<byte>, rest :: |t| == at && s == t + rest ==> t == s[..at] && rest == s[at..]
  {
  }

  lemma EolInside(s: seq<byte>, style: EolStyle)
    ensures var e := Eol(s, 0, style); e.Some? ==> e.value.0 + e.value.1 <= |s|
  {
  }

  /** What a line end of a style looks like. */
  ghost predicate IsTerminator(t: seq<byte>, style: EolStyle) {
    match style
    case Any => |t| > 0 && forall k :: 0 <= k < |t| ==> t[k] in EOL_CHARS
    case Crlf => t == [LF] || t == CRLF
    case CrlfStrict => t == CRLF
    case Lf => t == [LF]
    case Nul => t == [0]
  }

  /** A line end is a terminator of the style, as long as it can be on both sides, and the line before it,
      from where the search began, has none inside. */
  lemma EolIsFirst(s: seq<byte>, from: nat, style: EolStyle)
    requires from <= |s| && Eol(s, from, style).Some?
    ensures var (at, len) := Eol(s, from, style).value;
            && from <= at && at + len <= |s| && IsTerminator(s[at..at + len], style)
            && (forall i, j :: from <= i < j <= at ==> !IsTerminator(s[i..j], style))
            && (style.Any? && at + len < |s| ==> s[at + len] !in EOL_CHARS)
            && (style.Crlf? && at > from ==> !IsTerminator(s[at - 1..at + len], style))
  {
    hide IsTerminator;
    EolIsTerminator(s, from, style);
    var (at, len) := Eol(s, from, style).value;
    forall i, j | from <= i < j <= at
      ensures !IsTerminator(s[i..j], style)
    {
      NoneBefore(s, from, style, i, j);
    }
  }

  lemma EolIsTerminator(s: seq<byte>, from: nat, style: EolStyle)
    requires from <= |s| && Eol(s, from, style).Some?
    ensures var (at, len) := Eol(s, from, style).value;
            && from <= at && at + len <= |s| && IsTerminator(s[at..at + len], style)
            && (style.Any? && at + len < |s| ==> s[at + len] !in EOL_CHARS)
            && (style.Crlf? && at > from ==> !IsTerminator(s[at - 1..at + len], style))
  {
    hide FirstIn, Run, MatchAt, IsTerminator;
    match style
    case Any =>
      RunIsAny(s, FirstFrom(s, from, EOL_CHARS));
    case Crlf =>
      CrlfEnd(s, from, FirstFrom(s, from, {LF}));
    case CrlfStrict =>
      StrictEnd(s, from, Eol(s, from, CrlfStrict).value.0);
    case Lf =>
      OneByteEnd(s, FirstFrom(s, from, {LF}));
    case Nul =>
      OneByteEnd(s, FirstFrom(s, from, {0}));
  }

  lemma RunIsAny(s: seq<byte>, n: nat)
    requires n < |s| && s[n] in EOL_CHARS
    ensures var k := Run(s, n, EOL_CHARS);
            && n + k <= |s| && IsTerminator(s[n..n + k], Any) && (n + k < |s| ==> s[n + k] !in EOL_CHARS)
  {
  }

  /** The longer line end is taken if it is there, and no longer one. */
  lemma CrlfEnd(s: seq<byte>, from: nat, n: nat)
    requires from <= n < |s| && s[n] == LF && forall k :: from <= k < n ==> s[k] != LF
    ensures if n > from && s[n - 1] == CR then
              IsTerminator(s[n - 1..n + 1], Crlf) && (n > from + 1 ==> !IsTerminator(s[n - 2..n + 1], Crlf))
            else
              IsTerminator(s[n..n + 1], Crlf) && (n > from ==> !IsTerminator(s[n - 1..n + 1], Crlf))
  {
    if n > from {
      var t := s[n - 1..n + 1];
      assert t[0] == s[n - 1] && t[1] == s[n];
      assert t == [s[n - 1], LF];
    }
    assert s[n..n + 1] == [LF];
  }

  lemma StrictEnd(s: seq<byte>, from: nat, k: nat)
    requires FirstMatch(s, CRLF, from, k)
    ensures from <= k && k + 2 <= |s| && IsTerminator(s[k..k + 2], CrlfStrict)
  {
  }

  lemma OneByteEnd(s: seq<byte>, n: nat)
    requires n < |s|
    ensures s[n] == LF ==> IsTerminator(s[n..n + 1], Lf)
    ensures s[n] == 0 ==> IsTerminator(s[n..n + 1], Nul)
  {
    assert s[n..n + 1] == [s[n]];
  }

  lemma NoneBefore(s: seq<byte>, from: nat, style: EolStyle, i: nat, j: nat)
    requires from <= |s| && Eol(s, from, style).Some? && from <= i < j <= Eol(s, from, style).value.0
    ensures j <= |s| && !IsTerminator(s[i..j], style)
  {
    var t := s[i..j];
    assert t[0] == s[i] && t[|t| - 1] == s[j - 1];
    CrlfMatches(s, i, j);
  }

  lemma CrlfMatches(s: seq<byte>, i: nat, j: nat)
    requires i <= j <= |s|
    ensures s[i..j] == CRLF ==> MatchAt(s, CRLF, i)
  {
    if s[i..j] == CRLF {
      assert |s[i..j]| == |CRLF|;
      assert s[i..i + |CRLF|] == CRLF;
    }
  }

  /** Without a line end, no terminator is anywhere from where the search began. */
  lemma NoEol(s: seq<byte>, from: nat, style: EolStyle)
    requires from <= |s| && Eol(s, from, style).None?
    ensures forall i, j :: from <= i < j <= |s| ==> !IsTerminator(s[i..j], style)
  {
    forall i, j | from <= i < j <= |s|
      ensures !IsTerminator(s[i..j], style)
    {
      var t := s[i..j];
      assert t[0] == s[i] && t[|t| - 1] == s[j - 1];
      if style.CrlfStrict? && t == CRLF {
        SomeFirstMatch(s, CRLF, from, i);
      }
    }
  }

  lemma {:induction false} SomeFirstMatch(s: seq<byte>, what: seq<byte>, from: nat, k: nat)
    requires from <= k && MatchAt(s, what, k)
    ensures exists j: nat :: FirstMatch(s, what, from, j)
  {
    if !FirstMatch(s, what, from, k) {
      var j: nat :| from <= j < k && MatchAt(s, what, j);
      SomeFirstMatch(s, what, from, j);
    }
  }
}
