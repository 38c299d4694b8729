/** A byte queue kept as a list of chains. */
module Evbuffers {
  import opened Bytes
  import opened Chains

  /** A stretch of writable memory: `len` bytes from offset `at` of chain `chain` on. */
  datatype Room = Room(chain: nat, at: nat, len: nat)

  /** Bytes written to a stretch of memory that starts at offset `at` of chain `chain`. */
  datatype Written = Written(chain: nat, at: nat, bytes: seq<byte>)

  ghost function RoomLen(rooms: seq<Room>): nat {
    if rooms == [] then 0 else RoomLen(rooms[..|rooms| - 1]) + rooms[|rooms| - 1].len
  }

  /** All bytes written, in order. */
  ghost function Joined(vecs: seq<Written>): seq<byte> {
    if vecs == [] then [] else Joined(vecs[..|vecs| - 1]) + vecs[|vecs| - 1].bytes
  }

  /** How much is written to chain `k` by writes to consecutive chains from chain `from` on. */
  ghost function Meant(vecs: seq<Written>, from: nat, k: int): nat {
    if from <= k < from + |vecs| then |vecs[k - from].bytes| else 0
  }

  /** Chains up to number `k` hold data, the later ones do not; if no chain does, `k` is 0. */
  ghost predicate Packed(cs: seq<Chain>, k: nat) {
    && (k > 0 ==> k < |cs| && cs[k].off > 0)
    && (forall i :: 0 <= i < k && i < |cs| ==> cs[i].off > 0)
    && (forall i :: k < i < |cs| ==> cs[i].off == 0)
  }

  /** No chain before one that `vecs` puts data in is or stays empty. */
  ghost predicate Gapless(cs: seq<Chain>, vecs: seq<Written>, from: nat) {
    forall j, k :: 0 <= k < j < |cs| && Meant(vecs, from, j) > 0 ==> cs[k].off > 0 || Meant(vecs, from, k) > 0
  }

  /** How many of the first `n` bytes are in chains that these fill. */
  ghost function WholeLen(cs: seq<Chain>, n: nat): nat {
    if |cs| == 0 || cs[0].off > n then 0 else cs[0].off + WholeLen(cs[1..], n - cs[0].off)
  }

  lemma {:induction false} WholeIs(cs: seq<Chain>, i: nat, n: nat)
    requires AllOk(cs) && i < |cs| && |Spell(cs[..i])| <= n < |Spell(cs[..i])| + cs[i].off
    ensures WholeLen(cs, n) == |Spell(cs[..i])|
  {
    hide Spell, Chain.Data;
    SpellEmpties(cs[..0]);
    if i > 0 {
      SpellFirst(cs[..i]);
      assert cs[..i][1..] == cs[1..][..i - 1];
      WholeIs(cs[1..], i - 1, n - cs[0].off);
    }
  }

  lemma {:induction false} WholeAtMost(cs: seq<Chain>, n: nat)
    requires AllOk(cs)
    ensures WholeLen(cs, n) <= Min(n, |Spell(cs)|)
  {
    hide Spell, Chain.Data;
    if |cs| > 0 && cs[0].off <= n {
      SpellFirst(cs);
      WholeAtMost(cs[1..], n - cs[0].off);
    }
  }

  /** The linked list of chains is the sequence `chains`. A pointer to a link of the list is a link
      number: 0 is the head of the list, and k > 0 is the `next` field of chain k - 1; link k leads
      to chain k. A link number is good as long as the chain that holds the link is in the list. */
  class Evbuffer {
    var chains: seq<Chain>
    var last: int                // the last chain; -1 without chains
    var lwd: nat                 // the link that leads to the last chain with data
    var totalLen: nat
    var freezeStart: bool
    var freezeEnd: bool

    /** The chains with data come first; `lwd` leads to the last of them, or is the head when no
        chain has data. */
    ghost predicate Listed()
      reads this
    {
      && AllOk(chains) && totalLen == |Spell(chains)|
      && (lwd < |chains| || lwd == |chains| == 0) && Packed(chains, lwd)
    }

    /** Besides, `last` is the last chain, also if that is empty. */
    ghost predicate Valid()
      reads this
    {
      Listed() && last == |chains| - 1
    }

    /** How many chains hold data in a valid buffer. */
    ghost function DataCount(): nat
      reads this
    {
      if lwd < |chains| && chains[lwd].off > 0 then lwd + 1 else 0
    }

    /** The byte string the buffer stands for. */
    ghost function Contents(): seq<byte>
      requires AllOk(chains)
      reads this
    {
      Spell(chains)
    }

    constructor ()
      ensures Valid() && Contents() == [] && chains == [] && !freezeStart && !freezeEnd
    {
      chains, last, lwd, totalLen, freezeStart, freezeEnd := [], -1, 0, 0, false, false;
    }

    lemma Shape()
      requires Valid()
      ensures DataCount() <= |chains| && AllEmpty(chains[DataCount()..])
      ensures forall i :: 0 <= i < DataCount() ==> chains[i].off > 0
      ensures forall i :: lwd < i < |chains| ==> chains[i].off == 0
      ensures lwd > 0 ==> chains[lwd].off > 0
      ensures AllEmpty(chains[if lwd < |chains| then lwd + 1 else 0..])
    {
    }

    lemma Trailing()
      requires Valid()
      ensures Contents() == Spell(chains[..DataCount()])
      ensures lwd < |chains| ==> Contents() == Spell(chains[..lwd]) + chains[lwd].Data()
      ensures lwd < |chains| ==> Contents() == Spell(chains[..lwd + 1])
      ensures totalLen == 0 <==> DataCount() == 0
    {
      hide Spell, Chain.Data, Packed;
      Shape();
      SpellTrim(chains, DataCount());
      if lwd < |chains| {
        SpellAt(chains, lwd);
        SpellEmpties(chains[lwd + 1..]);
        SpellFirst(chains);
      } else {
        SpellEmpties(chains);
      }
    }

    /** Writes back the chain that `lwd` leads to, after `n` bytes were added to it. */
    method PutLast(c: Chain, n: nat)
      requires Valid() && lwd < |chains| && c.Ok() && c.off == chains[lwd].off + n
      modifies this`chains, this`totalLen
      ensures Valid() && chains == old(chains)[lwd := c]
      ensures Contents() == Spell(old(chains)[..lwd]) + c.Data()
    {
      Shape();
      Trailing();
      SpellUpdate(chains, lwd, c);
      SpellEmpties(chains[lwd + 1..]);
      chains := chains[lwd := c];
      totalLen := totalLen + n;
    }

    /** Gives up chains before `i` and the first `n` bytes of that one; `lwd` was already moved off
        the links that go away. */
    method CutFront(i: nat, n: nat, ghost boundary: nat)
      requires AllOk(chains) && Packed(chains, boundary) && i <= boundary < |chains| == last + 1
      requires lwd == if i < boundary then boundary else 0
      requires n < chains[i].off
      modifies this`chains, this`last, this`lwd
      ensures AllOk(chains) && lwd < |chains| == last + 1 && Packed(chains, lwd)
      ensures var cut := |old(Spell(chains[..i]))| + n;
              && cut <= |old(Spell(chains))|
              && Spell(chains) == old(Spell(chains))[cut..]
              && old(Spell(chains))[..cut] == old(Spell(chains[..i])) + old(chains[i]).Data()[..n]
    {
      hide Spell, Chain.Data, Chain.Consume;
      SpellAt(chains, i);
      TakeInto(Spell(chains[..i]), chains[i].Data(), Spell(chains[i + 1..]), n);
      DropInto(Spell(chains[..i]), chains[i].Data(), Spell(chains[i + 1..]), n);
      DropFirst(i);
      var chain := chains[0].Consume(n);
      SpellFirst(chains[0 := chain]);
      assert chains[0 := chain][1..] == old(chains)[i + 1..];
      chains := chains[0 := chain];
    }

    /** Makes chain `k` the first one; the chains before it are freed. The link `lwd` must not be
        held by one of them. */
    method DropFirst(k: nat)
      requires k <= |chains| == last + 1 && (lwd == 0 || lwd > k)
      modifies this`chains, this`last, this`lwd
      ensures chains == old(chains)[k..] && last == |chains| - 1
      ensures lwd == if old(lwd) == 0 then 0 else old(lwd) - k
    {
      chains, last := chains[k..], last - k;
      lwd := if lwd == 0 then 0 else lwd - k;
    }

    /** Frees the empty chains at the end and returns the link where a new chain goes. The caller sets `last`. */
    method FreeTrailingEmptyChains() returns (ch: nat)
      requires Valid()
      modifies this`chains
      ensures Listed() && Contents() == old(Contents()) && DataCount() == old(DataCount())
      ensures ch == |chains| == DataCount() && chains == old(chains)[..ch]
    {
      hide Spell, Chain.Data;
      Shape();
      Trailing();
      ch := lwd;
      while ch < |chains| && chains[ch].off != 0
        invariant lwd <= ch <= DataCount()
      {
        ch := ch + 1;
      }
      if ch < |chains| {
        chains := chains[..ch];
      }
    }

    /** Adds a chain at the end, replacing any empty chains there. */
    method ChainInsert(chain: Chain)
      requires Valid() && chain.Ok()
      modifies this`chains, this`last, this`lwd, this`totalLen
      ensures Valid() && Contents() == old(Contents()) + chain.Data()
      ensures chains == old(chains)[..old(DataCount())] + [chain]
      ensures DataCount() == old(DataCount()) + if chain.off > 0 then 1 else 0
    {
      hide Spell, Chain.Data;
      if lwd == |chains| {
        chains, last := [chain], 0;
        SpellOne(chain);
        SpellEmpties(old(chains));
      } else {
        var chp := FreeTrailingEmptyChains();
        SpellSnoc(chains, chain);
        chains := chains + [chain];
        if chain.off > 0 {
          lwd := chp;
        }
        last := chp;
      }
      totalLen := totalLen + chain.off;
    }

    /** Appends to the space of the chain that `lwd` leads to. */
    method Fill(data: seq<byte>)
      requires Valid() && lwd < |chains| && |data| <= chains[lwd].SpaceLen()
      modifies this`chains, this`totalLen
      ensures Valid() && Contents() == old(Contents()) + data
      ensures chains == old(chains)[lwd := old(chains[lwd]).PutBack(data)]
    {
      hide Spell, Chain.Data, Chain.PutBack;
      Shape();
      Trailing();
      PutLast(chains[lwd].PutBack(data), |data|);
    }

    /** Allocates a chain for `size` bytes if the buffer has none. */
    method EnsureChain(size: nat) returns (ok: bool)
      requires Valid()
      modifies this`chains, this`last, this`lwd, this`totalLen
      ensures Valid() && Contents() == old(Contents())
      ensures ok <==> |old(chains)| > 0 || size <= CHAIN_MAX - CHAIN_SIZE
      ensures ok ==> |chains| > 0
      ensures |old(chains)| > 0 || !ok ==> chains == old(chains)
      ensures |old(chains)| == 0 && ok ==> chains[0].off == 0 && |chains[0].mem| >= size
    {
      if lwd == |chains| {
        var only := ChainNew(size);
        if only.None? {
          return false;
        }
        ChainInsert(only.value);
      }
      return true;
    }

    /** Appends `data`. */
    method Add(data: seq<byte>) returns (ok: bool)
      requires Valid()
      modifies this`chains, this`last, this`lwd, this`totalLen
      ensures Valid()
      ensures Contents() == old(Contents()) + if ok then data else []
      ensures ok <==> !freezeEnd && |data| <= SIZE_MAX - old(totalLen) && |data| <= CHAIN_MAX - CHAIN_SIZE
    {
      hide Spell, Chain.Data, Chain.PutBack, Chain.Align, Packed;
      if freezeEnd || |data| > SIZE_MAX - totalLen {
        return false;
      }
      ok := EnsureChain(|data|);
      if ok {
        var chain := chains[lwd];
        Shape();
        Trailing();
        if chain.SpaceLen() >= |data| {
          Fill(data);
        } else if chain.ShouldRealign(|data|) {
          PutLast(chain.Align().PutBack(data), |data|);
        } else {
          ok := AddSplit(data);
        }
      }
    }

    /** Fills the space of the last chain with data and puts the rest in a new one. */
    method AddSplit(data: seq<byte>) returns (ok: bool)
      requires Valid() && |chains| > 0 && chains[lwd].SpaceLen() < |data|
      modifies this`chains, this`last, this`lwd, this`totalLen
      ensures Valid()
      ensures Contents() == old(Contents()) + if ok then data else []
      ensures ok <==> |data| <= CHAIN_MAX - CHAIN_SIZE
    {
      hide Spell, Chain.Data, Chain.PutBack;
      var chain := chains[lwd];
      var remain := chain.SpaceLen();
      var toAlloc := |chain.mem|;
      if toAlloc <= MAX_AUTO_SIZE / 2 {
        toAlloc := toAlloc * 2;
      }
      if |data| > toAlloc {
        toAlloc := |data|;
      }
      var tmp := ChainNew(toAlloc);
      if tmp.None? {
        return false;
      }
      if remain > 0 {
        Fill(data[..remain]);
      }
      assert Contents() == old(Contents()) + data[..remain];
      ChainInsert(tmp.value.PutBack(data[remain..]));
      AppendTwice(old(Contents()), data, remain);
      return true;
    }

    method ZeroChain()
      modifies this`chains, this`last, this`lwd, this`totalLen
      ensures Valid() && chains == [] && Contents() == []
    {
      chains, last, lwd, totalLen := [], -1, 0, 0;
    }

    /** What can be written before the data of the first chain. */
    ghost function FrontRoom(): nat
      reads this
    {
      if |chains| == 0 then 0 else if chains[0].off == 0 then |chains[0].mem| else chains[0].misalign
    }

    /** Puts `data` in front. The end of it stays there when no chain can be had for the rest. */
    method Prepend(data: seq<byte>) returns (ok: bool)
      requires Valid()
      modifies this`chains, this`last, this`lwd, this`totalLen
      ensures Valid()
      ensures ok <==> && !freezeStart && |data| <= SIZE_MAX - old(totalLen)
                      && |data| - old(FrontRoom()) <= CHAIN_MAX - CHAIN_SIZE
      ensures ok ==> Contents() == data + old(Contents())
      ensures freezeStart || |data| > SIZE_MAX - old(totalLen) ==> Contents() == old(Contents())
      ensures !ok && !freezeStart && |data| <= SIZE_MAX - old(totalLen) ==>
                old(FrontRoom()) <= |data| && Contents() == data[|data| - old(FrontRoom())..] + old(Contents())
    {
      hide Spell, Chain.Data, Chain.PutFront, Chain.Rebase;
      if freezeStart || |data| > SIZE_MAX - totalLen {
        return false;
      }
      ok := EnsureChain(|data|);
      if ok {
        var room := if chains[0].off == 0 then |chains[0].mem| else chains[0].misalign;
        if room >= |data| {
          FillFront(data);
        } else if room > 0 {
          var rest := |data| - room;
          FillFront(data[rest..]);
          PrependTwice(data, old(Contents()), rest);
          ok := PrependChain(data[..rest]);
        } else {
          ok := PrependChain(data);
        }
      }
    }

    /** Writes before the data of the first chain; without data, at the end of its allocation. */
    method FillFront(data: seq<byte>)
      requires Valid() && |chains| > 0
      requires |data| <= if chains[0].off == 0 then |chains[0].mem| else chains[0].misalign
      modifies this`chains, this`totalLen
      ensures Valid() && Contents() == data + old(Contents())
      ensures |chains| == |old(chains)| && chains[0].off == old(chains[0].off) + |data|
    {
      hide Spell, Chain.Data, Chain.PutFront, Chain.Rebase;
      SpellFirst(chains);
      var chain := chains[0];
      if chain.off == 0 {
        chain := chain.Rebase(|chain.mem|);
      }
      PutFirst(chain.PutFront(data), |data|);
    }

    /** Puts a new chain with `data` at the end of its allocation in front. */
    method PrependChain(data: seq<byte>) returns (ok: bool)
      requires Valid() && |chains| > 0 && chains[0].off > 0 && |data| > 0
      modifies this`chains, this`last, this`lwd, this`totalLen
      ensures Valid()
      ensures Contents() == if ok then data + old(Contents()) else old(Contents())
      ensures ok <==> |data| <= CHAIN_MAX - CHAIN_SIZE
    {
      var tmp := ChainNew(|data|);
      if tmp.None? {
        return false;
      }
      var front := tmp.value.Rebase(|tmp.value.mem|).PutFront(data);
      SpellConcat([front], chains);
      SpellOne(front);
      chains, last := [front] + chains, last + 1;
      lwd := lwd + 1;   // the link to the old first chain is now held by the new one
      totalLen := totalLen + |data|;
      return true;
    }

    /** Writes back the first chain, after `n` bytes were added to it. */
    method PutFirst(c: Chain, n: nat)
      requires Valid() && |chains| > 0 && c.Ok() && c.off == chains[0].off + n
      modifies this`chains, this`totalLen
      ensures Valid() && chains == old(chains)[0 := c]
      ensures Contents() == c.Data() + Spell(old(chains)[1..])
    {
      SpellUpdate(chains, 0, c);
      SpellAt(chains, 0);
      chains := chains[0 := c];
      totalLen := totalLen + n;
    }

    /** Removes the first `len` bytes, or everything. */
    method Drain(len: nat) returns (ok: bool)
      requires Valid()
      modifies this`chains, this`last, this`lwd, this`totalLen
      ensures Valid()
      ensures ok == (old(totalLen) == 0 || !freezeStart)
      ensures Contents() == if ok then old(Contents())[Min(len, old(totalLen))..] else old(Contents())
    {
      hide Spell, Chain.Data, Chain.Consume;
      if totalLen == 0 {
        return true;
      }
      if freezeStart {
        return false;
      }
      if len >= totalLen {
        ZeroChain();
        return true;
      }
      Shape();
      Trailing();
      totalLen := totalLen - len;
      var remaining: nat := len;
      var i := 0;
      SpellEmpties(chains[..0]);
      while remaining >= chains[i].off
        invariant i <= old(lwd) < |chains|
        invariant lwd == if i < old(lwd) then old(lwd) else 0
        invariant len == remaining + |Spell(chains[..i])|
        modifies this`lwd
      {
        SpellAt(chains, i);
        remaining := remaining - chains[i].off;
        if i == lwd || i + 1 == lwd {
          lwd := 0;
        }
        i := i + 1;
      }
      CutFront(i, remaining, old(lwd));
      return true;
    }

    /** Copies out the first `datlen` bytes, or all there are. */
    method CopyOut(datlen: nat) returns (data: Option<seq<byte>>)
      requires Valid()
      ensures data.None? <==> Min(datlen, totalLen) > 0 && freezeStart
      ensures data.Some? ==> data.value == Contents()[..Min(datlen, totalLen)]
    {
      hide Spell, Chain.Data;
      var want: nat := if datlen > totalLen then totalLen else datlen;
      if want == 0 {
        return Some([]);
      }
      if freezeStart {
        return None;
      }
      var out := [];
      var left: nat := want;
      var i := 0;
      SpellEmpties(chains[..0]);
      assert chains[..|chains|] == chains;
      while left > 0 && left >= chains[i].off
        invariant i <= |chains| && (left > 0 ==> i < |chains|)
        invariant out == Spell(chains[..i]) && |out| + left == want
        decreases |chains| - i
      {
        SpellAt(chains, i);
        out := out + chains[i].Data();
        left := left - chains[i].off;
        i := i + 1;
      }
      if left > 0 {
        SpellAt(chains, i);
        TakeInto(out, chains[i].Data(), Spell(chains[i + 1..]), left);
        out := out + chains[i].Data()[..left];
      } else {
        SpellCut(chains, i);
        assert Contents()[..|out|] == out;
      }
      data := Some(out);
    }

    /** Copies out and drains. */
    method Remove(datlen: nat) returns (data: Option<seq<byte>>)
      requires Valid()
      modifies this`chains, this`last, this`lwd, this`totalLen
      ensures Valid()
      ensures data.None? <==> Min(datlen, old(totalLen)) > 0 && freezeStart
      ensures data.None? ==> Contents() == old(Contents())
      ensures data.Some? ==> old(Contents()) == data.value + Contents() && |data.value| == Min(datlen, old(totalLen))
    {
      hide Spell;
      data := CopyOut(datlen);
      if data.Some? && data.value != [] {
        var ok := Drain(|data.value|);
      }
    }

    /** Moves everything in `inbuf` to the end of this buffer. */
    method AddBuffer(inbuf: Evbuffer) returns (ok: bool)
      requires Valid() && inbuf.Valid()
      modifies this`chains, this`last, this`lwd, this`totalLen, inbuf`chains, inbuf`last, inbuf`lwd, inbuf`totalLen
      ensures Valid() && inbuf.Valid()
      ensures ok <==> old(inbuf.totalLen) == 0 || inbuf == this || !(freezeEnd || inbuf.freezeStart)
      ensures !ok || inbuf == this ==> Contents() == old(Contents()) && inbuf.Contents() == old(inbuf.Contents())
      ensures ok && inbuf != this ==> Contents() == old(Contents()) + old(inbuf.Contents()) && inbuf.Contents() == []
    {
      hide Spell, Chain.Data;
      inbuf.Trailing();
      Trailing();
      if inbuf.totalLen == 0 || inbuf == this {
        return true;
      }
      if freezeEnd || inbuf.freezeStart {
        return false;
      }
      if totalLen == 0 {
        // the chains of this buffer, all empty, are freed
        chains, last, lwd, totalLen := inbuf.chains, inbuf.last, inbuf.lwd, inbuf.totalLen;
      } else {
        var chp := FreeTrailingEmptyChains();
        SpellConcat(chains, inbuf.chains);
        // the links of `inbuf` keep their holders, the head of it becomes `chp`
        lwd := if inbuf.lwd == 0 then chp else chp + inbuf.lwd;
        chains, last := chains + inbuf.chains, chp + inbuf.last;
        totalLen := totalLen + inbuf.totalLen;
      }
      inbuf.ZeroChain();
      return true;
    }

    /** Moves everything in `inbuf` to the front of this buffer. */
    method PrependBuffer(inbuf: Evbuffer) returns (ok: bool)
      requires Valid() && inbuf.Valid()
      modifies this`chains, this`last, this`lwd, this`totalLen, inbuf`chains, inbuf`last, inbuf`lwd, inbuf`totalLen
      ensures AllOk(chains) && totalLen == |Contents()| && last == |chains| - 1 && inbuf.Valid()
      ensures ok <==> old(inbuf.totalLen) == 0 || inbuf == this || !(freezeStart || inbuf.freezeStart)
      ensures !ok || inbuf == this ==>
                Valid() && Contents() == old(Contents()) && inbuf.Contents() == old(inbuf.Contents())
      ensures ok && inbuf != this ==> Contents() == old(inbuf.Contents()) + old(Contents()) && inbuf.Contents() == []
      ensures ok && inbuf != this && old(inbuf.totalLen) > 0 ==>
                chains == old(inbuf.chains) + if old(totalLen) == 0 then [] else old(chains)
      // empty chains at the end of `inbuf` land between chains with data
      ensures ok && inbuf != this && old(inbuf.totalLen) > 0 ==>
                (Valid() <==> old(totalLen) == 0 || old(inbuf.DataCount()) == |old(inbuf.chains)|)
    {
      hide Spell, Chain.Data, Packed;
      inbuf.Trailing();
      Trailing();
      if inbuf.totalLen == 0 || inbuf == this {
        return true;
      }
      if freezeStart || inbuf.freezeStart {
        return false;
      }
      inbuf.AllData();
      if totalLen == 0 {
        // the chains of this buffer, all empty, are freed
        chains, last, lwd, totalLen := inbuf.chains, inbuf.last, inbuf.lwd, inbuf.totalLen;
      } else {
        LinkFront(inbuf.chains, inbuf.last, inbuf.totalLen);
      }
      inbuf.ZeroChain();
      return true;
    }

    lemma AllData()
      requires Valid() && totalLen > 0
      ensures DataCount() == |chains| <==> forall i :: 0 <= i < |chains| ==> chains[i].off > 0
    {
      hide Spell, Chain.Data;
      Shape();
      Trailing();
      assert lwd + 1 < |chains| ==> chains[lwd + 1].off == 0;
    }

    /** Links chains, of which `end` is the last, before the first one. */
    method LinkFront(more: seq<Chain>, end: int, len: nat)
      requires Valid() && totalLen > 0 && AllOk(more) && end == |more| - 1 >= 0 && len == |Spell(more)|
      modifies this`chains, this`last, this`lwd, this`totalLen
      ensures chains == more + old(chains) && AllOk(chains) && last == |chains| - 1
      ensures Contents() == Spell(more) + old(Contents()) && totalLen == |Contents()|
      ensures Valid() <==> forall i :: 0 <= i < |more| ==> more[i].off > 0
    {
      hide Spell, Chain.Data;
      Shape();
      Trailing();
      SpellConcat(more, chains);
      // the head link of this buffer becomes the `next` link of chain `end`
      lwd, last := end + 1 + lwd, end + 1 + last;
      chains := more + chains;
      totalLen := totalLen + len;
      assert forall i :: 0 <= i < |more| ==> chains[i] == more[i];
    }

    /** Moves the first `datlen` bytes of this buffer, or all there are, to the end of `dst`. */
    method RemoveBuffer(dst: Evbuffer, datlen: nat) returns (moved: Option<nat>)
      requires Valid() && dst.Valid()
      modifies this`chains, this`last, this`lwd, this`totalLen, dst`chains, dst`last, dst`lwd, dst`totalLen
      ensures Valid() && dst.Valid()
      ensures moved.None? <==> datlen > 0 && dst != this && (dst.freezeEnd || freezeStart)
      ensures moved.None? || dst == this ==>
                Contents() == old(Contents()) && dst.Contents() == old(dst.Contents())
      ensures moved.Some? && dst != this ==>
                && moved.value == Min(datlen, old(totalLen))
                && Contents() == old(Contents())[moved.value..]
                && old(WholeLen(chains, datlen)) <= moved.value <= old(totalLen)
                && (var k := if datlen >= old(totalLen) || moved.value + old(dst.totalLen) <= SIZE_MAX
                             then moved.value else old(WholeLen(chains, datlen));
                    dst.Contents() == old(dst.Contents()) + old(Contents())[..k])
    {
      hide Spell, Packed, Chain.Data;
      WholeAtMost(chains, datlen);
      if datlen == 0 || dst == this {
        return Some(0);
      }
      if dst.freezeEnd || freezeStart {
        return None;
      }
      if datlen >= totalLen {
        moved := Some(totalLen);
        var ok := dst.AddBuffer(this);
        return;
      }
      ghost var boundary := lwd;
      var i, nread, left := PassWhole(datlen);
      MoveFront(dst, i, nread, left, boundary);
      totalLen := totalLen - datlen;
      return Some(datlen);
    }

    /** Finds the chains that the first `datlen` bytes fill, and what is left for the next one; `lwd`
        leaves the links that those chains hold. */
    method PassWhole(datlen: nat) returns (i: nat, nread: nat, left: nat)
      requires Valid() && 0 < datlen < totalLen
      modifies this`lwd
      ensures i <= old(lwd) < |chains| && lwd == (if i < old(lwd) then old(lwd) else 0)
      ensures datlen == nread + left && nread == |Spell(chains[..i])| && left < chains[i].off
      ensures nread > 0 <==> i > 0
      ensures nread == WholeLen(chains, datlen)
    {
      hide Spell, Packed, Chain.Data;
      Shape();
      Trailing();
      left, nread, i := datlen, 0, 0;
      SpellEmpties(chains[..0]);
      while chains[i].off <= left
        invariant i <= old(lwd) < |chains|
        invariant lwd == if i < old(lwd) then old(lwd) else 0
        invariant datlen == left + nread && nread == |Spell(chains[..i])| && (nread > 0 <==> i > 0)
        modifies this`lwd
      {
        SpellAt(chains, i);
        nread, left := nread + chains[i].off, left - chains[i].off;
        if lwd == i + 1 {
          lwd := 0;
        }
        i := i + 1;
      }
      WholeIs(chains, i, datlen);
    }

    /** Links the chains before `i` into `dst`, and copies `left` bytes of that one. */
    method MoveFront(dst: Evbuffer, i: nat, nread: nat, left: nat, ghost boundary: nat)
      requires dst != this && dst.Valid() && !dst.freezeEnd
      requires AllOk(chains) && Packed(chains, boundary) && i <= boundary < |chains| == last + 1
      requires lwd == if i < boundary then boundary else 0
      requires nread == |Spell(chains[..i])| && left < chains[i].off && (nread > 0 <==> i > 0)
      modifies this`chains, this`last, this`lwd, dst`chains, dst`last, dst`lwd, dst`totalLen
      ensures AllOk(chains) && lwd < |chains| == last + 1 && Packed(chains, lwd) && dst.Valid()
      ensures nread + left <= |old(Contents())| && Contents() == old(Contents())[nread + left..]
      ensures nread + left + old(dst.totalLen) <= SIZE_MAX ==>
                dst.Contents() == old(dst.Contents()) + old(Contents())[..nread + left]
      ensures nread + left + old(dst.totalLen) > SIZE_MAX ==>
                dst.Contents() == old(dst.Contents()) + old(Contents())[..nread]
    {
      hide Spell, Packed, Chain.Data, Chain.Consume;
      if nread > 0 {
        BeforeBoundary(i, boundary);
        dst.TakeChains(chains[..i], nread);
      } else {
        SpellEmpties(chains[..i]);
      }
      var ok := dst.Add(chains[i].Data()[..left]);
      AppendPieces(old(dst.Contents()), Spell(chains[..i]), chains[i].Data()[..left]);
      CutFront(i, left, boundary);
    }

    lemma BeforeBoundary(i: nat, boundary: nat)
      requires Packed(chains, boundary) && i <= boundary < |chains|
      ensures forall k :: 0 <= k < i ==> chains[k].off > 0
    {
    }

    /** Moves `lwd` on to the last chain with data. */
    method AdvanceLastWithData()
      modifies this`lwd
      ensures old(lwd) <= lwd && (lwd < |chains| || lwd == old(lwd))
      ensures forall i :: old(lwd) < i <= lwd ==> chains[i].off > 0
      ensures old(lwd) < |chains| ==> lwd + 1 == |chains| || chains[lwd + 1].off == 0
    {
      if lwd >= |chains| {
        return;
      }
      while lwd + 1 < |chains| && chains[lwd + 1].off > 0
        invariant old(lwd) <= lwd < |chains|
        invariant forall i :: old(lwd) < i <= lwd ==> chains[i].off > 0
      {
        lwd := lwd + 1;
      }
    }

    /** Links chains with data behind the last chain with data. */
    method TakeChains(more: seq<Chain>, nread: nat)
      requires Valid() && AllOk(more) && forall i :: 0 <= i < |more| ==> more[i].off > 0
      requires |more| > 0 && nread == |Spell(more)|
      modifies this`chains, this`last, this`lwd, this`totalLen
      ensures Valid() && Contents() == old(Contents()) + Spell(more) && |chains| > 0
    {
      hide Spell;
      var chp := FreeTrailingEmptyChains();
      SpellConcat(chains, more);
      chains, last := chains + more, chp + |more| - 1;
      AdvanceLastWithData();
      totalLen := totalLen + nread;
    }

    /** Makes the first `size` bytes contiguous (all of them for a negative size) and returns them. */
    method Pullup(size: int) returns (head: Option<seq<byte>>)
      requires Valid()
      modifies this`chains, this`last, this`lwd
      ensures Valid() && Contents() == old(Contents())
      ensures var n := if size < 0 then totalLen else size;
              && (head.Some? <==> 0 < n <= totalLen && n <= CHAIN_MAX - CHAIN_SIZE)
              && (head.Some? ==> |chains| > 0 && |head.value| == n <= chains[0].off
                                 && head.value == chains[0].Data()[..n] == Contents()[..n])
    {
      hide Spell, Chain.Data, Chain.Consume, Chain.PutBack;
      var n: nat := if size < 0 then totalLen else size;
      if n == 0 || n > totalLen {
        return None;
      }
      Shape();
      Trailing();
      SpellFirst(chains);
      SpellEmpties(chains[..0]);
      assert chains[0..] == chains;
      if chains[0].off >= n {
        return Some(chains[0].Data()[..n]);
      }
      if |chains[0].mem| - chains[0].misalign >= n {
        PullInto(chains[0], 1, n - chains[0].off);
      } else {
        var tmp := ChainNew(n);
        if tmp.None? {
          return None;
        }
        PullInto(tmp.value, 0, n);
      }
      SpellFirst(chains);
      head := Some(chains[0].Data()[..n]);
    }

    /** Moves `size` bytes, from chain `start` on, to the end of `tmp`, which becomes the first chain. */
    method PullInto(tmp: Chain, start: nat, size: nat)
      requires Valid() && 0 < lwd < |chains| && start <= 1
      requires tmp.Ok() && size <= tmp.SpaceLen()
      requires if start == 1 then tmp == chains[0] else tmp.off == 0
      requires 0 < size <= |Spell(chains[start..])|
      modifies this`chains, this`last, this`lwd
      ensures Valid() && Contents() == old(Contents())
      ensures |chains| > 0 && chains[0].off == tmp.off + size
    {
      hide Spell, Packed, Chain.Data, Chain.Consume, Chain.PutBack;
      var dst, k, left, removedLast, removedLastPtr := Gather(tmp, start, size);
      ghost var cs := chains[start..];
      assert Contents() == tmp.Data() + Spell(cs) by {
        SpellFirst(chains);
        assert start == 0 ==> cs == chains;
      }
      ReplaceFront(dst, start, start + k, left, removedLast, removedLastPtr);
      if k < |cs| {
        SpellPulled(tmp.Data(), cs, k, left, dst);
        assert chains == [dst, cs[k].Consume(left)] + cs[k + 1..];
      } else {
        SpellOne(dst);
        assert cs[..k] == cs;
      }
    }

    /** Copies `size` bytes, from chain `start` on, behind the data of `tmp`: `k` whole chains, empty
        ones after them included, and `left` bytes of the next. The flags tell whether `lwd` leads to
        one of the `k` chains, and whether one of them holds it. */
    method Gather(tmp: Chain, start: nat, size: nat)
      returns (dst: Chain, k: nat, left: nat, removedLast: bool, removedLastPtr: bool)
      requires AllOk(chains) && start <= |chains| && tmp.Ok()
      requires size <= tmp.SpaceLen() && size <= |Spell(chains[start..])|
      ensures start + k <= |chains| && dst.Ok() && dst.off == tmp.off + size
      ensures start + k == |chains| ==> dst.Data() == tmp.Data() + Spell(chains[start..][..k])
      ensures start + k < |chains| ==>
                && left < chains[start + k].off
                && dst.Data() == tmp.Data() + Spell(chains[start..][..k]) + chains[start + k].Data()[..left]
      ensures removedLast <==> start <= lwd < start + k
      ensures removedLastPtr <==> start < lwd <= start + k
    {
      hide Spell, Chain.Data, Chain.PutBack;
      var cs := chains[start..];
      dst, left, k := tmp, size, 0;
      removedLast, removedLastPtr := false, false;
      SpellEmpties(cs[..0]);
      while k < |cs| && left >= cs[k].off
        invariant k <= |cs|
        invariant dst.Ok() && |dst.mem| == |tmp.mem| && dst.misalign == tmp.misalign
        invariant dst.Data() == tmp.Data() + Spell(cs[..k])
        invariant left + |Spell(cs[..k])| == size
        invariant removedLast <==> start <= lwd < start + k
        invariant removedLastPtr <==> start < lwd <= start + k
      {
        SpellAt(cs, k);
        AppendPieces(tmp.Data(), Spell(cs[..k]), cs[k].Data());
        dst := dst.PutBack(cs[k].Data());
        left := left - cs[k].off;
        if start + k == lwd {
          removedLast := true;
        }
        if start + k + 1 == lwd {
          removedLastPtr := true;
        }
        k := k + 1;
      }
      if k < |cs| {
        dst := dst.PutBack(cs[k].Data()[..left]);
      } else {
        assert cs[..k] == cs;
      }
    }

    /** Puts `dst` in the place of the chains before `i` and of the first `n` bytes of chain `i`.
        Of these chains all from number `start` on are freed; the flags tell whether `lwd` led to
        one of them, and whether one of them held it. */
    method ReplaceFront(dst: Chain, start: nat, i: nat, n: nat, removedLast: bool, removedLastPtr: bool)
      requires AllOk(chains) && Packed(chains, lwd) && lwd > 0 && start <= 1 && start <= i <= |chains| == last + 1
      requires dst.Ok() && dst.off > 0
      requires removedLast <==> start <= lwd < i
      requires removedLastPtr <==> start < lwd <= i
      requires i < |chains| ==> n < chains[i].off
      modifies this`chains, this`last, this`lwd
      ensures AllOk(chains) && lwd < |chains| == last + 1 && Packed(chains, lwd)
      ensures i == |old(chains)| ==> chains == [dst]
      ensures i < |old(chains)| ==>
                && |chains| == |old(chains)| - i + 1 && chains[0] == dst
                && chains[1] == old(chains[i]).Consume(n) && chains[2..] == old(chains)[i + 1..]
    {
      hide Spell, Chain.Data, Chain.PutBack;
      var rest := chains[i..];
      if rest != [] {
        rest := rest[0 := rest[0].Consume(n)];
        last := last - i + 1;
      } else {
        last := 0;
      }
      chains := [dst] + rest;
      if removedLast {
        lwd := 0;
      } else if removedLastPtr {
        lwd := 0;
        if |chains| > 1 && chains[1].off > 0 {
          lwd := 1;
        }
      } else if lwd > start {
        assert lwd > i;   // the chain that holds this link was not freed
        lwd := lwd - i + 1;
      }
    }

    /** The first chain with space to write to, which follows the data directly. */
    function FirstWithSpace(): nat
      requires AllOk(chains)
      reads this
    {
      if lwd < |chains| && chains[lwd].SpaceLen() == 0 then lwd + 1 else lwd
    }

    /** An empty chain is not passed over for its lack of space. */
    predicate Primed()
      requires AllOk(chains)
      reads this
    {
      lwd < |chains| && chains[lwd].off == 0 ==> chains[lwd].SpaceLen() > 0
    }

    /** For `datlen` bytes the first chain with space is passed over, for the chain after it or a new
        one: it is not worth moving its data. */
    predicate PassedOver(datlen: nat)
      requires AllOk(chains)
      reads this
    {
      var at := FirstWithSpace();
      && at < |chains| && 0 < chains[at].off && chains[at].SpaceLen() < datlen && !chains[at].ShouldRealign(datlen)
      && (chains[at].SpaceLen() < |chains[at].mem| / 8 || chains[at].off > MAX_TO_COPY
          || datlen >= CHAIN_MAX - chains[at].off)
    }

    /** The bytes go to the empty chain after the first one with space. */
    predicate TakesNext(datlen: nat)
      requires AllOk(chains)
      reads this
    {
      var at := FirstWithSpace();
      PassedOver(datlen) && at + 1 < |chains| && chains[at + 1].SpaceLen() >= datlen
    }

    /** The bytes go to a chain that takes the place of all empty ones. */
    predicate TakesNew(datlen: nat)
      requires AllOk(chains)
      reads this
    {
      var at := FirstWithSpace();
      || at >= |chains| || (chains[at].off == 0 && chains[at].SpaceLen() < datlen)
      || (PassedOver(datlen) && !TakesNext(datlen))
    }

    /** All chains before number `k` hold data. */
    ghost predicate Filled(k: nat)
      reads this
    {
      k <= |chains| && forall i :: 0 <= i < k ==> chains[i].off > 0
    }

    lemma FilledTo()
      requires Valid()
      ensures lwd <= |chains| ==> Filled(lwd)
      ensures lwd < |chains| && chains[lwd].off > 0 ==> Filled(lwd + 1)
    {
    }

    /** Makes room for `datlen` bytes in one chain and returns the number of this chain. */
    method ExpandSinglechain(datlen: nat) returns (where: Option<nat>)
      requires Valid()
      modifies this`chains, this`last, this`lwd, this`totalLen
      ensures Valid() && Contents() == old(Contents())
      ensures datlen + MAX_TO_COPY <= CHAIN_MAX - CHAIN_SIZE ==> where.Some?
      ensures where.Some? ==> where.value < |chains| && chains[where.value].SpaceLen() >= datlen
      ensures where.Some? && old(TakesNext(datlen)) ==> unchanged(this) && where.value == FirstWithSpace() + 1
      ensures where.Some? && old(TakesNew(datlen)) ==> where.value == last == old(DataCount())
      ensures where.Some? && !old(TakesNext(datlen)) && !old(TakesNew(datlen)) ==>
                where.value == FirstWithSpace() == old(FirstWithSpace()) && last == old(last)
      ensures where.Some? && old(Primed()) ==> Filled(where.value)
    {
      hide Spell, Chain.Data, Chain.PutBack, Chain.Align, Packed, Chain.ShouldRealign;
      var at := FirstWithSpace();
      InsertedAt();
      if at >= |chains| {
        where := InsertNew(datlen);
        return;
      }
      FilledTo();
      var chain := chains[at];
      if chain.SpaceLen() >= datlen {
        return Some(at);
      }
      if chain.off == 0 {
        where := InsertNew(datlen);
      } else if chain.ShouldRealign(datlen) {
        RealignLast(datlen);
        FilledTo();
        where := Some(at);
      } else if chain.SpaceLen() < |chain.mem| / 8 || chain.off > MAX_TO_COPY || datlen >= CHAIN_MAX - chain.off {
        if at + 1 < |chains| && chains[at + 1].SpaceLen() >= datlen {
          where := Some(at + 1);
        } else {
          where := InsertNew(datlen);
        }
      } else {
        where := CopyLast(datlen);
        FilledTo();
      }
    }

    /** Where a new chain would go, and that the first chain with space has data only if it is the last with data. */
    lemma InsertedAt()
      requires Valid()
      ensures FirstWithSpace() < |chains| && chains[FirstWithSpace()].off > 0 ==> FirstWithSpace() == lwd
      ensures DataCount() <= lwd + 1 && (lwd < |chains| && chains[lwd].off > 0 ==> DataCount() == lwd + 1)
    {
    }

    /** Moves the data of the last chain with data to its start. */
    method RealignLast(datlen: nat)
      requires Valid() && lwd < |chains| && chains[lwd].ShouldRealign(datlen) && datlen > 0
      modifies this`chains, this`totalLen
      ensures Valid() && Contents() == old(Contents()) && |chains| == |old(chains)|
      ensures chains[lwd].SpaceLen() >= datlen && FirstWithSpace() == lwd == old(lwd)
    {
      hide Spell, Chain.Data, Chain.PutBack, Chain.Align;
      Trailing();
      PutLast(chains[lwd].Align(), 0);
    }

    /** Moves the data of the last chain with data to a larger chain. */
    method CopyLast(datlen: nat) returns (where: Option<nat>)
      requires Valid() && lwd < |chains| && chains[lwd].off > 0 && datlen > 0
      modifies this`chains, this`totalLen
      ensures Valid() && Contents() == old(Contents()) && |chains| == |old(chains)|
      ensures chains[lwd].off + datlen <= CHAIN_MAX - CHAIN_SIZE ==> where.Some?
      ensures where.Some? ==> where.value == lwd == FirstWithSpace() && chains[lwd].SpaceLen() >= datlen
      ensures chains[lwd].off == old(chains)[lwd].off
    {
      hide Spell, Chain.Data, Chain.PutBack, Chain.Align;
      Trailing();
      var chain := chains[lwd];
      var tmp := ChainNew(chain.off + datlen);
      if tmp.None? {
        return None;
      }
      PutLast(tmp.value.PutBack(chain.Data()), 0);
      where := Some(lwd);
    }

    /** Adds an empty chain in the place of the empty chains at the end. */
    method InsertNew(datlen: nat) returns (where: Option<nat>)
      requires Valid()
      modifies this`chains, this`last, this`lwd, this`totalLen
      ensures Valid() && Contents() == old(Contents())
      ensures datlen <= CHAIN_MAX - CHAIN_SIZE ==> where.Some?
      ensures where.Some? ==>
                && where.value == old(DataCount()) == |chains| - 1
                && chains[where.value].SpaceLen() >= datlen && chains[where.value].SpaceLen() > 0
                && Filled(where.value)
    {
      hide Spell, Chain.Data;
      Shape();
      var chain := ChainNew(datlen);
      if chain.None? {
        return None;
      }
      ChainInsert(chain.value);
      where := Some(|chains| - 1);
    }

    /** The chains that a write with `n` pieces may use. */
    ghost function Window(n: nat): (w: seq<Chain>)
      requires AllOk(chains)
      reads this
      ensures AllOk(w)
    {
      var from := if FirstWithSpace() < |chains| then FirstWithSpace() else |chains|;
      if from + n <= |chains| then chains[from..from + n] else chains[from..]
    }

    /** Makes room for `datlen` bytes in at most `n` chains, without moving data. */
    method ExpandFast(datlen: nat, n: nat) returns (ok: bool)
      requires Valid() && n >= 2
      modifies this`chains, this`last, this`lwd, this`totalLen
      ensures Valid() && Contents() == old(Contents())
      ensures datlen <= CHAIN_MAX - CHAIN_SIZE ==> ok
      ensures ok ==> |chains| > 0 && Space(Window(n)) >= datlen && Primed()
    {
      hide Spell, Space, Packed, Chain.Data, Window, Primed;
      if |chains| == 0 {
        ok := FirstSpace(datlen, n);
      } else {
        var used, avail, enough := ScanSpace(datlen, n);
        if enough {
          WindowPrefix(used, n);
          ok := true;
        } else if used < n {
          ok := MoreSpace(datlen, n, used, avail);
        } else {
          ok := ReplaceEmpties(datlen, n);
        }
      }
    }

    lemma WindowPrefix(used: nat, n: nat)
      requires AllOk(chains) && used <= n && FirstWithSpace() + used <= |chains|
      ensures Space(chains[FirstWithSpace()..FirstWithSpace() + used]) <= Space(Window(n))
    {
      hide Space;
      SpacePrefix(chains[FirstWithSpace()..FirstWithSpace() + used], Window(n));
    }

    /** Gives a buffer without chains its first one. */
    method FirstSpace(datlen: nat, n: nat) returns (ok: bool)
      requires Valid() && |chains| == 0 && n > 0
      modifies this`chains, this`last, this`lwd, this`totalLen
      ensures Valid() && Contents() == old(Contents())
      ensures datlen <= CHAIN_MAX - CHAIN_SIZE ==> ok
      ensures ok ==> |chains| > 0 && Space(Window(n)) >= datlen && Primed()
    {
      hide Spell, Space, Chain.Data;
      var only := InsertNew(datlen);
      ok := only.Some?;
      if ok {
        SpaceOne(chains[0]);
        assert Window(n) == [chains[0]];
      }
    }

    /** Adds a chain for what the `used` chains with space lack. */
    method MoreSpace(datlen: nat, n: nat, used: nat, avail: nat) returns (ok: bool)
      requires Valid() && |chains| > 0 && used < n && avail < datlen && Primed()
      requires FirstWithSpace() + used == |chains| && avail == Space(chains[FirstWithSpace()..FirstWithSpace() + used])
      modifies this`chains, this`last
      ensures Valid() && Contents() == old(Contents())
      ensures datlen <= CHAIN_MAX - CHAIN_SIZE ==> ok
      ensures ok ==> |chains| > 0 && Space(Window(n)) >= datlen && Primed()
    {
      hide Spell, Space, Packed, Chain.Data;
      var tmp := ChainNew(datlen - avail);
      ok := tmp.Some?;
      if ok {
        var from := FirstWithSpace();
        assert chains[from..from + used] == chains[from..];
        SpaceSnoc(chains[from..], tmp.value);
        AppendEmpty(tmp.value);
        assert FirstWithSpace() == from && from + n >= |chains|;
        assert Window(n) == chains[from..] == old(chains)[from..] + [tmp.value];
      }
    }

    /** Adds an empty chain behind the others. */
    method AppendEmpty(c: Chain)
      requires Valid() && |chains| > 0 && c.Ok() && c.off == 0
      modifies this`chains, this`last
      ensures Valid() && Contents() == old(Contents()) && chains == old(chains) + [c]
    {
      hide Spell;
      SpellSnoc(chains, c);
      chains, last := chains + [c], last + 1;
    }

    /** Lets an empty chain use its whole allocation. */
    method RebaseEmpty(i: nat)
      requires Valid() && i < |chains| && chains[i].off == 0
      modifies this`chains
      ensures Valid() && Contents() == old(Contents())
      ensures chains == old(chains)[i := old(chains[i]).Rebase(0)]
    {
      hide Spell, Chain.Data;
      SpellAt(chains, i);
      SpellUpdate(chains, i, chains[i].Rebase(0));
      chains := chains[i := chains[i].Rebase(0)];
    }

    /** Counts the space in the first `n` chains that have any, up to `datlen`. */
    method ScanSpace(datlen: nat, n: nat) returns (used: nat, avail: nat, enough: bool)
      requires Valid() && |chains| > 0 && n > 0
      modifies this`chains
      ensures Valid() && Contents() == old(Contents()) && |chains| == |old(chains)| && Primed()
      ensures FirstWithSpace() + used <= |chains| && used <= n
      ensures avail == Space(chains[FirstWithSpace()..FirstWithSpace() + used])
      ensures enough ==> avail >= datlen
      ensures !enough ==> chains[lwd].SpaceLen() <= avail < datlen && (used == n || FirstWithSpace() + used == |chains|)
    {
      hide Spell, Packed, Space, Chain.Data, Chain.SpaceLen, Scanned, Chain.Ok, Primed, FirstWithSpace;
      Shape();
      used, avail := ScanFirst();
      var i := lwd + 1;
      ghost var from := FirstWithSpace();
      ScannedIs(from, i, avail);
      while avail < datlen && used < n && i < |chains|
        invariant Valid() && Contents() == old(Contents()) && |chains| == |old(chains)| && Primed()
        invariant lwd < i == from + used <= |chains| && from == FirstWithSpace() && used <= n
        invariant Scanned(from, i, avail)
        invariant forall j :: lwd < j < |chains| ==> chains[j].off == 0
        invariant chains[lwd].SpaceLen() <= avail
      {
        var space := ScanNext(i, from, avail);
        avail, used, i := avail + space, used + 1, i + 1;
      }
      enough := avail >= datlen;
      ScannedIs(from, i, avail);
    }

    /** `avail` is the space of the chains from `from` up to `i`. */
    ghost predicate Scanned(from: nat, i: nat, avail: nat)
      reads this
    {
      from <= i <= |chains| && AllOk(chains[from..i]) && avail == Space(chains[from..i])
    }

    lemma ScannedIs(from: nat, i: nat, avail: nat)
      requires AllOk(chains) && from <= i <= |chains|
      ensures Scanned(from, i, avail) <==> avail == Space(chains[from..i])
    {
    }

    /** Counts the space of chain `i`, which comes next and is empty. */
    method ScanNext(i: nat, ghost from: nat, ghost avail: nat) returns (space: nat)
      requires Valid() && lwd < i < |chains| && Scanned(from, i, avail) && chains[i].off == 0
      modifies this`chains
      ensures Valid() && Contents() == old(Contents())
      ensures |chains| == |old(chains)| && chains == old(chains)[i := chains[i]] && chains[i].off == 0
      ensures Scanned(from, i + 1, avail + space)
      ensures FirstWithSpace() == old(FirstWithSpace()) && (old(Primed()) ==> Primed())
    {
      hide Spell, Packed, Space, Chain.Data, Chain.SpaceLen;
      ghost var before := chains;
      space := ClaimSpace(i);
      SpaceStep(before, chains, from, i);
    }

    /** Counts the space of the last chain with data, or of the first chain. */
    method ScanFirst() returns (used: nat, avail: nat)
      requires Valid() && |chains| > 0
      modifies this`chains
      ensures Valid() && Contents() == old(Contents()) && |chains| == |old(chains)| && used <= 1 && Primed()
      ensures forall j :: lwd < j < |chains| ==> chains[j] == old(chains)[j]
      ensures lwd + 1 == FirstWithSpace() + used && avail == chains[lwd].SpaceLen()
      ensures avail == Space(chains[FirstWithSpace()..lwd + 1])
    {
      hide Spell, Packed, Space, Chain.Data;
      SpaceNone();
      used := 0;
      avail := ClaimSpace(lwd);
      if avail > 0 {
        used := 1;
        SpaceOne(chains[lwd]);
      }
      assert chains[FirstWithSpace()..lwd + 1] == if avail > 0 then [chains[lwd]] else [];
    }

    /** The space of chain `i`; without data in it, all of the allocation is made space. */
    method ClaimSpace(i: nat) returns (space: nat)
      requires Valid() && i < |chains|
      modifies this`chains
      ensures Valid() && Contents() == old(Contents())
      ensures |chains| == |old(chains)| && chains == old(chains)[i := chains[i]] && chains[i].off == old(chains[i].off)
      ensures space == chains[i].SpaceLen() && (chains[i].off == 0 ==> space > 0)
    {
      hide Spell, Packed, Chain.Data;
      if chains[i].off == 0 {
        RebaseEmpty(i);
      }
      space := chains[i].SpaceLen();
    }

    /** Replaces all empty chains by one that gives enough space. */
    method ReplaceEmpties(datlen: nat, n: nat) returns (ok: bool)
      requires Valid() && |chains| > 0 && n >= 2
      requires chains[lwd].off > 0 ==> datlen >= chains[lwd].SpaceLen()
      modifies this`chains, this`last, this`lwd, this`totalLen
      ensures Valid() && Contents() == old(Contents())
      ensures datlen <= CHAIN_MAX - CHAIN_SIZE ==> ok
      ensures ok ==> |chains| > 0 && Space(Window(n)) >= datlen && Primed()
    {
      if chains[lwd].off == 0 {
        NothingKept();
        ZeroChain();
        ok := FirstSpace(datlen, n);
      } else {
        ok := ReplaceBehind(datlen, n);
      }
    }

    lemma NothingKept()
      requires Valid() && lwd < |chains| && chains[lwd].off == 0
      ensures Contents() == []
    {
      hide Spell, Chain.Data;
      Shape();
      Trailing();
    }

    /** Replaces the chains behind the last one with data by one that gives what it lacks. */
    method ReplaceBehind(datlen: nat, n: nat) returns (ok: bool)
      requires Valid() && lwd < |chains| && chains[lwd].off > 0 && datlen >= chains[lwd].SpaceLen() && n >= 2
      modifies this`chains, this`last
      ensures Valid() && Contents() == old(Contents())
      ensures datlen <= CHAIN_MAX - CHAIN_SIZE ==> ok
      ensures ok ==> |chains| > 0 && Space(Window(n)) >= datlen && Primed()
    {
      hide Spell, Space, Chain.Data;
      DropBehind();
      var avail := chains[lwd].SpaceLen();
      var tmp := ChainNew(datlen - avail);
      ok := tmp.Some?;
      if ok {
        LastTwo(chains, tmp.value);
        AppendEmpty(tmp.value);
        SpaceOne(tmp.value);
        SpaceOne(chains[lwd]);
        SpaceSnoc([chains[lwd]], tmp.value);
        assert Window(n) == if avail == 0 then [tmp.value] else [chains[lwd]] + [tmp.value];
      }
    }

    /** Frees the chains behind the last one with data. */
    method DropBehind()
      requires Valid() && lwd < |chains| && chains[lwd].off > 0
      modifies this`chains, this`last
      ensures Valid() && Contents() == old(Contents()) && chains == old(chains)[..lwd + 1]
    {
      hide Spell, Chain.Data;
      Shape();
      Trailing();
      chains, last := chains[..lwd + 1], lwd;
    }

    /** Room `r` is the space of its chain. */
    ghost predicate IsSpace(r: Room)
      reads this
    {
      && r.chain < |chains| && chains[r.chain].Ok()
      && r.at == chains[r.chain].misalign + chains[r.chain].off && r.len == chains[r.chain].SpaceLen()
    }

    /** A commit of one write looks for room `r`: it is in the last chain, or in the first with space. */
    ghost predicate Reachable(r: Room)
      requires AllOk(chains)
      reads this
    {
      r.chain == last || r.chain == FirstWithSpace()
    }

    method ReserveOne(size: nat) returns (rooms: Option<seq<Room>>)
      requires Valid()
      modifies this`chains, this`last, this`lwd, this`totalLen
      ensures Valid() && Contents() == old(Contents())
      ensures size + MAX_TO_COPY <= CHAIN_MAX - CHAIN_SIZE ==> rooms.Some?
      ensures rooms.Some? ==> |rooms.value| == 1 && RoomLen(rooms.value) >= size && IsSpace(rooms.value[0])
      ensures rooms.Some? && old(Primed()) ==> Filled(rooms.value[0].chain)
      ensures rooms.Some? && old(TakesNext(size)) ==>
                unchanged(this) && rooms.value[0].chain == FirstWithSpace() + 1
      ensures rooms.Some? ==>
                (Reachable(rooms.value[0]) <==> !old(TakesNext(size)) || old(FirstWithSpace()) + 1 == old(last))
    {
      hide Spell, Space, Packed, Chain.Data, Window, RoomLen;
      var where := ExpandSinglechain(size);
      if where.None? {
        return None;
      }
      var chain := chains[where.value];
      var room := Room(where.value, chain.misalign + chain.off, chain.SpaceLen());
      RoomLenNone();
      RoomLenSnoc([], room);
      return Some([] + [room]);
    }

    /** Offers room for `size` bytes in at most `n` pieces of memory. */
    method ReserveSpace(size: nat, n: nat) returns (rooms: Option<seq<Room>>)
      requires Valid()
      modifies this`chains, this`last, this`lwd, this`totalLen
      ensures Valid() && Contents() == old(Contents())
      ensures freezeEnd || n == 0 ==> rooms.None?
      ensures !freezeEnd && n > 0 && size + MAX_TO_COPY <= CHAIN_MAX - CHAIN_SIZE ==> rooms.Some?
      ensures rooms.Some? ==>
                && |rooms.value| <= n && RoomLen(rooms.value) >= size
                && (forall i :: 0 <= i < |rooms.value| ==> IsSpace(rooms.value[i]))
                && (n > 1 ==> Primed() && forall i :: 0 <= i < |rooms.value| ==>
                    rooms.value[i].chain == FirstWithSpace() + i)
      ensures rooms.Some? && n == 1 && old(Primed()) ==> rooms.value != [] && Filled(rooms.value[0].chain)
      ensures rooms.Some? && n == 1 && old(TakesNext(size)) ==>
                unchanged(this) && rooms.value != [] && rooms.value[0].chain == FirstWithSpace() + 1
      ensures rooms.Some? && n == 1 ==>
                && |rooms.value| == 1
                && (Reachable(rooms.value[0]) <==> !old(TakesNext(size)) || old(FirstWithSpace()) + 1 == old(last))
    {
      hide Spell, Space, Packed, Chain.Data, Window, Primed;
      if freezeEnd || n < 1 {
        return None;
      }
      if n == 1 {
        rooms := ReserveOne(size);
        return;
      }
      var ok := ExpandFast(size, n);
      if !ok {
        return None;
      }
      var found := ReadSetupVecs(size, n, false);
      rooms := Some(found);
    }

    lemma RoomLenNone()
      ensures RoomLen([]) == 0
    {
    }

    lemma RoomLenSnoc(rooms: seq<Room>, r: Room)
      ensures RoomLen(rooms + [r]) == RoomLen(rooms) + r.len
    {
      assert (rooms + [r])[..|rooms|] == rooms;
    }

    /** Room `r` is the space of its chain, or the start of it. */
    ghost predicate InSpace(r: Room)
      reads this
    {
      && r.chain < |chains| && chains[r.chain].Ok()
      && r.at == chains[r.chain].misalign + chains[r.chain].off && r.len <= chains[r.chain].SpaceLen()
    }

    /** Lists the space that `howmuch` bytes need; not more than that if `exact`. */
    method ReadSetupVecs(howmuch: nat, n: nat, exact: bool) returns (rooms: seq<Room>)
      requires Valid() && |chains| > 0 && Space(Window(n)) >= howmuch
      ensures |rooms| <= n && RoomLen(rooms) >= howmuch && (exact ==> RoomLen(rooms) == howmuch)
      ensures forall i :: 0 <= i < |rooms| ==> InSpace(rooms[i]) && rooms[i].chain == FirstWithSpace() + i
      ensures forall i :: 0 <= i < |rooms| && (i < |rooms| - 1 || !exact) ==> IsSpace(rooms[i])
    {
      hide Spell, Space, Packed, Chain.Data, Window, RoomLen, Chain.SpaceLen;
      var from := FirstWithSpace();
      rooms := [];
      var soFar := 0;
      SpaceNone();
      RoomLenNone();
      assert chains[from..from] == [];
      while |rooms| < n && soFar < howmuch
        invariant |rooms| <= n && from + |rooms| <= |chains|
        invariant soFar == RoomLen(rooms) && (exact ==> soFar <= howmuch)
        invariant soFar < howmuch || !exact ==> soFar == Space(chains[from..from + |rooms|])
        invariant forall i :: 0 <= i < |rooms| ==> InSpace(rooms[i]) && rooms[i].chain == from + i
        invariant forall i :: 0 <= i < |rooms| && (i < |rooms| - 1 || !exact || soFar < howmuch) ==> IsSpace(rooms[i])
        decreases n - |rooms|
      {
        var i := from + |rooms|;
        WindowEnd(n, |rooms|);
        SpaceStep(chains, chains, from, i);
        var avail := chains[i].SpaceLen();
        if avail > howmuch - soFar && exact {
          avail := howmuch - soFar;
        }
        var room := Room(i, chains[i].misalign + chains[i].off, avail);
        assert InSpace(room);
        RoomLenSnoc(rooms, room);
        soFar := soFar + avail;
        rooms := rooms + [room];
      }
      WindowEnd(n, |rooms|);
    }

    lemma WindowEnd(n: nat, k: nat)
      requires AllOk(chains) && FirstWithSpace() + k <= |chains| && k <= n
      ensures k == n || FirstWithSpace() + k == |chains| ==>
                Window(n) == chains[FirstWithSpace()..FirstWithSpace() + k]
    {
    }

    /** The write starts where the space of chain `k` starts, and fits. */
    predicate Fits(w: Written, k: nat)
      requires AllOk(chains)
      reads this
    {
      && k < |chains| && w.chain == k
      && w.at == chains[k].misalign + chains[k].off && |w.bytes| <= chains[k].SpaceLen()
    }

    /** The write is to the space of the last chain. */
    predicate HitsLast(vecs: seq<Written>)
      requires AllOk(chains)
      reads this
    {
      && |vecs| == 1 && 0 <= last < |chains|
      && vecs[0].chain == last && vecs[0].at == chains[last].misalign + chains[last].off
    }

    /** The chain at which a commit expects the first of the writes. */
    ghost function CommitStart(vecs: seq<Written>): nat
      requires AllOk(chains)
      reads this
    {
      if HitsLast(vecs) then last else FirstWithSpace()
    }

    /** The writes leave no chain before one of theirs empty. */
    ghost predicate NoGap(vecs: seq<Written>)
      requires AllOk(chains)
      reads this
    {
      Gapless(chains, vecs, CommitStart(vecs))
    }

    /** Makes bytes written to reserved memory part of the buffer. All or nothing; the writes must be
        to the space of consecutive chains, from the first one that has any, or to the last chain. */
    method CommitSpace(vecs: seq<Written>) returns (ok: bool)
      requires Valid()
      modifies this`chains, this`lwd, this`totalLen
      ensures ok <==> !freezeEnd && forall i :: 0 <= i < |vecs| ==> old(Fits(vecs[i], CommitStart(vecs) + i))
      ensures !ok ==> unchanged(this)
      ensures AllOk(chains) && totalLen == |Contents()| && last == |chains| - 1
      ensures ok ==> Contents() == old(Contents()) + Joined(vecs)
      ensures ok ==> (Valid() <==> old(NoGap(vecs)))
    {
      hide Spell, Chain.Data, Chain.PutBack, Packed, Meant, Joined, NoGap, CommitStart, HitsLast, Fits, FirstWithSpace;
      if freezeEnd {
        return false;
      }
      if |vecs| == 0 {
        CommitNothing(vecs);
        return true;
      }
      StartIs(vecs);
      if HitsLast(vecs) {
        ok := CommitLast(vecs);
        return;
      }
      ok := AllFit(vecs, FirstWithSpace());
      if ok {
        CommitRun(vecs);
      }
    }

    lemma StartIs(vecs: seq<Written>)
      requires AllOk(chains)
      ensures CommitStart(vecs) == if HitsLast(vecs) then last else FirstWithSpace()
      ensures HitsLast(vecs) ==> |vecs| == 1
    {
    }

    lemma CommitNothing(vecs: seq<Written>)
      requires Valid() && |vecs| == 0
      ensures Contents() + Joined(vecs) == Contents() && NoGap(vecs)
    {
    }

    /** The writes are all to the space of consecutive chains from `from` on. */
    method AllFit(vecs: seq<Written>, from: nat) returns (fit: bool)
      requires AllOk(chains)
      ensures fit <==> forall i :: 0 <= i < |vecs| ==> Fits(vecs[i], from + i)
    {
      hide Fits;
      for i := 0 to |vecs|
        invariant forall j :: 0 <= j < i ==> Fits(vecs[j], from + j)
      {
        if !Fits(vecs[i], from + i) {
          return false;
        }
      }
      return true;
    }

    /**
     * Bytes written to the pieces just reserved, from the first one on, can be committed; and as long
     * as only the last of them may be left without any, the layout stays valid.
     */
    lemma ReservedCommits(rooms: seq<Room>, vecs: seq<Written>)
      requires Valid() && Primed() && |vecs| <= |rooms|
      requires forall i :: 0 <= i < |rooms| ==> IsSpace(rooms[i]) && rooms[i].chain == FirstWithSpace() + i
      requires forall i :: 0 <= i < |vecs| ==>
        vecs[i].chain == rooms[i].chain && vecs[i].at == rooms[i].at && |vecs[i].bytes| <= rooms[i].len
      requires forall i :: 0 <= i < |vecs| - 1 ==> |vecs[i].bytes| > 0
      ensures forall i :: 0 <= i < |vecs| ==> Fits(vecs[i], CommitStart(vecs) + i)
      ensures NoGap(vecs)
    {
      hide Spell, Chain.Data;
      if |vecs| > 0 {
        assert IsSpace(rooms[0]);
        assert CommitStart(vecs) == FirstWithSpace();
        forall i | 0 <= i < |vecs|
          ensures Fits(vecs[i], FirstWithSpace() + i)
        {
          assert IsSpace(rooms[i]);
        }
      }
    }

    /**
     * Bytes written to a single piece can be committed if and only if a commit looks for it. With what
     * `ReserveSpace` says of its one piece: unless the piece is in an empty chain between two others.
     */
    lemma OneReservedCommits(room: Room, vecs: seq<Written>)
      requires Valid() && IsSpace(room) && |vecs| == 1
      requires vecs[0].chain == room.chain && vecs[0].at == room.at && |vecs[0].bytes| <= room.len
      ensures Fits(vecs[0], CommitStart(vecs)) <==> Reachable(room)
      ensures Reachable(room) && Filled(room.chain) ==> NoGap(vecs)
    {
      hide Spell, Chain.Data;
    }

    method CommitLast(vecs: seq<Written>) returns (ok: bool)
      requires Valid() && HitsLast(vecs)
      modifies this`chains, this`lwd, this`totalLen
      ensures ok <==> old(Fits(vecs[0], CommitStart(vecs)))
      ensures !ok ==> unchanged(this)
      ensures AllOk(chains) && totalLen == |Contents()| && last == |chains| - 1
      ensures ok ==> Contents() == old(Contents()) + Joined(vecs)
      ensures ok ==> (Valid() <==> old(NoGap(vecs)))
    {
      hide Spell, Chain.Data, Chain.PutBack, Packed, Gapless, Meant;
      var bytes := vecs[0].bytes;
      if |bytes| > chains[last].SpaceLen() {
        return false;
      }
      assert old(CommitStart(vecs)) == last;
      ghost var was, lwdWas := chains, lwd;
      PutInLastChain(bytes);
      JoinedOne(vecs);
      LastGap(was, chains, lwdWas, lwd, vecs);
      ok := true;
    }

    lemma JoinedOne(vecs: seq<Written>)
      requires |vecs| == 1
      ensures Joined(vecs) == vecs[0].bytes
    {
      assert vecs[..0] == [];
    }

    /** Writes to the last chain, which then may be the last with data. */
    method PutInLastChain(bytes: seq<byte>)
      requires Valid() && |chains| > 0 && |bytes| <= chains[|chains| - 1].SpaceLen()
      modifies this`chains, this`lwd, this`totalLen
      ensures AllOk(chains) && totalLen == |Contents()| && Contents() == old(Contents()) + bytes
      ensures |chains| == |old(chains)| && lwd < |chains|
      ensures forall k :: 0 <= k < |chains| ==> chains[k].off == old(chains)[k].off + if k == |chains| - 1
          then |bytes| else 0
      ensures if |bytes| > 0 then Advanced(chains, old(lwd), lwd) else lwd == old(lwd)
    {
      hide Spell, Chain.Data, Chain.PutBack;
      Shape();
      SpellFill(chains, last, bytes);
      chains := chains[last := chains[last].PutBack(bytes)];
      if |bytes| > 0 {
        AdvanceLastWithData();
      }
      totalLen := totalLen + |bytes|;
    }

    /** Commits bytes written to the space of chain `k`. */
    method CommitOne(k: nat, bytes: seq<byte>)
      requires AllOk(chains) && k < |chains| && |bytes| <= chains[k].SpaceLen()
      requires forall j :: k < j < |chains| ==> chains[j].off == 0
      requires totalLen == |Contents()|
      modifies this`chains, this`lwd, this`totalLen
      ensures |chains| == |old(chains)| && AllOk(chains) && totalLen == |Contents()|
      ensures forall j :: 0 <= j < |chains| && j != k ==> chains[j] == old(chains)[j]
      ensures chains[k].off == old(chains)[k].off + |bytes|
      ensures Contents() == old(Contents()) + bytes
      ensures lwd == if |bytes| > 0 then k else old(lwd)
    {
      hide Spell, Chain.Data, Chain.PutBack;
      SpellFill(chains, k, bytes);
      chains := chains[k := chains[k].PutBack(bytes)];
      totalLen := totalLen + |bytes|;
      if |bytes| > 0 {
        lwd := k;
      }
    }

    method CommitRun(vecs: seq<Written>)
      requires Valid() && !HitsLast(vecs) && |vecs| > 0
      requires forall i :: 0 <= i < |vecs| ==> Fits(vecs[i], FirstWithSpace() + i)
      modifies this`chains, this`lwd, this`totalLen
      ensures AllOk(chains) && totalLen == |Contents()| && last == |chains| - 1
      ensures Contents() == old(Contents()) + Joined(vecs)
      ensures Valid() <==> old(NoGap(vecs))
    {
      hide Spell, Packed, Chain.Data, Meant, Gapless;
      Shape();
      var from := FirstWithSpace();
      StartIs(vecs);
      AllMeantFit(vecs, from);
      CommitAll(vecs, from);
      GapExact(old(chains), chains, old(lwd), lwd, vecs, from);
    }

    lemma AllMeantFit(vecs: seq<Written>, from: nat)
      requires AllOk(chains) && |vecs| > 0 && forall i :: 0 <= i < |vecs| ==> Fits(vecs[i], from + i)
      ensures from + |vecs| <= |chains|
      ensures forall k :: 0 <= k < |chains| ==> Meant(vecs, from, k) <= chains[k].SpaceLen()
    {
      assert Fits(vecs[|vecs| - 1], from + (|vecs| - 1));
      forall k | 0 <= k < |chains|
        ensures Meant(vecs, from, k) <= chains[k].SpaceLen()
      {
        assert from <= k < from + |vecs| ==> Fits(vecs[k - from], from + (k - from));
      }
    }

    /** Commits writes to consecutive chains from chain `from` on, one after the other. */
    method CommitAll(vecs: seq<Written>, from: nat)
      requires AllOk(chains) && from + |vecs| <= |chains| && totalLen == |Contents()|
      requires forall j :: from < j < |chains| ==> chains[j].off == 0
      requires forall k :: 0 <= k < |chains| ==> Meant(vecs, from, k) <= chains[k].SpaceLen()
      modifies this`chains, this`lwd, this`totalLen
      ensures AllOk(chains) && |chains| == |old(chains)| && totalLen == |Contents()|
      ensures Contents() == old(Contents()) + Joined(vecs)
      ensures forall k :: 0 <= k < |chains| ==> chains[k].off == old(chains)[k].off + Meant(vecs, from, k)
      ensures lwd == old(lwd) || (from <= lwd < |chains| && Meant(vecs, from, lwd) > 0)
      ensures forall k :: from <= k && Meant(vecs, from, k) > 0 ==> k <= lwd
    {
      hide Spell, Packed, Chain.Data, Meant, Joined;
      var i := 0;
      ghost var room := chains;
      JoinedStart(vecs);
      MeantElsewhere(vecs, from);
      while i < |vecs|
        invariant i <= |vecs| && |chains| == |room| && AllOk(chains)
        invariant forall j :: from + i < j < |chains| ==> chains[j].off == 0
        invariant forall k :: from + i <= k < |chains| ==> chains[k] == room[k]
        invariant forall k :: 0 <= k < from + i ==> chains[k].off == room[k].off + Meant(vecs, from, k)
        invariant totalLen == |Contents()| && Contents() == old(Contents()) + Joined(vecs[..i])
        invariant lwd == old(lwd) || (from <= lwd < from + i && Meant(vecs, from, lwd) > 0)
        invariant forall k :: from <= k < from + i && Meant(vecs, from, k) > 0 ==> k <= lwd
      {
        MeantAt(vecs, from, i);
        JoinedStep(vecs, i);
        AppendPieces(old(Contents()), Joined(vecs[..i]), vecs[i].bytes);
        CommitOne(from + i, vecs[i].bytes);
        i := i + 1;
      }
      assert vecs[..|vecs|] == vecs;
    }
  }

  /** `lwd` has moved over chains with data, as far as it could. */
  ghost predicate Advanced(cs: seq<Chain>, was: nat, lwd: nat) {
    && was <= lwd < |cs|
    && (forall i :: was < i <= lwd ==> cs[i].off > 0)
    && (lwd + 1 == |cs| || cs[lwd + 1].off == 0)
  }

  lemma MeantAt(vecs: seq<Written>, from: nat, i: nat)
    requires i < |vecs|
    ensures Meant(vecs, from, from + i) == |vecs[i].bytes|
  {
  }

  lemma MeantElsewhere(vecs: seq<Written>, from: nat)
    ensures forall k :: k < from || k >= from + |vecs| ==> Meant(vecs, from, k) == 0
  {
  }

  lemma JoinedStart(vecs: seq<Written>)
    ensures vecs[..0] == [] && Joined(vecs[..0]) == []
  {
  }

  lemma JoinedStep(vecs: seq<Written>, i: nat)
    requires i < |vecs|
    ensures Joined(vecs[..i + 1]) == Joined(vecs[..i]) + vecs[i].bytes
  {
    assert vecs[..i + 1][..i] == vecs[..i];
  }

  lemma LastGap(cs: seq<Chain>, cs': seq<Chain>, lwd: nat, lwd': nat, vecs: seq<Written>)
    requires |vecs| == 1 && |cs| == |cs'| > 0 && Packed(cs, lwd) && lwd < |cs|
    requires forall k :: 0 <= k < |cs| ==> cs'[k].off == cs[k].off + if k == |cs| - 1 then |vecs[0].bytes| else 0
    requires if |vecs[0].bytes| > 0 then Advanced(cs', lwd, lwd') else lwd' == lwd
    ensures Packed(cs', lwd') <==> Gapless(cs, vecs, |cs| - 1)
  {
    GapExact(cs, cs', lwd, lwd', vecs, |cs| - 1);
  }

  /** After the writes the chains are packed just when no gap was left. */
  lemma GapExact(cs: seq<Chain>, cs': seq<Chain>, lwd: nat, lwd': nat, vecs: seq<Written>, from: nat)
    requires |cs| == |cs'| && Packed(cs, lwd) && lwd <= from && lwd' < |cs|
    requires forall k :: 0 <= k < |cs| ==> cs'[k].off == cs[k].off + Meant(vecs, from, k)
    requires lwd <= lwd'
    requires lwd < lwd' ==> Meant(vecs, from, lwd') > 0
    requires forall k :: from <= k < |cs| && Meant(vecs, from, k) > 0 ==> k <= lwd' || cs'[lwd' + 1].off == 0
    ensures Packed(cs', lwd') <==> Gapless(cs, vecs, from)
  {
  }

  /**
   * A caller that reserves one piece, writes to it and commits has appended the bytes if and only if the
   * piece was not in an empty chain between two others; if it was, nothing has happened.
   */
  method WriteThroughOnePiece(b: Evbuffer, size: nat, bytes: seq<byte>) returns (ok: bool)
    requires b.Valid() && !b.freezeEnd && |bytes| <= size && size + MAX_TO_COPY <= CHAIN_MAX - CHAIN_SIZE
    modifies b`chains, b`last, b`lwd, b`totalLen
    ensures ok <==> !old(b.TakesNext(size)) || old(b.FirstWithSpace()) + 1 == old(b.last)
    ensures AllOk(b.chains) && b.Contents() == old(b.Contents()) + if ok then bytes else []
    ensures !ok || old(b.Primed()) ==> b.Valid()
  {
    hide Spell, Chain.Data, Packed;
    var rooms := b.ReserveSpace(size, 1);
    var room := rooms.value[0];
    RoomLenOne(rooms.value);
    var vecs := [Written(room.chain, room.at, bytes)];
    b.OneReservedCommits(room, vecs);
    b.JoinedOne(vecs);
    ok := b.CommitSpace(vecs);
  }

  // What goes wrong outside the conditions above

  /** A chain that holds `off` bytes at its start. */
  function Holding(off: nat): (c: Chain)
    requires off <= 976
    ensures c.Ok() && c.off == off && c.SpaceLen() == 976 - off
  {
    Chain(seq(976, _ => 0), 0, off)
  }

  lemma HoldingSpells(off: nat, empties: seq<Chain>)
    requires off <= 976 && AllOk(empties) && AllEmpty(empties)
    ensures AllOk([Holding(off)] + empties) && |Spell([Holding(off)] + empties)| == off
  {
    hide Spell, Chain.Data, Holding;
    SpellFirst([Holding(off)] + empties);
    assert ([Holding(off)] + empties)[1..] == empties;
    SpellEmpties(empties);
  }

  /** A buffer that holds `off` bytes in its first chain, with `more` empty chains behind it. */
  method FirstChainHolds(off: nat, more: nat) returns (b: Evbuffer)
    requires off <= 976
    ensures fresh(b) && b.Valid() && !b.freezeStart && !b.freezeEnd && b.lwd == 0 && b.totalLen == off
    ensures b.chains == [Holding(off)] + seq(more, _ => Holding(0))
  {
    b := new Evbuffer();
    HoldingSpells(off, seq(more, _ => Holding(0)));
    b.chains, b.last, b.lwd, b.totalLen := [Holding(off)] + seq(more, _ => Holding(0)), more, 0, off;
  }

  /** With 900 bytes in the first of three chains, 100 more are offered in the second; no commit takes them. */
  method MiddlePieceRefused() returns (b: Evbuffer, room: Room, ok: bool)
    ensures b.Valid() && b.IsSpace(room) && room.chain == 1 && room.len >= 100 && !ok
  {
    hide Spell, Chain.Data;
    b := FirstChainHolds(900, 2);
    var rooms := b.ReserveSpace(100, 1);
    room := rooms.value[0];
    RoomLenOne(rooms.value);
    var vecs := [Written(room.chain, room.at, [7])];
    b.OneReservedCommits(room, vecs);
    ok := b.CommitSpace(vecs);
  }

  lemma RoomLenOne(rooms: seq<Room>)
    requires |rooms| == 1
    ensures RoomLen(rooms) == rooms[0].len
  {
    assert rooms[..0] == [];
  }

  /** An empty chain behind the data of the source lands between the data of both. */
  method EmptyInTheMiddle() returns (b: Evbuffer, ok: bool)
    ensures ok && |b.chains| == 3 && b.chains[0].off == 2 && b.chains[1].off == 0 && b.chains[2].off == 3
    ensures !b.Valid()
  {
    hide Spell, Chain.Data;
    b := FirstChainHolds(3, 0);
    var inbuf := FirstChainHolds(2, 1);
    ok := b.PrependBuffer(inbuf);
  }

  /** Nothing written to the first of two empty chains, a byte to the second: both are committed. */
  method FirstLeftEmpty() returns (b: Evbuffer, ok: bool)
    ensures ok && AllOk(b.chains) && b.Contents() == [7] && !b.Valid()
  {
    hide Spell, Chain.Data;
    b := FirstChainHolds(0, 1);
    b.Trailing();
    var vecs := [Written(0, 0, []), Written(1, 0, [7])];
    assert b.Fits(vecs[0], 0) && b.Fits(vecs[1], 1);
    assert Meant(vecs, 0, 0) == 0 && Meant(vecs, 0, 1) == 1;
    JoinedStart(vecs);
    JoinedStep(vecs, 0);
    JoinedStep(vecs, 1);
    assert vecs[..2] == vecs;
    ok := b.CommitSpace(vecs);
  }
}
