/** Chains, the pieces an evbuffer is made of, and the byte string a list of them spells. */
module Chains {
  import opened Bytes

  // Limits of a 64-bit build.
  const SIZE_MAX: nat := 0xffff_ffff_ffff_ffff
  const CHAIN_MAX: nat := 0x7fff_ffff_ffff_ffff
  const CHAIN_SIZE: nat := 48
  const MIN_BUFFER_SIZE: nat := 1024
  const MAX_TO_REALIGN: nat := 2048
  const MAX_TO_COPY: nat := 4096
  const MAX_AUTO_SIZE: nat := 4096

  /** One allocation: `misalign` unused bytes, then `off` bytes of data, the rest is space. */
  datatype Chain = Chain(mem: seq<byte>, misalign: nat, off: nat) {

    predicate Ok() {
      misalign + off <= |mem| && 0 < |mem| <= CHAIN_MAX - CHAIN_SIZE
    }

    function Data(): (d: seq<byte>)
      requires Ok()
      ensures |d| == off
    {
      mem[misalign..misalign + off]
    }

    function SpaceLen(): nat
      requires Ok()
    {
      |mem| - (misalign + off)
    }

    /** Copies `bytes` to the start of the space. */
    function PutBack(bytes: seq<byte>): (c: Chain)
      requires Ok() && |bytes| <= SpaceLen()
      ensures c.Ok() && c.Data() == Data() + bytes
      ensures |c.mem| == |mem| && c.misalign == misalign
    {
      var at := misalign + off;
      Chain(mem[..at] + bytes + mem[at + |bytes|..], misalign, off + |bytes|)
    }

    /** Copies `bytes` to just before the data. */
    function PutFront(bytes: seq<byte>): (c: Chain)
      requires Ok() && |bytes| <= misalign
      ensures c.Ok() && c.Data() == bytes + Data()
      ensures |c.mem| == |mem| && c.misalign == misalign - |bytes|
    {
      var at := misalign - |bytes|;
      Chain(mem[..at] + bytes + mem[misalign..], at, off + |bytes|)
    }

    /** Gives up the first `n` bytes of the data. */
    function Consume(n: nat): (c: Chain)
      requires Ok() && n <= off
      ensures c.Ok() && c.Data() == Data()[n..]
    {
      Chain(mem, misalign + n, off - n)
    }

    /** Moves the data to the start of the allocation. */
    function Align(): (c: Chain)
      requires Ok()
      ensures c.Ok() && c.Data() == Data() && c.misalign == 0 && |c.mem| == |mem|
    {
      Chain(Data() + mem[off..], 0, off)
    }

    /** Sets `misalign` of a chain without data. */
    function Rebase(at: nat): (c: Chain)
      requires Ok() && off == 0 && at <= |mem|
      ensures c.Ok() && c.Data() == [] && |c.mem| == |mem| && c.misalign == at
    {
      this.(misalign := at)
    }

    predicate ShouldRealign(datlen: nat)
      requires Ok()
    {
      |mem| - off >= datlen && off < |mem| / 2 && off <= MAX_TO_REALIGN
    }
  }

  /** Allocates room for `size` bytes; below half the limit the whole block, header included, is the
      next power of two from 1024 on. */
  method ChainNew(size: nat) returns (chain: Option<Chain>)
    ensures chain.None? <==> size > CHAIN_MAX - CHAIN_SIZE
    ensures chain.Some? ==>
              && chain.value.Ok() && chain.value.off == 0 && chain.value.misalign == 0
              && size <= |chain.value.mem|
              && (|chain.value.mem| == MIN_BUFFER_SIZE - CHAIN_SIZE || |chain.value.mem| <= 2 * size + CHAIN_SIZE)
  {
    if size > CHAIN_MAX - CHAIN_SIZE {
      return None;
    }
    var total := size + CHAIN_SIZE;
    var toAlloc := total;
    if total < CHAIN_MAX / 2 {
      toAlloc := MIN_BUFFER_SIZE;
      while toAlloc < total
        invariant MIN_BUFFER_SIZE <= toAlloc
        invariant toAlloc == MIN_BUFFER_SIZE || toAlloc < 2 * total
      {
        toAlloc := toAlloc * 2;
      }
    }
    chain := Some(Chain(seq(toAlloc - CHAIN_SIZE, _ => 0), 0, 0));
  }

  ghost predicate AllOk(cs: seq<Chain>) {
    forall i :: 0 <= i < |cs| ==> cs[i].Ok()
  }

  ghost predicate AllEmpty(cs: seq<Chain>) {
    forall i :: 0 <= i < |cs| ==> cs[i].off == 0
  }

  /** The bytes of all chains, in order. */
  ghost function Spell(cs: seq<Chain>): seq<byte>
    requires AllOk(cs)
  {
    if cs == [] then [] else cs[0].Data() + Spell(cs[1..])
  }

  lemma {:induction false} SpellConcat(a: seq<Chain>, b: seq<Chain>)
    requires AllOk(a) && AllOk(b)
    ensures AllOk(a + b) && Spell(a + b) == Spell(a) + Spell(b)
  {
    hide Chain.Data;
    if a == [] {
      assert a + b == b;
    } else {
      assert (a + b)[0] == a[0] && (a + b)[1..] == a[1..] + b;
      SpellConcat(a[1..], b);
    }
  }

  lemma SpellFirst(cs: seq<Chain>)
    requires AllOk(cs) && |cs| > 0
    ensures Spell(cs) == cs[0].Data() + Spell(cs[1..])
  {
  }

  lemma SpellOne(c: Chain)
    requires c.Ok()
    ensures Spell([c]) == c.Data()
  {
    assert [c][1..] == [];
  }

  lemma SpellCut(cs: seq<Chain>, k: nat)
    requires AllOk(cs) && k <= |cs|
    ensures Spell(cs) == Spell(cs[..k]) + Spell(cs[k..])
  {
    hide Chain.Data;
    assert cs == cs[..k] + cs[k..];
    SpellConcat(cs[..k], cs[k..]);
  }

  lemma SpellSnoc(cs: seq<Chain>, c: Chain)
    requires AllOk(cs) && c.Ok()
    ensures AllOk(cs + [c]) && Spell(cs + [c]) == Spell(cs) + c.Data()
  {
    hide Chain.Data;
    SpellConcat(cs, [c]);
    SpellOne(c);
  }

  /** What the chains spell, seen from chain `k`. */
  lemma SpellAt(cs: seq<Chain>, k: nat)
    requires AllOk(cs) && k < |cs|
    ensures Spell(cs) == Spell(cs[..k]) + cs[k].Data() + Spell(cs[k + 1..])
    ensures Spell(cs[..k + 1]) == Spell(cs[..k]) + cs[k].Data()
  {
    hide Chain.Data, Spell, AllOk;
    TakeOneMore(cs, k);
    PartsOk(cs, k);
    PartsOk(cs, k + 1);
    SpellSnoc(cs[..k], cs[k]);
    SpellCut(cs, k + 1);
  }

  lemma TakeOneMore(cs: seq<Chain>, k: nat)
    requires k < |cs|
    ensures cs[..k] + [cs[k]] == cs[..k + 1]
  {
  }

  lemma PartsOk(cs: seq<Chain>, k: nat)
    requires AllOk(cs) && k <= |cs|
    ensures AllOk(cs[..k]) && AllOk(cs[k..]) && (k < |cs| ==> cs[k].Ok())
  {
  }

  lemma LastTwo(cs: seq<Chain>, c: Chain)
    requires |cs| > 0
    ensures var n := |cs| - 1;
            (cs + [c])[n..] == [cs[n]] + [c] && (cs + [c])[n + 1..] == [c]
  {
  }

  /** Replacing one chain replaces its bytes. */
  lemma SpellUpdate(cs: seq<Chain>, k: nat, c: Chain)
    requires AllOk(cs) && k < |cs| && c.Ok()
    ensures AllOk(cs[k := c])
    ensures Spell(cs[k := c]) == Spell(cs[..k]) + c.Data() + Spell(cs[k + 1..])
  {
    hide Chain.Data;
    SpellAt(cs[k := c], k);
    assert cs[k := c][..k] == cs[..k] && cs[k := c][k + 1..] == cs[k + 1..];
  }

  lemma {:induction false} SpellEmpties(cs: seq<Chain>)
    requires AllOk(cs) && AllEmpty(cs)
    ensures Spell(cs) == []
  {
    if cs != [] {
      SpellEmpties(cs[1..]);
    }
  }

  lemma SpellTrim(cs: seq<Chain>, n: nat)
    requires AllOk(cs) && n <= |cs| && AllEmpty(cs[n..])
    ensures Spell(cs) == Spell(cs[..n])
  {
    hide Chain.Data;
    SpellCut(cs, n);
    SpellEmpties(cs[n..]);
  }

  /** Filling a chain behind which no data comes appends to the whole. */
  lemma SpellFill(cs: seq<Chain>, k: nat, bytes: seq<byte>)
    requires AllOk(cs) && k < |cs| && AllEmpty(cs[k + 1..]) && |bytes| <= cs[k].SpaceLen()
    ensures AllOk(cs[k := cs[k].PutBack(bytes)])
    ensures Spell(cs[k := cs[k].PutBack(bytes)]) == Spell(cs) + bytes
  {
    hide Spell, Chain.Data, Chain.PutBack;
    SpellAt(cs, k);
    SpellUpdate(cs, k, cs[k].PutBack(bytes));
    SpellEmpties(cs[k + 1..]);
  }

  lemma SpellTwo(a: Chain, b: Chain, cs: seq<Chain>)
    requires a.Ok() && b.Ok() && AllOk(cs)
    ensures AllOk([a, b] + cs) && Spell([a, b] + cs) == a.Data() + (b.Data() + Spell(cs))
  {
    hide Chain.Data, Spell;
    var all := [a, b] + cs;
    assert all[1..] == [b] + cs && all[1..][1..] == cs;
    SpellFirst(all);
    SpellFirst(all[1..]);
  }

  /** Chains `cs` appended to `head`, after `k` chains and `n` bytes of the next have moved into the
      chain `dst` which now comes first. */
  lemma SpellPulled(head: seq<byte>, cs: seq<Chain>, k: nat, n: nat, dst: Chain)
    requires AllOk(cs) && k < |cs| && n <= cs[k].off && dst.Ok()
    requires dst.Data() == head + Spell(cs[..k]) + cs[k].Data()[..n]
    ensures Spell([dst, cs[k].Consume(n)] + cs[k + 1..]) == head + Spell(cs)
  {
    hide Chain.Data, Chain.Consume, Spell;
    SpellTwo(dst, cs[k].Consume(n), cs[k + 1..]);
    SpellAt(cs, k);
    SplitPiece(head + Spell(cs[..k]), cs[k].Data(), Spell(cs[k + 1..]), n);
    AppendPieces(head, Spell(cs[..k]), cs[k].Data());
    AppendPieces(head, Spell(cs[..k]) + cs[k].Data(), Spell(cs[k + 1..]));
  }

  /** How much can be written to a list of chains. */
  ghost function Space(cs: seq<Chain>): nat
    requires AllOk(cs)
  {
    if cs == [] then 0 else cs[0].SpaceLen() + Space(cs[1..])
  }

  lemma SpaceNone()
    ensures Space([]) == 0
  {
  }

  lemma SpaceOne(c: Chain)
    requires c.Ok()
    ensures Space([c]) == c.SpaceLen()
  {
    assert [c][1..] == [];
  }

  lemma {:induction false} SpaceSnoc(cs: seq<Chain>, c: Chain)
    requires AllOk(cs) && c.Ok()
    ensures AllOk(cs + [c]) && Space(cs + [c]) == Space(cs) + c.SpaceLen()
  {
    if cs == [] {
      assert [c][1..] == [];
    } else {
      assert (cs + [c])[1..] == cs[1..] + [c];
      SpaceSnoc(cs[1..], c);
    }
  }

  /** The space up to and with chain `i`, which alone may have changed. */
  lemma SpaceStep(cs: seq<Chain>, cs': seq<Chain>, from: nat, i: nat)
    requires AllOk(cs) && AllOk(cs') && from <= i < |cs| == |cs'| && cs' == cs[i := cs'[i]]
    ensures Space(cs'[from..i + 1]) == Space(cs[from..i]) + cs'[i].SpaceLen()
  {
    hide Space;
    assert cs'[from..i + 1] == cs[from..i] + [cs'[i]];
    SpaceSnoc(cs[from..i], cs'[i]);
  }

  lemma {:induction false} SpacePrefix(a: seq<Chain>, b: seq<Chain>)
    requires AllOk(a) && AllOk(b) && a <= b
    ensures Space(a) <= Space(b)
  {
    if a != [] {
      SpacePrefix(a[1..], b[1..]);
    }
  }
}
