/** The codes that tagged records are made of: tags in bytes of seven bits, and integers in nibbles. */
module TagCodes {
  import opened Bytes

  const UINT32: nat := 0x1_0000_0000
  const UINT64: nat := 0x1_0000_0000_0000_0000
  const NIBBLES32: nat := 8
  const NIBBLES64: nat := 16

  datatype Decoded = Decoded(number: nat, length: nat)

  // Tags

  /** Seven bits in each byte, the lowest first; all bytes but the last have their high bit set. */
  function TagBytes(tag: nat): (s: seq<byte>)
    ensures |s| > 0
  {
    if tag < 128 then [tag as byte] else [(128 + tag % 128) as byte] + TagBytes(tag / 128)
  }

  /** What the seven bits of byte `k` of a tag count for. */
  function Weight(k: nat): nat {
    if k == 0 then 1 else 128 * Weight(k - 1)
  }

  /** Decodes a tag of 32 bits of which `k` bytes, worth `number`, have been read. */
  function DecodeTagFrom(s: seq<byte>, k: nat, number: nat): (r: Option<Decoded>)
    ensures r.Some? ==> k < r.value.length <= |s|
    decreases |s| - k
  {
    if k >= |s| || k > 4 || (k == 4 && s[k] % 128 > 15) then None
    else
      var next := number + s[k] as int % 128 * Weight(k);
      if s[k] < 128 then Some(Decoded(next, k + 1)) else DecodeTagFrom(s, k + 1, next)
  }

  function DecodeTag(s: seq<byte>): (r: Option<Decoded>)
    ensures r.Some? ==> 0 < r.value.length <= |s|
  {
    DecodeTagFrom(s, 0, 0)
  }

  lemma Weights()
    ensures Weight(0) == 1 && Weight(1) == 128 && Weight(2) == 16384 && Weight(3) == 2097152 && Weight(4) == 268435456
  {
    assert Weight(2) == 128 * Weight(1);
    assert Weight(3) == 128 * Weight(2);
    assert Weight(4) == 128 * Weight(3);
  }

  lemma {:induction false} TagFromReadsBack(before: seq<byte>, tag: nat, rest: seq<byte>, number: nat)
    requires |before| <= 4 && tag * Weight(|before|) < UINT32
    ensures DecodeTagFrom(before + TagBytes(tag) + rest, |before|, number)
            == Some(Decoded(number + tag * Weight(|before|), |before| + |TagBytes(tag)|))
    decreases tag
  {
    hide Weight, DecodeTagFrom;
    var k, first := |before|, TagBytes(tag)[0];
    var s := before + TagBytes(tag) + rest;
    assert s[k] == first;
    LastFour(k, tag);
    DecodeTagStep(s, k, number);
    if tag >= 128 {
      TagSplit(tag, Weight(k));
      TagFromReadsBack(before + [first], tag / 128, rest, number + tag % 128 * Weight(k));
      assert before + [first] + TagBytes(tag / 128) + rest == s;
    }
  }

  lemma DecodeTagStep(s: seq<byte>, k: nat, number: nat)
    requires k < |s| && k <= 4 && (k == 4 ==> s[k] % 128 <= 15)
    ensures var next := number + s[k] as int % 128 * Weight(k);
            DecodeTagFrom(s, k, number)
            == if s[k] < 128 then Some(Decoded(next, k + 1)) else DecodeTagFrom(s, k + 1, next)
  {
    hide Weight;
  }

  /** The fifth byte of a tag has four bits. */
  lemma LastFour(k: nat, tag: nat)
    requires k <= 4 && tag * Weight(k) < UINT32
    ensures k == 4 ==> tag <= 15
    ensures Weight(k + 1) == 128 * Weight(k)
  {
    Weights();
  }

  lemma TagSplit(tag: nat, weight: nat)
    ensures tag / 128 * (128 * weight) + tag % 128 * weight == tag * weight
  {
    assert tag == 128 * (tag / 128) + tag % 128;
    assert tag / 128 * (128 * weight) == 128 * (tag / 128) * weight;
  }

  /** A tag of 32 bits is read back, whatever follows it. */
  lemma TagReadsBack(tag: nat, rest: seq<byte>)
    requires tag < UINT32
    ensures DecodeTag(TagBytes(tag) + rest) == Some(Decoded(tag, |TagBytes(tag)|))
  {
    TagFromReadsBack([], tag, rest, 0);
    assert [] + TagBytes(tag) + rest == TagBytes(tag) + rest;
  }

  /** No tag begins with another. */
  lemma TagPrefixFree(tag: nat, other: nat)
    requires tag < UINT32 && other < UINT32 && TagBytes(tag) <= TagBytes(other)
    ensures tag == other
  {
    var rest := TagBytes(other)[|TagBytes(tag)|..];
    assert TagBytes(tag) + rest == TagBytes(other) + [];
    TagReadsBack(tag, rest);
    TagReadsBack(other, []);
  }

  lemma {:induction false} DecodeTagBounds(s: seq<byte>, k: nat, number: nat)
    requires k <= 5 && number < Weight(k) && DecodeTagFrom(s, k, number).Some?
    ensures var d := DecodeTagFrom(s, k, number).value;
            k < d.length <= |s| && d.length <= 5 && d.number < UINT32
    decreases 5 - k
  {
    Weights();
    if s[k] >= 128 {
      DecodeTagBounds(s, k + 1, number + s[k] as int % 128 * Weight(k));
    }
  }

  /** The first `n` bytes are a tag: all but the last have their high bit set, and what they say has 32 bits. */
  ghost predicate IsTag(s: seq<byte>, n: nat) {
    && 0 < n <= 5 && n <= |s| && s[n - 1] < 128 && (forall k :: 0 <= k < n - 1 ==> s[k] >= 128)
    && (n == 5 ==> s[4] <= 15)
  }

  /** The number of which these are the lower seven bits of the bytes, the lowest first. */
  ghost function Septets(s: seq<byte>): nat {
    if |s| == 0 then 0 else s[0] as int % 128 + 128 * Septets(s[1..])
  }

  /** A tag is decoded if and only if one is there, however long it was made, to the number of its bits. */
  lemma DecodeTagExact(s: seq<byte>)
    ensures DecodeTag(s).Some? <==> exists n: nat :: IsTag(s, n)
    ensures forall n: nat :: IsTag(s, n) ==> DecodeTag(s) == Some(Decoded(Septets(s[..n]), n))
  {
    hide DecodeTagFrom, Septets;
    if DecodeTag(s).Some? {
      DecodedIsTag(s, 0, 0);
    }
    forall n: nat | IsTag(s, n)
      ensures DecodeTag(s) == Some(Decoded(Septets(s[..n]), n))
    {
      TagIsDecoded(s, 0, 0, n);
      assert s[0..n] == s[..n];
    }
  }

  lemma {:induction false} TagIsDecoded(s: seq<byte>, k: nat, number: nat, n: nat)
    requires IsTag(s, n) && k < n
    ensures DecodeTagFrom(s, k, number) == Some(Decoded(number + Septets(s[k..n]) * Weight(k), n))
    decreases n - k
  {
    hide Weight, DecodeTagFrom;
    DecodeTagStep(s, k, number);
    WeightStep(k);
    var next := number + s[k] as int % 128 * Weight(k);
    assert s[k..n][1..] == s[k + 1..n];
    if k == n - 1 {
      assert s[k + 1..n] == [];
    } else {
      TagIsDecoded(s, k + 1, next, n);
      SeptetsStep(s[k] as int % 128, Septets(s[k + 1..n]), Weight(k));
    }
  }

  lemma WeightStep(k: nat)
    ensures Weight(k + 1) == 128 * Weight(k)
  {
  }

  lemma SeptetsStep(first: nat, rest: nat, weight: nat)
    ensures (first + 128 * rest) * weight == first * weight + rest * (128 * weight)
  {
    assert 128 * rest * weight == rest * (128 * weight);
  }

  lemma {:induction false} DecodedIsTag(s: seq<byte>, k: nat, number: nat)
    requires DecodeTagFrom(s, k, number).Some? && forall j :: 0 <= j < k && j < |s| ==> s[j] >= 128
    ensures IsTag(s, DecodeTagFrom(s, k, number).value.length)
    decreases |s| - k
  {
    hide Weight;
    if s[k] >= 128 {
      DecodedIsTag(s, k + 1, number + s[k] as int % 128 * Weight(k));
    }
  }

  /** The tag 0x166 is e6 02, the lowest bits first. */
  lemma SomeTagBytes()
    ensures TagBytes(0x166) == [0xe6, 2] && DecodeTag([0xe6, 2, 9]) == Some(Decoded(0x166, 2))
  {
    assert TagBytes(2) == [2];
    TagReadsBack(0x166, [9]);
    assert TagBytes(0x166) + [9] == [0xe6, 2, 9];
  }

  /** 82 66 is another tag, and one need not be as short as it can. */
  lemma OtherTagBytes()
    ensures DecodeTag([0x82, 0x66]) == Some(Decoded(0x3302, 2)) && DecodeTag([0x82, 0x80, 0]) == Some(Decoded(2, 3))
  {
    hide DecodeTagFrom;
    Weights();
    var s, t := [0x82, 0x66], [0x82, 0x80, 0];
    DecodeTagStep(s, 0, 0);
    DecodeTagStep(s, 1, 2);
    DecodeTagStep(t, 0, 0);
    DecodeTagStep(t, 1, 2);
    DecodeTagStep(t, 2, 2);
  }

  // Integers

  /** The number without its `i` lowest nibbles. */
  function Shifted(number: nat, i: nat): nat {
    if i == 0 then number else Shifted(number / 16, i - 1)
  }

  lemma {:induction false} ShiftedStep(number: nat, i: nat)
    ensures Shifted(number, i + 1) == Shifted(number, i) / 16
  {
    if i > 0 {
      ShiftedStep(number / 16, i - 1);
    }
  }

  /** How many nibbles a number has; 0 has one. */
  function NibbleCount(number: nat): (n: nat)
    ensures n >= 1
  {
    if number < 16 then 1 else 1 + NibbleCount(number / 16)
  }

  function Pow16(k: nat): nat {
    if k == 0 then 1 else 16 * Pow16(k - 1)
  }

  lemma {:induction false} NibbleCountAtMost(number: nat, k: nat)
    requires number < Pow16(k)
    ensures NibbleCount(number) <= k || k == 0
  {
    if number >= 16 {
      NibbleCountAtMost(number / 16, k - 1);
    }
  }

  lemma WordNibbles(number: nat)
    ensures number < UINT32 ==> NibbleCount(number) <= NIBBLES32
    ensures number < UINT64 ==> NibbleCount(number) <= NIBBLES64
  {
    assert Pow16(4) == 0x1_0000;
    assert Pow16(8) == 0x1_0000 * Pow16(4);
    assert Pow16(12) == 0x1_0000 * Pow16(8);
    assert Pow16(16) == 0x1_0000 * Pow16(12);
    if number < UINT32 {
      NibbleCountAtMost(number, 8);
    }
    if number < UINT64 {
      NibbleCountAtMost(number, 16);
    }
  }

  lemma {:induction false} NothingAfter(number: nat)
    ensures Shifted(number, NibbleCount(number)) == 0
    ensures forall i :: 0 < i < NibbleCount(number) ==> Shifted(number, i) > 0
  {
    if number >= 16 {
      NothingAfter(number / 16);
    }
  }

  /** Byte `j` of an integer: the count, less one, and the lowest nibble; then two nibbles in each byte. */
  function IntByte(number: nat, j: nat): byte
    requires NibbleCount(number) <= NIBBLES64
  {
    var high := if j == 0 then NibbleCount(number) - 1 else Shifted(number, 2 * j - 1) % 16;
    (high * 16 + Shifted(number, 2 * j) % 16) as byte
  }

  function IntBytes(number: nat): (s: seq<byte>)
    requires NibbleCount(number) <= NIBBLES64
    ensures |s| == NibbleCount(number) / 2 + 1
  {
    seq(NibbleCount(number) / 2 + 1, j requires j >= 0 => IntByte(number, j))
  }

  /** Nibble `i`, from 1 on, of an encoded integer. */
  function Nibble(s: seq<byte>, i: nat): (n: nat)
    requires i / 2 < |s|
    ensures n < 16
  {
    if i % 2 == 1 then s[i / 2] as int % 16 else s[i / 2] as int / 16
  }

  /** The number in nibbles `i` to `n`, lowest first. */
  function Value(s: seq<byte>, i: nat, n: nat): nat
    requires n / 2 < |s|
    decreases n + 1 - i
  {
    if i > n then 0 else Nibble(s, i) + 16 * Value(s, i + 1, n)
  }

  function DecodeInt(s: seq<byte>, maxNibbles: nat): (r: Option<Decoded>)
    ensures r.Some? ==> 0 < r.value.length <= |s|
  {
    if |s| == 0 then None
    else
      var nibbles := s[0] as int / 16 + 1;
      if nibbles > maxNibbles || nibbles / 2 + 1 > |s| then None
      else Some(Decoded(Value(s, 1, nibbles), nibbles / 2 + 1))
  }

  lemma {:induction false} ValueIsShifted(s: seq<byte>, number: nat, i: nat)
    requires 1 <= i <= NibbleCount(number) + 1 && NibbleCount(number) / 2 < |s|
    requires forall k :: 1 <= k <= NibbleCount(number) ==> Nibble(s, k) == Shifted(number, k - 1) % 16
    ensures Value(s, i, NibbleCount(number)) == Shifted(number, i - 1)
    decreases NibbleCount(number) + 1 - i
  {
    NothingAfter(number);
    if i <= NibbleCount(number) {
      ValueIsShifted(s, number, i + 1);
      ShiftedStep(number, i - 1);
    }
  }

  /** An integer is read back, whatever follows it, by every decoder with room for it. */
  lemma IntReadsBack(number: nat, rest: seq<byte>, maxNibbles: nat)
    requires NibbleCount(number) <= maxNibbles <= NIBBLES64
    ensures DecodeInt(IntBytes(number) + rest, maxNibbles) == Some(Decoded(number, |IntBytes(number)|))
  {
    hide Shifted, NibbleCount, Value;
    var s := IntBytes(number) + rest;
    forall k | 1 <= k <= NibbleCount(number)
      ensures Nibble(s, k) == Shifted(number, k - 1) % 16
    {
      assert s[k / 2] == IntByte(number, k / 2);
    }
    ValueIsShifted(s, number, 1);
    ShiftedNone(number);
    assert s[0] == IntByte(number, 0);
  }

  lemma ShiftedNone(number: nat)
    ensures Shifted(number, 0) == number
  {
  }

  /** No integer begins with another. */
  lemma IntPrefixFree(number: nat, other: nat)
    requires NibbleCount(number) <= NIBBLES64 && NibbleCount(other) <= NIBBLES64
    requires IntBytes(number) <= IntBytes(other)
    ensures number == other
  {
    hide IntBytes, DecodeInt, NibbleCount;
    var rest := IntBytes(other)[|IntBytes(number)|..];
    assert IntBytes(number) + rest == IntBytes(other) + [];
    IntReadsBack(number, rest, NIBBLES64);
    IntReadsBack(other, [], NIBBLES64);
  }

  lemma {:induction false} ValueBound(s: seq<byte>, i: nat, n: nat)
    requires n / 2 < |s| && i <= n + 1
    ensures Value(s, i, n) < Pow16(n + 1 - i)
    decreases n + 1 - i
  {
    if i <= n {
      ValueBound(s, i + 1, n);
    }
  }

  lemma {:induction false} Pow16Grows(m: nat, n: nat)
    requires m <= n
    ensures Pow16(m) <= Pow16(n)
    decreases n
  {
    if m < n {
      Pow16Grows(m, n - 1);
    }
  }

  /** A decoded number fits the word it is decoded into. */
  lemma DecodeIntFits(s: seq<byte>)
    ensures DecodeInt(s, NIBBLES32).Some? ==> DecodeInt(s, NIBBLES32).value.number < UINT32
    ensures DecodeInt(s, NIBBLES64).Some? ==> DecodeInt(s, NIBBLES64).value.number < UINT64
  {
    if DecodeInt(s, NIBBLES64).Some? {
      var n := s[0] as int / 16 + 1;
      ValueBound(s, 1, n);
      if n <= NIBBLES32 {
        Pow16Grows(n, NIBBLES32);
      }
      Pow16Grows(n, NIBBLES64);
      assert Pow16(4) == 0x1_0000;
      assert Pow16(8) == 0x1_0000 * Pow16(4);
      assert Pow16(12) == 0x1_0000 * Pow16(8);
      assert Pow16(16) == 0x1_0000 * Pow16(12);
    }
  }

  lemma {:induction false} ValueMore(s: seq<byte>, more: seq<byte>, i: nat, n: nat)
    requires s <= more && n / 2 < |s|
    ensures Value(s, i, n) == Value(more, i, n)
    decreases n + 1 - i
  {
    if i <= n {
      ValueMore(s, more, i + 1, n);
    }
  }

  /** A number has as many nibbles as it needs, and one if it is 0. */
  lemma {:induction false} NibbleCountIs(number: nat)
    ensures number < Pow16(NibbleCount(number))
    ensures number > 0 ==> Pow16(NibbleCount(number) - 1) <= number
  {
    if number >= 16 {
      NibbleCountIs(number / 16);
    }
  }

  /** The first byte has the count of nibbles, less one, and the lowest nibble. */
  lemma FirstIntByte(number: nat)
    requires NibbleCount(number) <= NIBBLES64
    ensures IntBytes(number)[0] as int == (NibbleCount(number) - 1) * 16 + number % 16
  {
    assert Shifted(number, 0) == number;
  }

  /** The integer 0xabc is 2c ba: two more nibbles, the lowest first. What fills the last byte does not matter,
      nor do nibbles that are 0; but no more of them than asked for are taken. */
  lemma SomeIntBytes()
    ensures IntBytes(0xabc) == [0x2c, 0xba] && IntBytes(0x7f) == [0x1f, 0x70] && IntBytes(0) == [0]
    ensures DecodeInt([0x2c, 0xba], NIBBLES32) == Some(Decoded(0xabc, 2))
    ensures DecodeInt([0x1f, 0x75], NIBBLES32) == Some(Decoded(0x7f, 2))
    ensures DecodeInt([0x25, 0], NIBBLES32) == Some(Decoded(5, 2))
    ensures DecodeInt([0x80, 0, 0, 0, 0], NIBBLES32) == None == DecodeInt([0x25], NIBBLES32)
  {
    assert NibbleCount(0xabc) == 3 && NibbleCount(0x7f) == 2 && NibbleCount(0) == 1;
    assert Shifted(0xabc, 1) == Shifted(0xab, 0) == 0xab && Shifted(0xabc, 2) == Shifted(0xab, 1) == 0xa;
    assert Shifted(0x7f, 1) == Shifted(7, 0) == 7 && Shifted(0x7f, 2) == Shifted(7, 1) == Shifted(0, 0);
    IntReadsBack(0xabc, [], NIBBLES32);
    assert IntBytes(0xabc) + [] == [0x2c, 0xba];
    var t, u := [0x1f, 0x75], [0x25, 0];
    assert Value(t, 3, 2) == 0 && Value(t, 2, 2) == 7 && Value(t, 1, 2) == 15 + 16 * 7;
    assert Value(u, 4, 3) == 0 && Value(u, 3, 3) == 0 && Value(u, 2, 3) == 0 && Value(u, 1, 3) == 5;
  }

  // Records

  datatype Record = Record(tag: nat, data: seq<byte>)

  /** The tag and the length have 32 bits. */
  ghost predicate IsRecord(r: Record) {
    r.tag < UINT32 && |r.data| < UINT32
  }

  /** A record that can be taken out again: its length is no negative int. */
  ghost predicate RecordOk(r: Record) {
    IsRecord(r) && |r.data| < UINT32 / 2
  }

  ghost function Marshalled(r: Record): seq<byte>
    requires IsRecord(r)
  {
    WordNibbles(|r.data|);
    TagBytes(r.tag) + IntBytes(|r.data|) + r.data
  }

  /** Records one after another. */
  ghost function Stream(records: seq<Record>): seq<byte>
    requires forall k :: 0 <= k < |records| ==> RecordOk(records[k])
  {
    if |records| == 0 then []
    else
      assert RecordOk(records[0]);
      Marshalled(records[0]) + Stream(records[1..])
  }

  datatype Header = Header(tag: nat, tagLength: nat, length: nat, size: nat)

  /** The header of the record at the start: its tag, and the length of what it is about; `size` is its own. */
  ghost function HeaderOf(s: seq<byte>): (h: Option<Header>)
    ensures h.Some? ==> 0 < h.value.tagLength < h.value.size <= |s|
  {
    match DecodeTag(s)
    case None => None
    case Some(t) =>
      match DecodeInt(s[t.length..], NIBBLES32)
      case None => None
      case Some(n) => Some(Header(t.number, t.length, n.number, t.length + n.length))
  }

  /** The header of a record is read back, whatever follows it. */
  lemma HeaderReadsBack(r: Record, rest: seq<byte>)
    requires IsRecord(r)
    ensures var s := Marshalled(r) + rest;
            var tags := |TagBytes(r.tag)|;
            var size := |Marshalled(r)| - |r.data|;
            && HeaderOf(s) == Some(Header(r.tag, tags, |r.data|, size))
            && 0 < size <= |s| && s[size..] == r.data + rest
  {
    hide TagBytes, IntBytes, DecodeInt, DecodeTagFrom, DecodeTag, NibbleCount;
    WordNibbles(|r.data|);
    var t, n := TagBytes(r.tag), IntBytes(|r.data|);
    FourPieces(t, n, r.data, rest);
    TagReadsBack(r.tag, n + r.data + rest);
    IntReadsBack(|r.data|, r.data + rest, NIBBLES32);
  }

  /** The tag comes first, then the length, then the data. */
  lemma SomeRecordBytes()
    ensures Marshalled(Record(0x166, [7, 8, 9])) == [0xe6, 2, 3, 7, 8, 9]
    ensures HeaderOf([0xe6, 2, 3, 7, 8, 9]) == Some(Header(0x166, 2, 3, 3))
  {
    SomeTagBytes();
    assert NibbleCount(3) == 1 && IntBytes(3) == [3];
    var r := Record(0x166, [7, 8, 9]);
    HeaderReadsBack(r, []);
    assert Marshalled(r) + [] == [0xe6, 2, 3, 7, 8, 9];
  }

  lemma FourPieces(a: seq<byte>, b: seq<byte>, c: seq<byte>, d: seq<byte>)
    ensures var s := a + b + c + d;
            && s == a + (b + c + d)
            && s[|a|..] == b + (c + d) && s[|a| + |b|..] == c + d
  {
  }
}
