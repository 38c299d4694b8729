/** Tagged records in an evbuffer. */
module Tagging {
  import opened Bytes
  import opened Chains
  import opened Evbuffers
  import opened TagCodes

  // Encoding

  /** Byte `j` of an integer of which the nibbles before `off` are there. */
  ghost function Partial(number: nat, off: nat, j: nat): nat {
    (if 1 <= j && 2 * j < off then Shifted(number, 2 * j - 1) % 16 * 16 else 0)
    + if 2 * j + 1 < off then Shifted(number, 2 * j) % 16 else 0
  }

  /** Writes an integer into `data`, which has a byte more than the integer type: the bytes used. */
  method EncodeIntInternal(data: array<byte>, number: nat) returns (len: nat)
    requires (data.Length == 5 && number < UINT32) || (data.Length == 9 && number < UINT64)
    modifies data
    ensures NibbleCount(number) <= NIBBLES64
    ensures len <= data.Length && data[..len] == IntBytes(number)
  {
    hide Shifted, NibbleCount, Partial;
    WordNibbles(number);
    for i := 0 to data.Length
      invariant forall j :: 0 <= j < i ==> data[j] == 0
    {
      data[i] := 0;
    }
    var off := PutNibbles(data, number);
    var nibbles := if off > 2 then off - 2 else 0;
    PartialEnd(number, off);
    data[0] := data[0] % 16 + (nibbles * 16) as byte;
    return (off + 1) / 2;
  }

  /** Puts the nibbles in, after the one for how many they are: the place after the last. */
  method PutNibbles(data: array<byte>, number: nat) returns (off: nat)
    requires NibbleCount(number) <= NIBBLES64 && NibbleCount(number) / 2 < data.Length
    requires forall j :: 0 <= j < data.Length ==> data[j] == 0
    modifies data
    ensures 1 <= off <= NibbleCount(number) + 1 && Shifted(number, off - 1) == 0
    ensures forall j :: 0 <= j < data.Length ==> data[j] as int == Partial(number, off, j)
  {
    hide Shifted, NibbleCount, Partial;
    NothingAfter(number);
    ShiftedStart(number);
    PartialStart(number);
    var n := number;
    off := 1;
    while n > 0
      invariant 1 <= off <= NibbleCount(number) + 1 && n == Shifted(number, off - 1)
      invariant forall j :: 0 <= j < data.Length ==> data[j] as int == Partial(number, off, j)
      decreases NibbleCount(number) + 1 - off
    {
      PartialStep(number, off);
      ShiftedStep(number, off - 1);
      var at := off / 2;
      if off % 2 == 1 {
        data[at] := data[at] / 16 * 16 + (n % 16) as byte;
      } else {
        data[at] := data[at] % 16 + ((n % 16) * 16) as byte;
      }
      n := n / 16;
      off := off + 1;
    }
  }

  lemma ShiftedStart(number: nat)
    ensures Shifted(number, 0) == number && (number > 0 ==> NibbleCount(number) >= 1)
    ensures number == 0 ==> NibbleCount(number) == 1
  {
  }

  lemma PartialStart(number: nat)
    ensures forall j: nat :: Partial(number, 1, j) == 0
  {
  }

  /** One more nibble changes one byte, where it was 0. */
  lemma PartialStep(number: nat, off: nat)
    requires off >= 1
    ensures forall j: nat :: j != off / 2 ==> Partial(number, off + 1, j) == Partial(number, off, j)
    ensures var was, now := Partial(number, off, off / 2), Partial(number, off + 1, off / 2);
            var n := Shifted(number, off - 1) % 16;
            && was < 256 && now < 256
            && now == if off % 2 == 1 then was / 16 * 16 + n else was % 16 + n * 16
  {
    hide Shifted;
  }

  lemma PartialEnd(number: nat, off: nat)
    requires NibbleCount(number) <= NIBBLES64
    requires 1 <= off <= NibbleCount(number) + 1 && Shifted(number, off - 1) == 0
    ensures (if off > 2 then off - 2 else 0) == NibbleCount(number) - 1
    ensures (off + 1) / 2 == NibbleCount(number) / 2 + 1
    ensures forall j :: 1 <= j < (off + 1) / 2 ==> Partial(number, off, j) == IntByte(number, j) as int
    ensures Partial(number, off, 0) % 16 == IntByte(number, 0) as int % 16
  {
    hide Shifted, NibbleCount;
    NothingAfter(number);
    ShiftedStart(number);
  }

  /** A buffer whose contents fit one allocation, and that is not frozen at either end. */
  ghost predicate Ready(evbuf: Evbuffer)
    reads evbuf
  {
    evbuf.Valid() && !evbuf.freezeStart && !evbuf.freezeEnd && evbuf.totalLen <= CHAIN_MAX - CHAIN_SIZE
  }

  /** Appends bytes for which there is room. */
  method Append(evbuf: Evbuffer, data: seq<byte>)
    requires evbuf.Valid() && !evbuf.freezeEnd && evbuf.totalLen + |data| <= CHAIN_MAX - CHAIN_SIZE
    modifies evbuf`chains, evbuf`last, evbuf`lwd, evbuf`totalLen
    ensures evbuf.Valid() && evbuf.Contents() == old(evbuf.Contents()) + data
    ensures evbuf.totalLen == old(evbuf.totalLen) + |data|
  {
    hide Spell, Packed, AllOk;
    var ok := evbuf.Add(data);
  }

  method EncodeInt(evbuf: Evbuffer, number: nat)
    requires number < UINT32 && evbuf.Valid() && !evbuf.freezeEnd
    requires evbuf.totalLen + 5 <= CHAIN_MAX - CHAIN_SIZE
    modifies evbuf`chains, evbuf`last, evbuf`lwd, evbuf`totalLen
    ensures NibbleCount(number) <= NIBBLES64
    ensures evbuf.Valid() && evbuf.Contents() == old(evbuf.Contents()) + IntBytes(number)
    ensures evbuf.totalLen <= old(evbuf.totalLen) + 5
  {
    var data := new byte[5];
    var len := EncodeIntInternal(data, number);
    Append(evbuf, data[..len]);
  }

  method EncodeInt64(evbuf: Evbuffer, number: nat)
    requires number < UINT64 && evbuf.Valid() && !evbuf.freezeEnd
    requires evbuf.totalLen + 9 <= CHAIN_MAX - CHAIN_SIZE
    modifies evbuf`chains, evbuf`last, evbuf`lwd, evbuf`totalLen
    ensures NibbleCount(number) <= NIBBLES64
    ensures evbuf.Valid() && evbuf.Contents() == old(evbuf.Contents()) + IntBytes(number)
    ensures evbuf.totalLen <= old(evbuf.totalLen) + 9
  {
    var data := new byte[9];
    var len := EncodeIntInternal(data, number);
    Append(evbuf, data[..len]);
  }

  /** The bytes of a tag, seven bits at a time. */
  method TagData(number: nat) returns (r: seq<byte>)
    requires number < UINT32
    ensures r == TagBytes(number) && |r| <= 5
  {
    hide TagBytes, Weight;
    Weights();
    var data := new byte[5];
    var tag: nat, bytes: nat, more := number, 0, true;
    assert data[..0] + TagBytes(tag) == TagBytes(tag);
    while more
      invariant bytes <= 5 && tag * Weight(bytes) <= number
      invariant more ==> bytes <= 4 && (bytes > 0 ==> tag > 0) && data[..bytes] + TagBytes(tag) == TagBytes(number)
      invariant !more ==> data[..bytes] == TagBytes(number)
      decreases more, tag
    {
      TagBytesStep(tag);
      TagSplit(tag, Weight(bytes));
      ghost var was, sofar := tag, data[..bytes];
      var lower := tag % 128;
      tag := tag / 128;
      if tag > 0 {
        lower := lower + 128;
      }
      data[bytes] := lower as byte;
      bytes := bytes + 1;
      more := tag > 0;
      AppendPieces(sofar, [lower as byte], if more then TagBytes(tag) else []);
      assert data[..bytes] == sofar + [lower as byte];
    }
    return data[..bytes];
  }

  lemma TagBytesStep(tag: nat)
    ensures TagBytes(tag) == if tag / 128 == 0 then [tag as byte] else [(128 + tag % 128) as byte] + TagBytes(tag / 128)
  {
  }

  /** Appends a tag, if there is a buffer: the bytes it takes. */
  method EncodeTag(evbuf: Evbuffer?, tag: nat) returns (bytes: nat)
    requires tag < UINT32
    requires evbuf != null ==> evbuf.Valid() && !evbuf.freezeEnd && evbuf.totalLen + 5 <= CHAIN_MAX - CHAIN_SIZE
    modifies if evbuf == null then {} else {evbuf}`chains, if evbuf == null then {} else {evbuf}`last,
             if evbuf == null then {} else {evbuf}`lwd, if evbuf == null then {} else {evbuf}`totalLen
    ensures bytes == |TagBytes(tag)| <= 5
    ensures evbuf != null ==> evbuf.Valid() && evbuf.Contents() == old(evbuf.Contents()) + TagBytes(tag)
                              && evbuf.totalLen == old(evbuf.totalLen) + bytes
  {
    var data := TagData(tag);
    if evbuf != null {
      Append(evbuf, data);
    }
    return |data|;
  }

  // Decoding

  /** Decodes the tag at the start: its length and the tag, or -1. */
  method DecodeTagInternal(evbuf: Evbuffer, dodrain: bool) returns (r: int, tag: nat)
    requires Ready(evbuf)
    modifies evbuf`chains, evbuf`last, evbuf`lwd, evbuf`totalLen
    ensures Ready(evbuf)
    ensures match DecodeTag(old(evbuf.Contents()))
            case None => r == -1 && evbuf.Contents() == old(evbuf.Contents())
            case Some(d) =>
              && r == d.length && tag == d.number
              && evbuf.Contents() == if dodrain then old(evbuf.Contents())[r..] else old(evbuf.Contents())
  {
    hide Spell, Packed, AllOk, Weight;
    Weights();
    var number: nat, len, count: nat, done := 0, evbuf.totalLen, 0, false;
    ghost var s := evbuf.Contents();
    var head := evbuf.Pullup(if len < 5 then len else 5);
    tag := 0;
    if head.None? {
      return -1, tag;
    }
    var data := head.value;
    while count < len && !done
      modifies {}
      invariant count <= len && count <= 5
      invariant !done ==> DecodeTagFrom(s, count, number) == DecodeTag(s)
      invariant done ==> DecodeTag(s) == Some(Decoded(number, count))
      decreases len - count, !done
    {
      // The source looks at the byte first, also at a sixth, which cannot be right and is not used.
      if count > 4 {
        return -1, tag;
      }
      var lower := data[count];
      assert lower == s[count];
      if count == 4 && lower % 128 > 15 {
        return -1, tag;
      }
      number := number + lower as int % 128 * Weight(count);
      count := count + 1;
      done := lower < 128;
    }
    if !done {
      return -1, tag;
    }
    if dodrain {
      var ok := evbuf.Drain(count);
    }
    return count, number;
  }

  /** Decodes the integer at `offset`: its length and the integer, or -1. Nothing is drained. */
  method DecodeIntInternal(evbuf: Evbuffer, offset: nat, maxNibbles: nat) returns (r: int, number: nat)
    requires Ready(evbuf) && maxNibbles <= NIBBLES64
    modifies evbuf`chains, evbuf`last, evbuf`lwd
    ensures Ready(evbuf) && evbuf.Contents() == old(evbuf.Contents())
    ensures offset >= |evbuf.Contents()| ==> r == -1
    ensures offset < |evbuf.Contents()| ==>
      match DecodeInt(evbuf.Contents()[offset..], maxNibbles)
      case None => r == -1
      case Some(d) => r == d.length && number == d.number
  {
    hide Spell, Packed, AllOk, Value;
    var len: int := evbuf.totalLen - offset;
    number := 0;
    if len <= 0 {
      return -1, number;
    }
    ghost var s := evbuf.Contents()[offset..];
    var head := evbuf.Pullup(offset + 1);
    var first := head.value[offset];
    assert first == s[0];
    var nibbles: nat := first as int / 16 + 1;
    if nibbles > maxNibbles || nibbles / 2 + 1 > len {
      return -1, number;
    }
    len := nibbles / 2 + 1;
    head := evbuf.Pullup(offset + len);
    var data := head.value[offset..];
    PrefixDropped(head.value, evbuf.Contents(), offset);
    ghost var n := nibbles;
    ValueNone(data, n);
    while nibbles > 0
      modifies {}
      invariant nibbles <= n && number == Value(data, nibbles + 1, n)
    {
      ValueStep(data, nibbles, n);
      if nibbles % 2 == 1 {
        number := number * 16 + data[nibbles / 2] as int % 16;
      } else {
        number := number * 16 + data[nibbles / 2] as int / 16;
      }
      nibbles := nibbles - 1;
    }
    ValueMore(data, s, 1, n);
    return len, number;
  }

  lemma PrefixDropped(s: seq<byte>, more: seq<byte>, n: nat)
    requires n <= |s| <= |more| && s == more[..|s|]
    ensures s[n..] <= more[n..]
  {
  }

  lemma ValueNone(s: seq<byte>, n: nat)
    requires n / 2 < |s|
    ensures Value(s, n + 1, n) == 0
  {
  }

  lemma ValueStep(s: seq<byte>, i: nat, n: nat)
    requires n / 2 < |s| && 1 <= i <= n
    ensures Value(s, i, n) == Nibble(s, i) + 16 * Value(s, i + 1, n)
  {
  }

  /** Decodes and drains the integer at the start: 0, or -1. */
  method DecodeIntDrain(evbuf: Evbuffer, maxNibbles: nat) returns (r: int, number: nat)
    requires Ready(evbuf) && maxNibbles <= NIBBLES64
    modifies evbuf`chains, evbuf`last, evbuf`lwd, evbuf`totalLen
    ensures Ready(evbuf)
    ensures match DecodeInt(old(evbuf.Contents()), maxNibbles)
            case None => r == -1 && evbuf.Contents() == old(evbuf.Contents())
            case Some(d) => r == 0 && number == d.number && evbuf.Contents() == old(evbuf.Contents())[d.length..]
  {
    hide Spell, Packed, AllOk, Value;
    assert evbuf.Contents()[0..] == evbuf.Contents();
    var res;
    res, number := DecodeIntInternal(evbuf, 0, maxNibbles);
    if res != -1 {
      var ok := evbuf.Drain(res);
    }
    return if res == -1 then -1 else 0, number;
  }

  // Records

  /** An unsigned 32-bit number as the int that holds the same bits. */
  function AsInt(n: nat): int {
    if n < UINT32 / 2 then n else n - UINT32
  }

  method Marshal(evbuf: Evbuffer, tag: nat, data: seq<byte>)
    requires IsRecord(Record(tag, data)) && evbuf.Valid() && !evbuf.freezeEnd
    requires evbuf.totalLen + 10 + |data| <= CHAIN_MAX - CHAIN_SIZE
    modifies evbuf`chains, evbuf`last, evbuf`lwd, evbuf`totalLen
    ensures evbuf.Valid() && evbuf.Contents() == old(evbuf.Contents()) + Marshalled(Record(tag, data))
    ensures evbuf.totalLen <= old(evbuf.totalLen) + 10 + |data|
  {
    hide TagBytes, IntBytes, NibbleCount, Spell, Packed;
    ghost var was := evbuf.Contents();
    var bytes := EncodeTag(evbuf, tag);
    EncodeInt(evbuf, |data|);
    Append(evbuf, data);
    AppendThree(was, TagBytes(tag), IntBytes(|data|), data);
  }

  lemma AppendThree(s: seq<byte>, a: seq<byte>, b: seq<byte>, c: seq<byte>)
    ensures s + a + b + c == s + (a + b + c)
  {
  }

  /** Marshals an integer as a record of its own code. */
  method MarshalInt(evbuf: Evbuffer, tag: nat, integer: nat)
    requires tag < UINT32 && integer < UINT32 && evbuf.Valid() && !evbuf.freezeEnd
    requires evbuf.totalLen + 15 <= CHAIN_MAX - CHAIN_SIZE
    modifies evbuf`chains, evbuf`last, evbuf`lwd, evbuf`totalLen
    ensures NibbleCount(integer) <= NIBBLES64 && RecordOk(Record(tag, IntBytes(integer)))
    ensures evbuf.Valid() && evbuf.Contents() == old(evbuf.Contents()) + Marshalled(Record(tag, IntBytes(integer)))
  {
    hide TagBytes, IntBytes, NibbleCount, Spell, Packed;
    ghost var was := evbuf.Contents();
    var data := new byte[5];
    var len := EncodeIntInternal(data, integer);
    var payload := data[..len];
    var bytes := EncodeTag(evbuf, tag);
    EncodeInt(evbuf, len);
    Append(evbuf, payload);
    AppendThree(was, TagBytes(tag), IntBytes(len), payload);
  }

  /** What is left of a buffer once the header is taken from it, as far as there is one. */
  ghost function AfterHeader(s: seq<byte>): seq<byte> {
    match DecodeTag(s)
    case None => s
    case Some(t) =>
      match DecodeInt(s[t.length..], NIBBLES32)
      case None => s[t.length..]
      case Some(n) => s[t.length..][n.length..]
  }

  /** Takes a header off: the length of what follows, or -1 if not all of it is there. */
  method UnmarshalHeader(evbuf: Evbuffer) returns (len: int, tag: nat)
    requires Ready(evbuf)
    modifies evbuf`chains, evbuf`last, evbuf`lwd, evbuf`totalLen
    ensures Ready(evbuf) && evbuf.Contents() == AfterHeader(old(evbuf.Contents()))
    ensures match HeaderOf(old(evbuf.Contents()))
            case None => len == -1
            case Some(h) => tag == h.tag && len == if |evbuf.Contents()| < h.length then -1 else AsInt(h.length)
  {
    hide Spell, Packed, AllOk;
    var r, n;
    r, tag := DecodeTagInternal(evbuf, true);
    if r == -1 {
      return -1, tag;
    }
    r, n := DecodeIntDrain(evbuf, NIBBLES32);
    if r == -1 {
      return -1, tag;
    }
    if evbuf.totalLen < n {
      return -1, tag;
    }
    return AsInt(n), tag;
  }

  lemma AfterHeaderIs(s: seq<byte>)
    requires HeaderOf(s).Some?
    ensures AfterHeader(s) == s[HeaderOf(s).value.size..] && HeaderOf(s).value.length < UINT32
  {
    DecodeIntFits(s[HeaderOf(s).value.tagLength..]);
  }

  /** A whole record, of which the length is no negative int, is at the start. */
  ghost predicate Whole(s: seq<byte>) {
    && HeaderOf(s).Some?
    && HeaderOf(s).value.length < UINT32 / 2
    && HeaderOf(s).value.size + HeaderOf(s).value.length <= |s|
  }

  /** A record is there of which the length is a negative int other than -1. */
  ghost predicate Oversized(s: seq<byte>) {
    && HeaderOf(s).Some?
    && UINT32 / 2 <= HeaderOf(s).value.length < UINT32 - 1
    && HeaderOf(s).value.size + HeaderOf(s).value.length <= |s|
  }

  /** Drops a record; of one with a negative length all that comes after it as well. */
  method Consume(evbuf: Evbuffer) returns (r: int)
    requires Ready(evbuf)
    modifies evbuf`chains, evbuf`last, evbuf`lwd, evbuf`totalLen
    ensures Ready(evbuf)
    ensures var s := old(evbuf.Contents());
            if Whole(s) then r == 0 && evbuf.Contents() == s[HeaderOf(s).value.size + HeaderOf(s).value.length..]
            else if Oversized(s) then r == 0 && evbuf.Contents() == []
            else r == -1 && evbuf.Contents() == AfterHeader(s)
  {
    hide Spell, Packed, AllOk, HeaderOf, AfterHeader;
    ghost var s := evbuf.Contents();
    var len, tag := UnmarshalHeader(evbuf);
    if HeaderOf(s).Some? {
      AfterHeaderIs(s);
    }
    if len == -1 {
      return -1;
    }
    // A negative length is a huge one once it is taken as a size.
    var ok := evbuf.Drain(if len < 0 then len + SIZE_MAX + 1 else len);
    return 0;
  }

  /** Moves the payload of a record to `dst`: its length, or -1. */
  method Unmarshal(src: Evbuffer, dst: Evbuffer) returns (len: int, tag: nat)
    requires Ready(src) && Ready(dst) && src != dst && src.totalLen + dst.totalLen <= CHAIN_MAX - CHAIN_SIZE
    modifies src`chains, src`last, src`lwd, src`totalLen, dst`chains, dst`last, dst`lwd, dst`totalLen
    ensures Ready(src) && Ready(dst)
    ensures var s := old(src.Contents());
            if Whole(s) then
              var h := HeaderOf(s).value;
              && tag == h.tag && len == h.length
              && src.Contents() == s[h.size + h.length..]
              && dst.Contents() == old(dst.Contents()) + s[h.size..h.size + h.length]
            else len == -1 && src.Contents() == AfterHeader(s) && dst.Contents() == old(dst.Contents())
  {
    hide Spell, Packed, AllOk, HeaderOf, AfterHeader;
    ghost var s := src.Contents();
    len, tag := UnmarshalHeader(src);
    if HeaderOf(s).Some? {
      AfterHeaderIs(s);
    }
    if len == -1 {
      return;
    }
    if len < 0 {
      // So many bytes cannot be added.
      len := -1;
      return;
    }
    var head := src.Pullup(len);
    var data := if head.None? then [] else head.value;
    assert data == src.Contents()[..len];
    Append(dst, data);
    var ok := src.Drain(len);
  }

  /** The tag of the record at the start, which stays. */
  method Peek(evbuf: Evbuffer) returns (r: int, tag: nat)
    requires Ready(evbuf)
    modifies evbuf`chains, evbuf`last, evbuf`lwd, evbuf`totalLen
    ensures Ready(evbuf) && evbuf.Contents() == old(evbuf.Contents())
    ensures match DecodeTag(evbuf.Contents())
            case None => r == -1
            case Some(d) => r == d.length && tag == d.number
  {
    r, tag := DecodeTagInternal(evbuf, false);
  }

  /** The length of the payload of the record at the start, which stays. */
  method PayloadLength(evbuf: Evbuffer) returns (r: int, length: nat, size: nat)
    requires Ready(evbuf)
    modifies evbuf`chains, evbuf`last, evbuf`lwd, evbuf`totalLen
    ensures Ready(evbuf) && evbuf.Contents() == old(evbuf.Contents())
    ensures match HeaderOf(evbuf.Contents())
            case None => r == -1
            case Some(h) => r == 0 && length == h.length && size == h.size
  {
    hide Spell, Packed, AllOk;
    length, size := 0, 0;
    var len, tag := DecodeTagInternal(evbuf, false);
    if len == -1 {
      return -1, length, size;
    }
    r, length := DecodeIntInternal(evbuf, len, NIBBLES32);
    if r == -1 {
      return -1, length, size;
    }
    return 0, length, r + len;
  }

  /** The length of the whole record at the start, in 32 bits. */
  method PeekLength(evbuf: Evbuffer) returns (r: int, length: nat)
    requires Ready(evbuf)
    modifies evbuf`chains, evbuf`last, evbuf`lwd, evbuf`totalLen
    ensures Ready(evbuf) && evbuf.Contents() == old(evbuf.Contents())
    ensures match HeaderOf(evbuf.Contents())
            case None => r == -1
            case Some(h) => r == 0 && length == (h.size + h.length) % UINT32
  {
    var size;
    r, length, size := PayloadLength(evbuf);
    length := (length + size) % UINT32;
  }

  /** A marshalled record can be taken out if and only if its length is no negative int. */
  lemma RecordIsWhole(r: Record, rest: seq<byte>)
    requires IsRecord(r)
    ensures var s := Marshalled(r) + rest;
            && (Whole(s) <==> RecordOk(r)) && HeaderOf(s).Some?
            && HeaderOf(s).value.tag == r.tag && HeaderOf(s).value.length == |r.data|
            && var h := HeaderOf(s).value;
               h.size + h.length == |Marshalled(r)| && s[h.size..h.size + h.length] == r.data
               && s[h.size + h.length..] == rest
  {
    hide HeaderOf, Marshalled;
    HeaderReadsBack(r, rest);
    var s := Marshalled(r) + rest;
    var h := HeaderOf(s).value;
    assert s[h.size..][..h.length] == r.data;
  }

  ghost predicate AllRecordsOk(records: seq<Record>) {
    forall k :: 0 <= k < |records| ==> RecordOk(records[k])
  }

  ghost function TotalLength(records: seq<Record>): nat {
    if |records| == 0 then 0 else 10 + |records[0].data| + TotalLength(records[1..])
  }

  /** Marshals records one after another. */
  method MarshalAll(evbuf: Evbuffer, records: seq<Record>)
    requires Ready(evbuf) && AllRecordsOk(records)
    requires evbuf.totalLen + TotalLength(records) <= CHAIN_MAX - CHAIN_SIZE
    modifies evbuf`chains, evbuf`last, evbuf`lwd, evbuf`totalLen
    ensures Ready(evbuf) && evbuf.Contents() == old(evbuf.Contents()) + Stream(records)
  {
    hide Spell, Packed, AllOk, Marshalled, Stream, TotalLength, RecordOk;
    StreamStart(records);
    assert evbuf.Contents() + [] == evbuf.Contents();
    for i := 0 to |records|
      invariant Ready(evbuf) && evbuf.totalLen + TotalLength(records[i..]) <= CHAIN_MAX - CHAIN_SIZE
      invariant evbuf.Contents() + Stream(records[i..]) == old(evbuf.Contents()) + Stream(records)
    {
      StreamStep(evbuf.Contents(), records, i);
      Marshal(evbuf, records[i].tag, records[i].data);
    }
    StreamEnd(records);
    assert evbuf.Contents() + [] == evbuf.Contents();
  }

  lemma StreamStart(records: seq<Record>)
    ensures records[0..] == records
  {
  }

  lemma StreamEnd(records: seq<Record>)
    ensures AllRecordsOk(records[|records|..]) && Stream(records[|records|..]) == []
  {
  }

  lemma StreamStep(s: seq<byte>, records: seq<Record>, i: nat)
    requires i < |records| && AllRecordsOk(records)
    ensures var r := records[i];
            && RecordOk(r) && IsRecord(r) && r == Record(r.tag, r.data)
            && AllRecordsOk(records[i..]) && AllRecordsOk(records[i + 1..])
            && Stream(records[i..]) == Marshalled(r) + Stream(records[i + 1..])
            && s + Stream(records[i..]) == s + Marshalled(r) + Stream(records[i + 1..])
            && TotalLength(records[i..]) == 10 + |r.data| + TotalLength(records[i + 1..])
  {
    hide Marshalled;
    assert records[i..][1..] == records[i + 1..];
  }

  /** Unmarshals records until the buffer is empty: the ones marshalled. */
  method UnmarshalAll(evbuf: Evbuffer, ghost records: seq<Record>) returns (got: seq<Record>)
    requires Ready(evbuf) && AllRecordsOk(records) && evbuf.Contents() == Stream(records)
    modifies evbuf`chains, evbuf`last, evbuf`lwd, evbuf`totalLen
    ensures Ready(evbuf) && got == records && evbuf.Contents() == []
  {
    hide Spell, Packed, AllOk, Marshalled, Stream, RecordOk, HeaderOf, AfterHeader, Whole;
    got := [];
    StreamStart(records);
    StreamEmpty(records);
    while evbuf.totalLen > 0
      invariant Ready(evbuf) && |got| <= |records| && AllRecordsOk(records[|got|..])
      invariant got == records[..|got|] && evbuf.Contents() == Stream(records[|got|..])
      invariant evbuf.Contents() == [] <==> |got| == |records|
      decreases |records| - |got|
    {
      ghost var i := |got|;
      StreamStep([], records, i);
      RecordIsWhole(records[i], Stream(records[i + 1..]));
      var dst := new Evbuffer();
      var len, tag := Unmarshal(evbuf, dst);
      assert dst.Contents() == records[i].data;
      var data := dst.Remove(len);
      assert data.value == records[i].data;
      assert records[..i + 1] == records[..i] + [records[i]];
      got := got + [Record(tag, data.value)];
      StreamEmpty(records[i + 1..]);
    }
  }

  lemma StreamEmpty(records: seq<Record>)
    requires AllRecordsOk(records)
    ensures Stream(records) == [] <==> records == []
  {
    hide Marshalled;
    if records != [] {
      HeaderReadsBack(records[0], []);
      assert Marshalled(records[0]) + [] == Marshalled(records[0]);
    }
  }

  /** Records marshalled into a buffer are the records that come out of it, and `left` bytes, none, stay. */
  method RoundTrip(records: seq<Record>) returns (got: seq<Record>, left: nat)
    requires AllRecordsOk(records) && TotalLength(records) <= CHAIN_MAX - CHAIN_SIZE
    ensures got == records && left == 0
  {
    hide Spell, Packed, AllOk, Stream;
    var evbuf := new Evbuffer();
    MarshalAll(evbuf, records);
    assert [] + Stream(records) == Stream(records);
    got := UnmarshalAll(evbuf, records);
    left := evbuf.totalLen;
  }

  /** Takes the integer of a record with the tag asked for: the length of its code, or -1. */
  method UnmarshalInt(evbuf: Evbuffer, needTag: nat, maxNibbles: nat) returns (r: int, integer: nat)
    requires Ready(evbuf) && maxNibbles <= NIBBLES64
    modifies evbuf`chains, evbuf`last, evbuf`lwd, evbuf`totalLen
    ensures Ready(evbuf)
    ensures var s := old(evbuf.Contents());
            if DecodeTag(s).Some? && DecodeTag(s).value.number != needTag then
              r == -1 && evbuf.Contents() == s[DecodeTag(s).value.length..]
            else if HeaderOf(s).None? || |AfterHeader(s)| < HeaderOf(s).value.length then
              r == -1 && evbuf.Contents() == AfterHeader(s)
            else
              var d := DecodeInt(AfterHeader(s), maxNibbles);
              && evbuf.Contents() == AfterHeader(s)[HeaderOf(s).value.length..]
              && (if d.None? || d.value.length > HeaderOf(s).value.length then r == -1
                  else r == d.value.length && integer == d.value.number)
  {
    hide Spell, Packed, AllOk, DecodeTag, DecodeInt;
    var tag, n, done;
    integer := 0;
    r, tag := DecodeTagInternal(evbuf, true);
    if r == -1 || needTag != tag {
      return -1, integer;
    }
    done, n := DecodeIntDrain(evbuf, NIBBLES32);
    if done == -1 || evbuf.totalLen < n {
      return -1, integer;
    }
    r, integer := TakeInt(evbuf, n, maxNibbles);
  }

  /** Takes the integer that a payload of `n` bytes is, and drops the payload. */
  method TakeInt(evbuf: Evbuffer, n: nat, maxNibbles: nat) returns (r: int, integer: nat)
    requires Ready(evbuf) && maxNibbles <= NIBBLES64 && n <= evbuf.totalLen
    modifies evbuf`chains, evbuf`last, evbuf`lwd, evbuf`totalLen
    ensures Ready(evbuf) && n <= |old(evbuf.Contents())| && evbuf.Contents() == old(evbuf.Contents())[n..]
    ensures var d := DecodeInt(old(evbuf.Contents()), maxNibbles);
            if d.None? || d.value.length > n then r == -1 else r == d.value.length && integer == d.value.number
  {
    hide Spell, Packed, AllOk, DecodeInt, Value;
    ghost var s := evbuf.Contents();
    assert s[0..] == s;
    r, integer := DecodeIntInternal(evbuf, 0, maxNibbles);
    if n == 0 {
      assert s[n..] == s;
    }
    var ok := evbuf.Drain(n);
    if r < 0 || r > n {
      return -1, integer;
    }
  }

  /** An integer marshalled with some tag is taken out again by whoever asks for that tag. */
  lemma IntRecordReadsBack(tag: nat, integer: nat, rest: seq<byte>, maxNibbles: nat)
    requires tag < UINT32 && NibbleCount(integer) <= maxNibbles <= NIBBLES64
    ensures RecordOk(Record(tag, IntBytes(integer)))
    ensures var s := Marshalled(Record(tag, IntBytes(integer))) + rest;
            && HeaderOf(s).Some? && HeaderOf(s).value.tag == tag == DecodeTag(s).value.number
            && AfterHeader(s) == IntBytes(integer) + rest
            && DecodeInt(AfterHeader(s), maxNibbles) == Some(Decoded(integer, HeaderOf(s).value.length))
  {
    hide Marshalled, IntBytes, DecodeInt, DecodeTag, NibbleCount;
    var r := Record(tag, IntBytes(integer));
    var s := Marshalled(r) + rest;
    HeaderReadsBack(r, rest);
    AfterHeaderIs(s);
    IntReadsBack(integer, rest, maxNibbles);
  }
}
