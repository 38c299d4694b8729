/** Queries: what the resolver sends is what the server understands. */
module DnsQueries {
  import opened Bytes
  import opened DnsMessages
  import opened DnsNames

  type u16 = x: int | 0 <= x < 0x1_0000

  function Big16(x: u16): (b: seq<byte>)
    ensures |b| == 2
  {
    [(x / 256) as byte, (x % 256) as byte]
  }

  function U16At(p: seq<byte>, j: nat): u16
    requires j + 2 <= |p|
  {
    p[j] as int * 256 + p[j + 1] as int
  }

  /** Reading a word at its place in a message gives the word back. */
  lemma WordReadsBack(before: seq<byte>, x: u16, after: seq<byte>)
    ensures var p := before + Big16(x) + after;
            U16At(p, |before|) == x
  {
    var p := before + Big16(x) + after;
    assert p[|before|] == Big16(x)[0] && p[|before| + 1] == Big16(x)[1];
  }

  // Building

  /** The twelve bytes before the question of a query. */
  function Header(id: u16): (h: seq<byte>)
    ensures |h| == 12
  {
    Big16(id) + Big16(0x0100) + Big16(1) + Big16(0) + Big16(0) + Big16(0)
  }

  datatype Built = Built(packet: seq<byte>) | NotBuilt(code: int)

  ghost function Build(name: seq<byte>, id: u16, qtype: u16, qclass: u16, bufLen: nat): Built {
    if bufLen < 12 then NotBuilt(-1)
    else
      match WriteName(Header(id), name, None, bufLen)
      case Failed(code, _) => NotBuilt(code)
      case Done(m, _) => if |m| + 4 > bufLen then NotBuilt(-1) else Built(m + Big16(qtype) + Big16(qclass))
  }

  /** Appends a word at `j`, if it fits. */
  method Append16(buf: array<byte>, bufLen: nat, j: nat, x: u16) returns (ok: bool, next: nat)
    requires bufLen <= buf.Length && j <= buf.Length
    modifies buf
    ensures ok <==> j + 2 <= bufLen
    ensures if ok then next == j + 2 && buf[..next] == old(buf[..j]) + Big16(x) else next == j
    ensures forall i :: 0 <= i < j || bufLen <= i < buf.Length ==> buf[i] == old(buf[i])
  {
    if j + 2 > bufLen {
      return false, j;
    }
    CopyTo(buf, j, Big16(x));
    return true, j + 2;
  }

  /** Appends words one after another; it stops at the first that does not fit. */
  method AppendWords(buf: array<byte>, bufLen: nat, start: nat, words: seq<u16>) returns (ok: bool, j: nat)
    requires bufLen <= buf.Length && start <= buf.Length
    modifies buf
    ensures ok <==> |words| == 0 || start + 2 * |words| <= bufLen
    ensures ok ==> j == start + 2 * |words| && buf[..j] == old(buf[..start]) + Words(words)
    ensures forall i :: 0 <= i < start || bufLen <= i < buf.Length ==> buf[i] == old(buf[i])
  {
    hide Words;
    WordsNone();
    ok, j := true, start;
    for k := 0 to |words|
      invariant ok && j == start + 2 * k && j <= buf.Length && (k > 0 ==> j <= bufLen)
      invariant buf[..j] == old(buf[..start]) + Words(words[..k])
      invariant forall i :: 0 <= i < start || bufLen <= i < buf.Length ==> buf[i] == old(buf[i])
    {
      ok, j := Append16(buf, bufLen, j, words[k]);
      if !ok {
        return;
      }
      WordsSnoc(words, k);
      AppendPieces(old(buf[..start]), Words(words[..k]), Big16(words[k]));
    }
    assert words[..|words|] == words;
  }

  ghost function Words(words: seq<u16>): seq<byte> {
    if |words| == 0 then [] else Words(words[..|words| - 1]) + Big16(words[|words| - 1])
  }

  lemma WordsNone()
    ensures Words([]) == []
  {
  }

  lemma WordsSnoc(words: seq<u16>, k: nat)
    requires k < |words|
    ensures Words(words[..k + 1]) == Words(words[..k]) + Big16(words[k])
  {
    assert words[..k + 1][..k] == words[..k];
  }

  lemma HeaderWords(id: u16)
    ensures [] + Words([id, 0x0100, 1, 0, 0, 0]) == Header(id)
  {
    var w := [id, 0x0100, 1, 0, 0, 0];
    WordsNone();
    assert w[..0] == [] && w[..6] == w;
    WordsSnoc(w, 0);
    WordsSnoc(w, 1);
    WordsSnoc(w, 2);
    WordsSnoc(w, 3);
    WordsSnoc(w, 4);
    WordsSnoc(w, 5);
  }

  /** Builds a query in `buf`: its length, or an error. */
  method RequestDataBuild(name: seq<byte>, id: u16, qtype: u16, qclass: u16, buf: array<byte>,
      bufLen: nat) returns (r: int)
    requires bufLen <= buf.Length && NoZero(name)
    requires bufLen == buf.Length ==> !Overruns(12, name, None, bufLen)
    modifies buf
    ensures match Build(name, id, qtype, qclass, bufLen)
            case NotBuilt(code) => r == code
            case Built(packet) => r == |packet| <= bufLen && buf[..r] == packet
    ensures forall i :: bufLen < i < buf.Length ==> buf[i] == old(buf[i])
  {
    hide NoZero, Header, Words, Write, Spills;
    HeaderWords(id);
    var ok, j := AppendWords(buf, bufLen, 0, [id, 0x0100, 1, 0, 0, 0]);
    if !ok {
      return -1;
    }
    assert buf[..12] == Header(id);
    r := NameToLabels(buf, bufLen, j, name, null);
    if r < 0 {
      return r;
    }
    ok, j := AppendWords(buf, bufLen, r, [qtype, qclass]);
    if !ok {
      return -1;
    }
    TwoWords(qtype, qclass);
    return j;
  }

  lemma TwoWords(x: u16, y: u16)
    ensures Words([x, y]) == Big16(x) + Big16(y)
  {
    WordsNone();
    assert [x, y][..0] == [] && [x, y][..2] == [x, y];
    WordsSnoc([x, y], 0);
    WordsSnoc([x, y], 1);
  }

  /** The size that is asked for before building. */
  function RequestLen(nameLen: nat): nat {
    96 + nameLen + 2 + 4
  }

  /** In a buffer of that size building fails just for names that are too long or have a long label, and
      no name overruns it. */
  lemma BuildFits(name: seq<byte>, id: u16, qtype: u16, qclass: u16, bufLen: nat)
    requires RequestLen(|name|) <= bufLen
    ensures Build(name, id, qtype, qclass, bufLen).Built? <==> |name| <= MAX_NAME && LabelsFit(name)
    ensures !Overruns(12, name, None, bufLen)
  {
    WriteFits(Header(id), name, bufLen);
  }

  // Parsing

  datatype Question = Question(name: seq<byte>, qtype: u16, qclass: u16)

  datatype Request = Request(id: u16, flags: nat, questions: seq<Question>)

  /** The bytes before the first zero. */
  function CString(s: seq<byte>): seq<byte> {
    if |s| == 0 || s[0] == 0 then [] else [s[0]] + CString(s[1..])
  }

  lemma {:induction false} CStringIs(s: seq<byte>)
    ensures var r := CString(s);
            r <= s && NoZero(r) && (|r| < |s| ==> s[|r|] == 0)
  {
    if |s| > 0 && s[0] != 0 {
      CStringIs(s[1..]);
      assert s == [s[0]] + s[1..];
    }
  }

  lemma {:induction false} CStringWhole(s: seq<byte>, more: seq<byte>)
    requires NoZero(s)
    ensures CString(s + [0] + more) == s == CString(s)
  {
    if |s| > 0 {
      CStringWhole(s[1..], more);
      assert (s + [0] + more)[1..] == s[1..] + [0] + more;
    }
  }

  lemma {:induction false} CStringUpTo(s: seq<byte>, buf: seq<byte>)
    requires s + [0] <= buf
    ensures CString(buf) == CString(s)
  {
    if |s| > 0 {
      assert buf[0] == (s + [0])[0] && s[1..] + [0] == (s + [0])[1..];
      CStringUpTo(s[1..], buf[1..]);
    } else {
      assert buf[0] == (s + [0])[0];
    }
  }

  /** Of the flags of a request two are kept: bits 8 and 4. */
  function KeptFlags(flags: u16): nat {
    (if flags / 256 % 2 == 1 then 0x100 else 0) + if flags / 16 % 2 == 1 then 0x10 else 0
  }

  /** The kind of query is in bits 11 to 14; 0 is a standard one. */
  function Opcode(flags: nat): nat {
    flags / 2048 % 16
  }

  ghost function ParseQuestions(p: seq<byte>, j: nat, n: nat): Option<seq<Question>>
    decreases n
  {
    if n == 0 then Some([])
    else
      match Parse(p, j, 0, [], TEXT_ROOM)
      case None => None
      case Some(r) =>
        if r.end + 4 > |p| then None
        else
          match ParseQuestions(p, r.end + 4, n - 1)
          case None => None
          case Some(rest) => Some([Question(CString(r.text), U16At(p, r.end), U16At(p, r.end + 2))] + rest)
  }

  /** What becomes of a packet: it is dropped, answered with an error, or handed to the callback. */
  datatype Outcome = Dropped | NotImplemented(request: Request) | Asked(request: Request)

  /** What a packet comes to when the kind of query is taken from `tested`. Without questions there is
      nothing to allocate, which counts as a failure. */
  ghost function ParseTesting(p: seq<byte>, tested: nat): Outcome {
    if |p| < 12 || U16At(p, 2) >= 0x8000 || U16At(p, 4) == 0 then Dropped
    else
      match ParseQuestions(p, 12, U16At(p, 4))
      case None => Dropped
      case Some(questions) =>
        var r := Request(U16At(p, 0), KeptFlags(U16At(p, 2)), questions);
        if Opcode(tested) != 0 then NotImplemented(r) else Asked(r)
  }

  /** The kind is taken from the flags that were kept. */
  ghost function ParseRequest(p: seq<byte>): Outcome {
    if |p| < 12 then Dropped else ParseTesting(p, KeptFlags(U16At(p, 2)))
  }

  /** Only standard queries are to reach the callback: the kind is taken from the flags that came. */
  ghost function ParseStandard(p: seq<byte>): Outcome {
    if |p| < 12 then Dropped else ParseTesting(p, U16At(p, 2))
  }

  /** A packet that is too short, an answer, without questions, or with one that cannot be read. */
  ghost predicate Unreadable(p: seq<byte>) {
    || |p| < 12 || p[2] >= 0x80 || (p[4] == 0 && p[5] == 0)
    || ParseQuestions(p, 12, U16At(p, 4)).None?
  }

  /**
   * The error answer is never given. A packet is treated as it should be if and only if it is a
   * standard query, or cannot be read.
   */
  lemma OpcodeNeverSeen(p: seq<byte>)
    ensures !ParseRequest(p).NotImplemented? && (ParseRequest(p).Dropped? <==> Unreadable(p))
    ensures ParseRequest(p) == ParseStandard(p) <==> Unreadable(p) || p[2] / 8 % 16 == 0
  {
    hide ParseQuestions;
    if |p| >= 12 {
      OpcodeByte(p[2], p[3]);
      assert Opcode(KeptFlags(U16At(p, 2))) == 0;
    }
  }

  /** The kind of query is in the third byte of a packet. */
  lemma OpcodeByte(high: byte, low: byte)
    ensures Opcode(high as int * 256 + low as int) == high as int / 8 % 16
  {
    assert (high as int * 256 + low as int) / 2048 == high as int / 8;
  }

  /** What is kept of a header: the id, the lowest bit of the third byte, bit 4 of the fourth, and as many
      questions as it says. */
  lemma HeaderKept(p: seq<byte>)
    ensures var r := ParseRequest(p);
            r.Asked? ==>
              && |p| >= 12 && r.request.id == p[0] as int * 256 + p[1] as int
              && r.request.flags == p[2] as int % 2 * 0x100 + p[3] as int / 16 % 2 * 0x10
              && |r.request.questions| == p[4] as int * 256 + p[5] as int
  {
    hide ParseQuestions;
    if |p| >= 12 && ParseQuestions(p, 12, U16At(p, 4)).Some? {
      FlagBytes(p[2], p[3]);
      AllQuestions(p, 12, U16At(p, 4));
    }
  }

  lemma FlagBytes(high: byte, low: byte)
    ensures var flags := high as int * 256 + low as int;
            flags / 256 == high as int && flags / 16 % 2 == low as int / 16 % 2
  {
    var flags := high as int * 256 + low as int;
    assert flags / 16 == high as int * 16 + low as int / 16;
  }

  lemma {:induction false} AllQuestions(p: seq<byte>, j: nat, n: nat)
    requires ParseQuestions(p, j, n).Some?
    ensures |ParseQuestions(p, j, n).value| == n
    decreases n
  {
    if n > 0 {
      AllQuestions(p, Parse(p, j, 0, [], TEXT_ROOM).value.end + 4, n - 1);
    }
  }

  /** The query for the address of `a`, type 28, with id 0x0102. */
  lemma QueryBytes()
    ensures Build(['a' as byte], 0x0102, 28, 1, 103)
            == Built([1, 2, 1, 0, 0, 1, 0, 0, 0, 0, 0, 0, 1, 'a' as byte, 0, 0, 28, 0, 1])
  {
    hide Write, DotAt;
    var a := ['a' as byte];
    assert DotAt(a) == 1 && a[..1] == a by { assert a[1..] == []; }
    var h := [1, 2, 1, 0, 0, 1, 0, 0, 0, 0, 0, 0];
    assert Header(0x0102) == h;
    WriteStep(h, a, None, 103);
    assert Terminate(h + [1] + a) == h + [1, 'a' as byte, 0];
    assert h + [1, 'a' as byte, 0] + Big16(28) + Big16(1) == h + [1, 'a' as byte, 0, 0, 28, 0, 1];
    assert h + [1, 'a' as byte, 0, 0, 28, 0, 1] == [1, 2, 1, 0, 0, 1, 0, 0, 0, 0, 0, 0, 1, 'a' as byte, 0, 0, 28, 0, 1];
  }

  /** Bits 8 and 4 of the flags stay, and bit 5 does not: two questions for the root, of types 1 and 28. */
  lemma TwoFlagsKept()
    ensures var p := [0, 7, 1, 0x30, 0, 2, 0, 0, 0, 0, 0, 0, 0, 0, 1, 0, 1, 0, 0, 28, 0, 3];
            ParseRequest(p) == Asked(Request(7, 0x0110, [Question([], 1, 1), Question([], 28, 3)]))
  {
    hide ParseQuestions;
    var p := [0, 7, 1, 0x30, 0, 2, 0, 0, 0, 0, 0, 0, 0, 0, 1, 0, 1, 0, 0, 28, 0, 3];
    assert Parse(p, 12, 0, [], TEXT_ROOM) == Some(Parsed([], 13));
    assert Parse(p, 17, 0, [], TEXT_ROOM) == Some(Parsed([], 18));
    QuestionStep([], p, 12, 2);
    QuestionStep([Question([], 1, 1)], p, 17, 1);
    QuestionsNone([Question([], 1, 1), Question([], 28, 3)], p, 22);
    assert [] + [Question([], 1, 1)] == [Question([], 1, 1)];
    assert [Question([], 1, 1)] + [Question([], 28, 3)] == [Question([], 1, 1), Question([], 28, 3)];
    OnlyQuestion(ParseQuestions(p, 12, 2));
  }

  /** A packet with opcode 1 and a question for the root reaches the callback. */
  lemma OtherKindAsked()
    ensures var p := [0, 7, 8, 0, 0, 1, 0, 0, 0, 0, 0, 0, 0, 0, 1, 0, 1];
            Opcode(U16At(p, 2)) == 1 && ParseRequest(p) == Asked(Request(7, 0, [Question([], 1, 1)]))
  {
    var p := [0, 7, 8, 0, 0, 1, 0, 0, 0, 0, 0, 0, 0, 0, 1, 0, 1];
    assert Parse(p, 12, 0, [], TEXT_ROOM) == Some(Parsed([], 13));
    assert ParseQuestions(p, 17, 0) == Some([]);
    assert ParseQuestions(p, 12, 1) == Some([Question([], 1, 1)] + []);
    OpcodeNeverSeen(p);
  }

  /** Reads the next word, if there is one. */
  method Get16(packet: array<byte>, length: nat, j: nat) returns (ok: bool, x: u16, next: nat)
    requires length <= packet.Length
    ensures ok <==> j + 2 <= length
    ensures ok ==> next == j + 2 && x == U16At(packet[..length], j)
  {
    if j + 2 > length {
      return false, 0, j;
    }
    return true, packet[j] as int * 256 + packet[j + 1] as int, j + 2;
  }

  /** The length of the text up to its zero. */
  method StrLen(s: array<byte>, ghost text: seq<byte>) returns (n: nat)
    requires text + [0] <= s[..]
    ensures n <= |text| && s[..n] == CString(text)
  {
    CStringUpTo(text, s[..]);
    assert s[..][|text|] == (text + [0])[|text|];
    n := 0;
    while s[n] != 0
      invariant n <= |text| && CString(s[..]) == s[..n] + CString(s[n..])
      decreases |text| - n
    {
      assert s[n..][1..] == s[n + 1..];
      assert s[..n + 1] == s[..n] + [s[n]];
      n := n + 1;
    }
  }

  /** Reads a request: it is dropped if it is malformed, or is an answer. */
  method RequestParse(packet: array<byte>, length: nat) returns (r: Outcome)
    requires length <= packet.Length
    ensures r == ParseRequest(packet[..length])
  {
    ghost var p := packet[..length];
    hide Parse, ParseQuestions, KeptFlags;
    var ok, j, id, flags, questions, word;
    ok, id, j := Get16(packet, length, 0);
    if !ok {
      return Dropped;
    }
    ok, flags, j := Get16(packet, length, j);
    if !ok {
      return Dropped;
    }
    ok, questions, j := Get16(packet, length, j);
    if !ok {
      return Dropped;
    }
    ok, word, j := Get16(packet, length, j);
    if !ok {
      return Dropped;
    }
    ok, word, j := Get16(packet, length, j);
    if !ok {
      return Dropped;
    }
    ok, word, j := Get16(packet, length, j);
    if !ok {
      return Dropped;
    }
    if flags >= 0x8000 || questions == 0 {
      return Dropped;
    }
    var kept := KeptFlags(flags);
    var parsed := ReadQuestions(packet, length, j, questions);
    match parsed
    case None => return Dropped;
    case Some(qs) =>
      r := if Opcode(kept) != 0 then NotImplemented(Request(id, kept, qs)) else Asked(Request(id, kept, qs));
  }

  ghost function Before(first: seq<Question>, rest: Option<seq<Question>>): Option<seq<Question>> {
    if rest.None? then None else Some(first + rest.value)
  }

  method ReadQuestions(packet: array<byte>, length: nat, start: nat, n: nat) returns (r: Option<seq<Question>>)
    requires length <= packet.Length
    ensures r == ParseQuestions(packet[..length], start, n)
  {
    hide Parse, ParseQuestions, CString;
    ghost var p := packet[..length];
    var j: nat, qs := start, [];
    var tmpName := new byte[TEXT_ROOM];
    assert ParseQuestions(p, j, n).Some? ==> [] + ParseQuestions(p, j, n).value == ParseQuestions(p, j, n).value;
    for i := 0 to n
      invariant p == packet[..length]
      invariant ParseQuestions(p, start, n) == Before(qs, ParseQuestions(p, j, n - i))
    {
      QuestionStep(qs, p, j, n - i);
      ghost var name := Parse(p, j, 0, [], TEXT_ROOM);
      var bad, ok, qtype, qclass;
      bad, j := NameParse(packet, length, j, tmpName);
      if bad < 0 {
        return None;
      }
      ok, qtype, j := Get16(packet, length, j);
      if !ok {
        return None;
      }
      ok, qclass, j := Get16(packet, length, j);
      if !ok {
        return None;
      }
      var nameLen := StrLen(tmpName, name.value.text);
      qs := qs + [Question(tmpName[..nameLen], qtype, qclass)];
    }
    QuestionsNone(qs, p, j);
    return Some(qs);
  }

  /** One turn of the loop over the questions. */
  lemma QuestionStep(qs: seq<Question>, p: seq<byte>, j: nat, n: nat)
    requires n > 0
    ensures var name := Parse(p, j, 0, [], TEXT_ROOM);
            Before(qs, ParseQuestions(p, j, n)) ==
            if name.None? || name.value.end + 4 > |p| then None
            else
              var end := name.value.end;
              Before(qs + [Question(CString(name.value.text), U16At(p, end), U16At(p, end + 2))],
                     ParseQuestions(p, end + 4, n - 1))
  {
    hide Parse, CString;
    var name := Parse(p, j, 0, [], TEXT_ROOM);
    if name.Some? && name.value.end + 4 <= |p| && ParseQuestions(p, name.value.end + 4, n - 1).Some? {
      var q := Question(CString(name.value.text), U16At(p, name.value.end), U16At(p, name.value.end + 2));
      var rest := ParseQuestions(p, name.value.end + 4, n - 1).value;
      assert qs + ([q] + rest) == qs + [q] + rest;
    }
  }

  lemma QuestionsNone(qs: seq<Question>, p: seq<byte>, j: nat)
    ensures Before(qs, ParseQuestions(p, j, 0)) == Some(qs)
  {
    assert qs + [] == qs;
  }

  /** What is built for a well-formed name is understood: same id, recursion desired, and the one question. */
  lemma QueryUnderstood(name: seq<byte>, id: u16, qtype: u16, qclass: u16, bufLen: nat)
    requires NoZero(name) && WellFormed(name) && Build(name, id, qtype, qclass, bufLen).Built?
    ensures ParseRequest(Build(name, id, qtype, qclass, bufLen).packet)
            == Asked(Request(id, 0x0100, [Question(Stripped(name), qtype, qclass)]))
  {
    hide Parse, Write, CString, ParseQuestions, Spells, End, Big16;
    var m := Write(Header(id), name, None, bufLen).message;
    var p := m + Big16(qtype) + Big16(qclass);
    WriteSpells(Header(id), name, None, bufLen, 12);
    assert m <= p;
    ClosesWhen(None, name);
    SpelledReadsAs(m, p, 12, name, |m|);
    HeaderReadsBack(id, m, p);
    WordReadsBack(m, qtype, Big16(qclass));
    WordReadsBack(m + Big16(qtype), qclass, []);
    assert m + Big16(qtype) + Big16(qclass) + [] == p;
    CStringWhole(Stripped(name), []);
    QuestionStep([], p, 12, 1);
    QuestionsNone([Question(Stripped(name), qtype, qclass)], p, |m| + 4);
    assert [] + [Question(Stripped(name), qtype, qclass)] == [Question(Stripped(name), qtype, qclass)];
    OnlyQuestion(ParseQuestions(p, 12, 1));
  }

  lemma OnlyQuestion(q: Option<seq<Question>>)
    ensures Before([], q) == q
  {
    assert q.Some? ==> [] + q.value == q.value;
  }

  lemma HeaderReadsBack(id: u16, m: seq<byte>, p: seq<byte>)
    requires Header(id) <= m <= p
    ensures U16At(p, 0) == id && U16At(p, 2) == 0x0100 && U16At(p, 4) == 1 && KeptFlags(0x0100) == 0x0100
  {
    var h := Header(id);
    assert p[0] == h[0] && p[1] == h[1] && p[2] == h[2] && p[3] == h[3] && p[4] == h[4] && p[5] == h[5];
  }
}
