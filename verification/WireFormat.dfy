/** What goes over the wire, byte by byte and in numbers (RFC 1035 section 4.1; internal/dnsmessage/message.go). */
module WireFormat {
  import opened Wire
  import opened Names
  import opened Compression
  import opened Records
  import opened Messages
  import opened PackFaults
  import opened StaleTable

  // ---------- Numbers and headers ----------

  /** Numbers are big-endian. */
  lemma BigEndian(m: bytes, off: nat)
    ensures off + 2 <= |m| ==> GetU16(m, off) == m[off] as int * 256 + m[off + 1] && U16(GetU16(m, off)) == [m[off], m[off + 1]]
    ensures off + 4 <= |m| ==>
      GetU32(m, off) == ((m[off] as int * 256 + m[off + 1]) * 256 + m[off + 2]) * 256 + m[off + 3]
  {
  }

  lemma HeaderOnWire(h: WireHeader)
    ensures EncodeHeader(h) ==
      [h.id / 256, h.id % 256, h.bits / 256, h.bits % 256, h.questions / 256, h.questions % 256, h.answers / 256, h.answers % 256,
       h.authorities / 256, h.authorities % 256, h.additionals / 256, h.additionals % 256]
  {
  }

  /** The flags, from the highest bit to the lowest, around the two codes. */
  lemma FlagsOnWire(h: Header)
    requires h.opCode <= 15 && h.rCode <= 15
    ensures var bits := HeaderNumber(h) as bv16;
      && (h.response <==> bits & 0x8000 != 0) && (bits >> 11) & 15 == h.opCode && (h.authoritative <==> bits & 0x0400 != 0)
      && (h.truncated <==> bits & 0x0200 != 0) && (h.recursionDesired <==> bits & 0x0100 != 0)
      && (h.recursionAvailable <==> bits & 0x0080 != 0) && bits & 0x0040 == 0 && (h.authenticData <==> bits & 0x0020 != 0)
      && (h.checkingDisabled <==> bits & 0x0010 != 0) && bits & 15 == h.rCode
  {
    BitsAsNumber(HeaderBits(h));
    FlagsInBits(h);
  }

  lemma FlagsInBits(h: Header)
    requires h.opCode <= 15 && h.rCode <= 15
    ensures var bits := HeaderBits(h);
      && (h.response <==> bits & 0x8000 != 0) && (bits >> 11) & 15 == h.opCode && (h.authoritative <==> bits & 0x0400 != 0)
      && (h.truncated <==> bits & 0x0200 != 0) && (h.recursionDesired <==> bits & 0x0100 != 0)
      && (h.recursionAvailable <==> bits & 0x0080 != 0) && bits & 0x0040 == 0 && (h.authenticData <==> bits & 0x0020 != 0)
      && (h.checkingDisabled <==> bits & 0x0010 != 0) && bits & 15 == h.rCode
  {
  }

  // ---------- Names ----------

  /** A length byte in front of every segment, its characters behind, and a zero at the end: the text moved by one, with
      lengths where the dots were. */
  ghost predicate SpelledAs(s: bytes, w: bytes) {
    && |w| == |s| + 1 && w[|s|] == 0
    && (forall i {:trigger s[i]} :: 0 <= i < |s| && s[i] != 46 ==> w[i + 1] == s[i])
    && forall i: nat {:trigger SegmentStart(s, i)} :: SegmentStart(s, i) ==> DotAfter(s, i, w[i] as int)
  }

  /** The segment that starts at `i` has `n` characters. */
  ghost predicate DotAfter(s: bytes, i: nat, n: nat) {
    i + n < |s| && s[i + n] == 46 && forall k {:trigger s[k]} :: i <= k < i + n ==> s[k] != 46
  }

  lemma SpelledOneMore(s: bytes, rest: bytes)
    requires s != [] && Canonical(s) && FirstDot(s) < SEGMENT_LIMIT && SpelledAs(Tail(s), rest)
    ensures SpelledAs(s, Segment(s) + rest)
  {
    NoDotBefore(s, 0);
    SpelledBehind(s, Tail(s), rest, FirstDot(s), Segment(s) + rest);
  }

  lemma SpelledBehind(s: bytes, tail: bytes, rest: bytes, j: nat, w: bytes)
    requires j < |s| && s[j] == 46 && (forall k :: 0 <= k < j ==> s[k] != 46)
    requires j < 64 && w == [j] + s[..j] + rest && tail == s[j + 1..] && SpelledAs(tail, rest)
    ensures SpelledAs(s, w)
  {
    forall i | 0 <= i < |s| && s[i] != 46 ensures w[i + 1] == s[i] {
      if i > j {
        assert tail[i - j - 1] == s[i];
      }
    }
    forall i: nat | SegmentStart(s, i) ensures DotAfter(s, i, w[i] as int) {
      if i > j {
        LaterStart(s, tail, j, i);
        LaterSegment(s, j, i, w[i]);
      } else {
        assert i == 0;
      }
    }
  }

  lemma LaterStart(s: bytes, tail: bytes, j: nat, i: nat)
    requires j < i < |s| && tail == s[j + 1..] && SegmentStart(s, i)
    ensures SegmentStart(tail, i - j - 1)
  {
    if i > j + 1 {
      assert tail[i - j - 2] == s[i - 1];
    }
  }

  lemma LaterSegment(s: bytes, j: nat, i: nat, n: nat)
    requires j < i && j + 1 <= |s| && DotAfter(s[j + 1..], i - j - 1, n)
    ensures DotAfter(s, i, n)
  {
    var tail := s[j + 1..];
    assert tail[i - j - 1 + n] == s[i + n];
    forall k | i <= k < i + n ensures s[k] != 46 {
      assert tail[k - j - 1] == s[k];
    }
  }

  lemma {:induction false} SuffixOnWire(s: bytes, pos: nat, w: bytes)
    requires Canonical(s) && EncodeSuffix(s, pos, None).out == Ok(w)
    ensures SpelledAs(s, w)
    decreases |s|
  {
    if s != [] {
      var at := pos + |Segment(s)|;
      var rest := EncodeSuffix(Tail(s), at, None).out.value;
      SuffixOnWire(Tail(s), at, rest);
      SpelledOneMore(s, rest);
    }
  }

  /** A name without compression. */
  lemma PlainNameOnWire(n: bytes, pos: nat, w: bytes)
    requires EncodePlainName(n, pos) == Ok(w)
    ensures if n == [46] then w == [0] else SpelledAs(n, w)
  {
    if n != [46] {
      SuffixOnWire(n, pos, w);
    }
  }

  // ---------- Compression ----------

  /** A known name is a pointer: its two top bits set, and where the name stands. */
  lemma KnownNameOnWire(n: bytes, pos: nat, t: Table)
    requires NameFault(n).None? && n != [46] && t.Some? && n in t.value
    ensures EncodeName(n, pos, t) == Encoded(Ok([192 + t.value[n] / 256, t.value[n] % 256]), t)
  {
    FaultOf(n);
  }

  /** A name that is written for the first time, below 16384, is known from then on, at its place; */
  lemma NewNameKnown(n: bytes, pos: nat, t: Table)
    requires EncodeName(n, pos, t).out.Ok? && n != [46] && t.Some? && n !in t.value && pos < 16384
    ensures var t' := EncodeName(n, pos, t).table; t'.Some? && n in t'.value && t'.value[n] == pos
  {
    NameRegistered(n, pos, t);
  }

  /** and so writing it again takes two bytes. */
  lemma RepeatedName(n: bytes, pos: nat, t: Table, later: nat)
    requires EncodeName(n, pos, t).out.Ok? && n != [46] && NameFault(n).None? && t.Some? && n !in t.value && pos < 16384
    ensures EncodeName(n, later, EncodeName(n, pos, t).table).out == Ok([192 + pos / 256, pos % 256])
  {
    NewNameKnown(n, pos, t);
    KnownNameOnWire(n, later, EncodeName(n, pos, t).table);
  }

  /** From 16384 on nothing is remembered. */
  lemma {:induction false} FarSuffixForgotten(s: bytes, pos: nat, t: Table)
    requires Canonical(s) && pos >= 16384
    ensures EncodeSuffix(s, pos, t).table == t
    decreases |s|
  {
    if s != [] && s[0] != DOT && (t.None? || s !in t.value) && FirstDot(s) < SEGMENT_LIMIT {
      FarSuffixForgotten(Tail(s), pos + |Segment(s)|, t);
    }
  }

  /** A name whose rest is known is its first segment and a pointer. */
  lemma SharedTail(segment: bytes, rest: bytes, pos: nat, t: Table)
    requires 1 <= |segment| <= 63 && (forall k :: 0 <= k < |segment| ==> segment[k] != 46)
    requires t.Some? && rest in t.value && SuffixFits(rest)
    requires segment + [46] + rest !in t.value && |segment + [46] + rest| <= 254
    ensures EncodeName(segment + [46] + rest, pos, t).out
         == Ok([|segment|] + segment + [192 + t.value[rest] / 256, t.value[rest] % 256])
  {
    var n := segment + [46] + rest;
    FirstSegment(segment, rest);
    FaultOf(rest);
    var t1, at := Register(t, n, pos), pos + |Segment(n)|;
    assert rest in t1.value && t1.value[rest] == t.value[rest];
    assert EncodeSuffix(rest, at, t1) == Encoded(Ok(PointerBytes(t.value[rest])), t1);
  }

  lemma DotNotInside(segment: bytes, rest: bytes, j: nat)
    requires j <= |segment| && (segment + [46] + rest)[j] == 46 && forall k :: 0 <= k < |segment| ==> segment[k] != 46
    ensures j == |segment|
  {
  }

  lemma FirstSegment(segment: bytes, rest: bytes)
    requires 1 <= |segment| <= 63 && (forall k :: 0 <= k < |segment| ==> segment[k] != 46) && rest != [] && Canonical(rest)
    ensures var n := segment + [46] + rest;
      Canonical(n) && n[0] != 46 && FirstDot(n) == |segment| && Tail(n) == rest && Segment(n) == [|segment|] + segment
  {
    var n := segment + [46] + rest;
    assert n[|segment|] == 46 && n[|n| - 1] == rest[|rest| - 1];
    NoDotBefore(n, 0);
    var j := FirstDot(n);
    DotNotInside(segment, rest, j);
    assert n[|segment| + 1..] == rest && n[..|segment|] == segment;
  }

  // ---------- Records ----------

  /** The numbers of the types. */
  lemma TypeNumbers(b: Body)
    requires !b.NilBody?
    ensures RealType(b) ==
      match b
      case A(_) => 1
      case NS(_) => 2
      case CNAME(_) => 5
      case SOA(_, _, _, _, _, _, _) => 6
      case PTR(_) => 12
      case MX(_, _) => 15
      case TXT(_) => 16
      case AAAA(_) => 28
      case SRV(_, _, _, _) => 33
      case OPT(_) => 41
      case SVCB(_, _, _) => 64
      case HTTPS(_, _, _) => 65
      case Unknown(typ, _) => typ
  {
  }

  /** Type, class, TTL and length. */
  lemma FixedOnWire(typ: uint16, cls: uint16, ttl: uint32, length: uint16)
    ensures Fixed(typ, cls, ttl, length) ==
      [typ / 256, typ % 256, cls / 256, cls % 256, ttl / 0x1_0000 / 256, ttl / 0x1_0000 % 256, ttl % 0x1_0000 / 256, ttl % 0x1_0000 % 256,
       length / 256, length % 256]
  {
  }

  /** The name, the ten bytes, the body. */
  lemma RecordOnWire(h: ResourceHeader, typ: uint16, b: Body, pos: nat, t: Table, w: bytes)
    requires EncodeRecord(h, typ, b, pos, t).out == Ok(w)
    ensures var name := EncodeName(h.name, pos, t);
      name.out.Ok? && EncodeBody(b, pos + |name.out.value| + 10, name.table).out.Ok?
      && var body := EncodeBody(b, pos + |name.out.value| + 10, name.table).out.value;
         |body| <= 65535 && w == name.out.value + Fixed(typ, h.cls, h.ttl, |body|) + body
  {
    var name := EncodeName(h.name, pos, t);
    var body := EncodeBody(b, pos + |name.out.value| + 10, name.table);
    JoinedThrice(name.out.value, Fixed(typ, h.cls, h.ttl, |body.out.value|), body.out.value);
  }

  lemma JoinedThrice(x: bytes, y: bytes, z: bytes)
    ensures x + (y + z) == x + y + z
  {
  }

  /** The question's name, type and class. */
  lemma QuestionOnWire(q: Question, pos: nat, t: Table, w: bytes)
    requires EncodeQuestion(q, pos, t).out == Ok(w)
    ensures EncodeName(q.name, pos, t).out.Ok?
    ensures w == EncodeName(q.name, pos, t).out.value + [q.typ / 256, q.typ % 256, q.cls / 256, q.cls % 256]
  {
  }

  /** The bytes of a body, its names as they are written at their places. */
  ghost predicate BodyOnWire(b: Body, pos: nat, t: Table, w: bytes) {
    match b
    case NilBody => false
    case A(a) => w == a
    case AAAA(a) => w == a
    case NS(n) => EncodeName(n, pos, t).out == Ok(w)
    case CNAME(n) => EncodeName(n, pos, t).out == Ok(w)
    case PTR(n) => EncodeName(n, pos, t).out == Ok(w)
    case MX(pref, n) => EncodeName(n, pos + 2, t).out.Ok? && w == [pref / 256, pref % 256] + EncodeName(n, pos + 2, t).out.value
    case SRV(priority, weight, port, n) =>
      EncodePlainName(n, pos + 6).Ok?
      && w == [priority / 256, priority % 256, weight / 256, weight % 256, port / 256, port % 256] + EncodePlainName(n, pos + 6).value
    case SOA(ns, mbox, serial, refresh, retry, expire, minTtl) =>
      var first := EncodeName(ns, pos, t);
      && first.out.Ok?
      && var second := EncodeName(mbox, pos + |first.out.value|, first.table);
         && second.out.Ok?
         && w == first.out.value + second.out.value + U32(serial) + U32(refresh) + U32(retry) + U32(expire) + U32(minTtl)
    case TXT(texts) => TextsOnWire(texts, w)
    case OPT(options) => OptionsOnWire(options, w)
    case SVCB(priority, n, params) => ServiceOnWire(priority, n, params, pos, w)
    case HTTPS(priority, n, params) => ServiceOnWire(priority, n, params, pos, w)
    case Unknown(_, data) => w == data
  }

  /** Every text behind its length. */
  ghost predicate TextsOnWire(texts: seq<bytes>, w: bytes)
    decreases |texts|
  {
    if texts == [] then w == []
    else |w| > |texts[0]| && w[0] == |texts[0]| && w[1..1 + |texts[0]|] == texts[0] && TextsOnWire(texts[1..], w[1 + |texts[0]|..])
  }

  /** Every option's data behind its code and its length, of which the low sixteen bits are kept. */
  ghost predicate OptionsOnWire(options: seq<EdnsOption>, w: bytes)
    decreases |options|
  {
    if options == [] then w == []
    else
      var o := options[0];
      && |w| >= 4 + |o.data| && w[..4] == [o.code / 256, o.code % 256, |o.data| % 0x1_0000 / 256, |o.data| % 0x1_0000 % 256]
      && w[4..4 + |o.data|] == o.data && OptionsOnWire(options[1..], w[4 + |o.data|..])
  }

  ghost predicate ServiceOnWire(priority: uint16, n: bytes, params: seq<Param>, pos: nat, w: bytes) {
    var name := EncodePlainName(n, pos + 2);
    && name.Ok? && |w| >= 2 + |name.value|
    && w[..2 + |name.value|] == [priority / 256, priority % 256] + name.value
    && OptionsOnWire(AsOptions(Sorted(params)), w[2 + |name.value|..])
  }

  lemma {:induction false} WrittenTexts(texts: seq<bytes>, w: bytes)
    requires EncodeTexts(texts) == Ok(w)
    ensures TextsOnWire(texts, w)
    decreases |texts|
  {
    if texts != [] {
      var rest := EncodeTexts(texts[1..]).value;
      WrittenTexts(texts[1..], rest);
      assert w[1 + |texts[0]|..] == rest;
    }
  }

  lemma {:induction false} WrittenOptions(options: seq<EdnsOption>)
    ensures OptionsOnWire(options, EncodeOptions(options))
    decreases |options|
  {
    if options != [] {
      var o, rest, w := options[0], EncodeOptions(options[1..]), EncodeOptions(options);
      WrittenOptions(options[1..]);
      OptionOnWire(o.code, o.data);
      assert w == EncodeOption(o.code, o.data) + rest;
      assert w[4 + |o.data|..] == rest && w[..4] == EncodeOption(o.code, o.data)[..4];
      assert w[4..4 + |o.data|] == EncodeOption(o.code, o.data)[4..];
    }
  }

  lemma OptionOnWire(code: uint16, data: bytes)
    ensures EncodeOption(code, data)[..4] == [code / 256, code % 256, |data| % 0x1_0000 / 256, |data| % 0x1_0000 % 256]
    ensures EncodeOption(code, data)[4..] == data
  {
  }

  lemma WrittenService(priority: uint16, n: bytes, params: seq<Param>, pos: nat, w: bytes)
    requires EncodeService(priority, n, params, pos) == Ok(w)
    ensures ServiceOnWire(priority, n, params, pos, w)
  {
    var name, tail := EncodePlainName(n, pos + 2).value, EncodeOptions(AsOptions(Sorted(params)));
    WrittenOptions(AsOptions(Sorted(params)));
    var at := 2 + |name|;
    assert w[..at] == U16(priority) + name && w[at..] == tail;
  }

  lemma WrittenSoa(b: Body, pos: nat, t: Table, w: bytes)
    requires b.SOA? && EncodeBody(b, pos, t).out == Ok(w)
    ensures BodyOnWire(b, pos, t, w)
  {
    var first := EncodeName(b.soaNs, pos, t);
    var second := EncodeName(b.mbox, pos + |first.out.value|, first.table);
    SevenJoined(first.out.value, second.out.value, U32(b.serial), U32(b.refresh), U32(b.retry), U32(b.expire), U32(b.minTtl));
  }

  lemma SevenJoined(x: bytes, y: bytes, a: bytes, b: bytes, c: bytes, d: bytes, e: bytes)
    ensures x + (y + (a + b + c + d + e)) == x + y + a + b + c + d + e
  {
  }

  /** Every body that is written, byte by byte. */
  lemma WrittenBody(b: Body, pos: nat, t: Table, w: bytes)
    requires EncodeBody(b, pos, t).out == Ok(w)
    ensures BodyOnWire(b, pos, t, w)
  {
    match b {
      case TXT(texts) => WrittenTexts(texts, w);
      case OPT(options) => WrittenOptions(options);
      case SVCB(priority, n, params) => WrittenService(priority, n, params, pos, w);
      case HTTPS(priority, n, params) => WrittenService(priority, n, params, pos, w);
      case SOA(_, _, _, _, _, _, _) => WrittenSoa(b, pos, t, w);
      case _ =>
    }
  }

  // ---------- Reading any bytes ----------

  /** Bodies of a fixed form are read from any bytes that are there, whatever the length field says. */
  lemma FixedBodiesRead(m: bytes, off: nat, length: uint16)
    ensures DecodeBody(m, off, 1, length) == if off + 4 <= |m| then Ok(A([m[off], m[off + 1], m[off + 2], m[off + 3]])) else Err(BaseLen)
    ensures off + 16 <= |m| ==> DecodeBody(m, off, 28, length) == Ok(AAAA(m[off..off + 16]))
    ensures off + 16 > |m| ==> DecodeBody(m, off, 28, length) == Err(BaseLen)
  {
    if off + 4 <= |m| {
      assert Slice(m, off, 4) == [m[off], m[off + 1], m[off + 2], m[off + 3]];
    }
    if off + 16 <= |m| {
      assert Slice(m, off, 16) == m[off..off + 16];
    }
  }

  /** Any type but the twelve known ones is read as so many bytes. */
  lemma OtherBodiesRead(m: bytes, off: nat, typ: uint16, length: uint16)
    requires typ !in {1, 2, 5, 6, 12, 15, 16, 28, 33, 41, 64, 65}
    ensures DecodeBody(m, off, typ, length) == if off + length <= |m| then Ok(Unknown(typ, m[off..off + length])) else Err(BaseLen)
  {
    if off + length <= |m| {
      assert Slice(m, off, length) == m[off..off + length];
    }
  }

  /** Bodies around a name are read from any bytes, with the name's errors. */
  lemma NameBodiesRead(m: bytes, off: nat, length: uint16)
    ensures match DecodeName(m, off)
      case Ok(n) =>
        && DecodeBody(m, off, 2, length) == Ok(NS(n.name)) && DecodeBody(m, off, 5, length) == Ok(CNAME(n.name))
        && DecodeBody(m, off, 12, length) == Ok(PTR(n.name))
      case Err(e) => DecodeBody(m, off, 2, length) == DecodeBody(m, off, 5, length) == DecodeBody(m, off, 12, length) == Err(e)
    ensures off + 2 > |m| ==> DecodeBody(m, off, 15, length) == Err(BaseLen)
    ensures off + 2 <= |m| ==>
      match DecodeName(m, off + 2)
      case Ok(n) => DecodeBody(m, off, 15, length) == Ok(MX(m[off] as int * 256 + m[off + 1], n.name))
      case Err(e) => DecodeBody(m, off, 15, length) == Err(e)
    ensures off + 6 > |m| ==> DecodeBody(m, off, 33, length) == Err(BaseLen)
    ensures off + 6 <= |m| ==>
      match DecodeName(m, off + 6)
      case Ok(n) =>
        DecodeBody(m, off, 33, length)
        == Ok(SRV(m[off] as int * 256 + m[off + 1], m[off + 2] as int * 256 + m[off + 3], m[off + 4] as int * 256 + m[off + 5], n.name))
      case Err(e) => DecodeBody(m, off, 33, length) == Err(e)
  {
  }

  /** Texts that fill `left` bytes. */
  ghost predicate TextsAt(m: bytes, off: nat, left: nat, texts: seq<bytes>)
    decreases |texts|
  {
    if texts == [] then left == 0
    else
      && off + 1 + |texts[0]| <= |m| && m[off] == |texts[0]| && m[off + 1..off + 1 + |texts[0]|] == texts[0]
      && 1 + |texts[0]| <= left && TextsAt(m, off + 1 + |texts[0]|, left - 1 - |texts[0]|, texts[1..])
  }

  /** The texts of any bytes: those that fill the record's length exactly, and no others. */
  lemma {:induction false} TextsExactly(m: bytes, off: nat, left: nat, texts: seq<bytes>)
    ensures DecodeTexts(m, off, left) == Ok(texts) <==> TextsAt(m, off, left, texts)
    decreases left
  {
    if left > 0 && off < |m| && off + 1 + m[off] <= |m| && left >= 1 + m[off] as int {
      var n: nat := m[off];
      var first := Slice(m, off + 1, n);
      assert first == m[off + 1..off + 1 + n];
      if texts != [] {
        TextsExactly(m, off + 1 + n, left - (1 + n), texts[1..]);
        assert texts == [texts[0]] + texts[1..];
      }
      var rest := DecodeTexts(m, off + 1 + n, left - (1 + n));
      if rest.Ok? {
        assert ([first] + rest.value)[1..] == rest.value;
      }
    }
  }

  /** How a name starts decides how it goes on: its end, a segment, a pointer, or an error. */
  lemma NameStarts(m: bytes, off: nat)
    ensures off >= |m| ==> DecodeName(m, off) == Err(BaseLen)
    ensures off < |m| && m[off] == 0 ==> DecodeName(m, off) == Ok(NameEnd([46], off + 1))
    ensures off < |m| && 64 <= m[off] < 192 ==> DecodeName(m, off) == Err(Reserved)
    ensures off < |m| && 1 <= m[off] <= 63 && off + 1 + m[off] > |m| ==> DecodeName(m, off) == Err(CalcLen)
    ensures off < |m| && 1 <= m[off] <= 63 && off + 1 + m[off] <= |m| && (exists i :: off < i <= off + m[off] && m[i] == 46) ==>
      DecodeName(m, off) == Err(InvalidName)
    ensures off + 1 == |m| && m[off] >= 192 ==> DecodeName(m, off) == Err(InvalidPtr)
  {
  }
}
