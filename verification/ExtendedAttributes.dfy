/** Lists of Windows extended attributes (ctl/internal/winio/ea.go). Numbers are little-endian. */
module ExtendedAttributes {
  import opened Wire

  const HEADER_SIZE := 8

  datatype Attribute<+B> = Attribute(name: B, value: B, flags: byte)
  type EA = Attribute<bytes>

  datatype EaError = InvalidBuffer | NameTooLarge | ValueTooLarge

  datatype Outcome<+T> = Fine(value: T) | Bad(error: EaError)

  function LE16(v: uint16): (b: bytes)
    ensures |b| == 2 && GetLE16(b, 0) == v
  {
    [v % 0x100, v / 0x100]
  }

  function GetLE16(b: bytes, at: nat): uint16
    requires at + 2 <= |b|
  {
    b[at] as int + b[at + 1] as int * 0x100
  }

  function LE32(v: uint32): (b: bytes)
    ensures |b| == 4 && GetLE32(b, 0) == v
  {
    LE16(v % 0x1_0000) + LE16(v / 0x1_0000)
  }

  function GetLE32(b: bytes, at: nat): uint32
    requires at + 4 <= |b|
  {
    GetLE16(b, at) + GetLE16(b, at + 2) * 0x1_0000
  }

  // ---------- Writing ----------

  function EntrySize(ea: EA): nat {
    HEADER_SIZE + |ea.name| + 1 + |ea.value|
  }

  /** Entries are padded to a multiple of four. */
  function WithPadding(size: nat): (p: nat)
    ensures size <= p < size + 4 && p % 4 == 0
  {
    (size + 3) / 4 * 4
  }

  function Padding(ea: EA): bytes {
    seq(WithPadding(EntrySize(ea)) - EntrySize(ea), _ => 0)
  }

  predicate Writable(ea: EA) {
    |ea.name| <= 0xFF && |ea.value| <= 0xFFFF
  }

  /** An entry without its padding; the last one points to no next entry. */
  function Entry(ea: EA, last: bool): (b: bytes)
    requires Writable(ea)
    ensures |b| == EntrySize(ea)
  {
    LE32(if last then 0 else WithPadding(EntrySize(ea))) + [ea.flags, |ea.name|] + LE16(|ea.value|) + ea.name + [0] + ea.value
  }

  function WriteError(ea: EA): Option<EaError> {
    if |ea.name| > 0xFF then Some(NameTooLarge) else if |ea.value| > 0xFFFF then Some(ValueTooLarge) else None
  }

  /** The whole list, or the first attribute's error that does not fit. */
  function Encode(eas: seq<EA>): Outcome<bytes>
    decreases |eas|
  {
    if eas == [] then Fine([])
    else if WriteError(eas[0]).Some? then Bad(WriteError(eas[0]).value)
    else
      var entry := Entry(eas[0], |eas| == 1) + Padding(eas[0]);
      match Encode(eas[1..])
      case Bad(e) => Bad(e)
      case Fine(rest) => Fine(entry + rest)
  }

  method WriteEa(buf: bytes, ea: EA, last: bool) returns (r: Outcome<bytes>)
    ensures r == if WriteError(ea).Some? then Bad(WriteError(ea).value) else Fine(buf + (Entry(ea, last) + Padding(ea)))
  {
    if |ea.name| % 0x100 != |ea.name| {
      return Bad(NameTooLarge);
    }
    if |ea.value| % 0x1_0000 != |ea.value| {
      return Bad(ValueTooLarge);
    }
    var entrySize := HEADER_SIZE + |ea.name| + 1 + |ea.value|;
    var withPadding := WithPadding(entrySize);
    var nextOffset: uint32 := 0;
    if !last {
      nextOffset := withPadding;
    }
    var out := buf + (LE32(nextOffset) + [ea.flags, |ea.name|] + LE16(|ea.value|));
    out := out + ea.name;
    out := out + [0];
    out := out + ea.value;
    out := out + seq(withPadding - entrySize, _ => 0);
    PiecesJoined(buf, LE32(nextOffset) + [ea.flags, |ea.name|] + LE16(|ea.value|), ea.name, ea.value, Padding(ea));
    return Fine(out);
  }

  lemma PiecesJoined(buf: bytes, head: bytes, name: bytes, value: bytes, padding: bytes)
    ensures buf + head + name + [0] + value + padding == buf + ((head + name + [0] + value) + padding)
  {
  }

  method EncodeExtendedAttributes(eas: seq<EA>) returns (r: Outcome<bytes>)
    ensures r == Encode(eas)
  {
    var buf: bytes := [];
    assert eas[0..] == eas;
    NothingBefore(Encode(eas));
    for i := 0 to |eas|
      invariant Behind(buf, Encode(eas[i..])) == Encode(eas)
    {
      var last := i == |eas| - 1;
      var rest := eas[i..];
      assert rest[0] == eas[i] && rest[1..] == eas[i + 1..] && last == (|rest| == 1);
      var w := WriteEa(buf, eas[i], last);
      if w.Bad? {
        return w;
      }
      OneBehind(buf, Entry(eas[i], last) + Padding(eas[i]), Encode(rest[1..]));
      buf := w.value;
    }
    assert buf + [] == buf;
    return Fine(buf);
  }

  ghost function Behind(buf: bytes, r: Outcome<bytes>): Outcome<bytes> {
    match r case Bad(_) => r case Fine(b) => Fine(buf + b)
  }

  lemma NothingBefore(r: Outcome<bytes>)
    ensures Behind([], r) == r
  {
    if r.Fine? {
      assert [] + r.value == r.value;
    }
  }

  lemma OneBehind(buf: bytes, entry: bytes, r: Outcome<bytes>)
    ensures Behind(buf, match r case Bad(e) => Bad(e) case Fine(b) => Fine(entry + b)) == Behind(buf + entry, r)
  {
    if r.Fine? {
      assert buf + (entry + r.value) == buf + entry + r.value;
    }
  }

  // ---------- Reading ----------

  /** One attribute, and the bytes from the next entry on: none when there is no next entry. */
  datatype Parsed<+T, +B> = Parsed(ea: T, rest: B)

  function ParseEa(b: bytes): (r: Outcome<Parsed<EA, bytes>>)
    ensures r.Fine? ==> |r.value.rest| < |b|
  {
    if |b| < HEADER_SIZE then Bad(InvalidBuffer)
    else
      var next, nameLen, valueLen := GetLE32(b, 0), b[5], GetLE16(b, 6);
      var valueOffset: nat := HEADER_SIZE + nameLen + 1;
      if valueLen + valueOffset > |b| || next > |b| then Bad(InvalidBuffer)
      else
        Fine(Parsed(Attribute(b[HEADER_SIZE..HEADER_SIZE + nameLen], b[valueOffset..valueOffset + valueLen], b[4]),
                    if next == 0 then [] else b[next..]))
  }

  /** Decoding arbitrary bytes ends: each next entry starts strictly behind the one before. */
  function Decode(b: bytes): Outcome<seq<EA>>
    decreases |b|
  {
    if b == [] then Fine([])
    else
      match ParseEa(b)
      case Bad(e) => Bad(e)
      case Fine(p) =>
        match Decode(p.rest)
        case Bad(e) => Bad(e)
        case Fine(eas) => Fine([p.ea] + eas)
  }

  method DecodeExtendedAttributes(b: bytes) returns (r: Outcome<seq<EA>>)
    ensures r == Decode(b)
  {
    var eas: seq<EA> := [];
    var left := b;
    NoneRead(Decode(b));
    while left != []
      invariant Found(eas, Decode(left)) == Decode(b)
      decreases |left|
    {
      var p := ParseEa(left);
      if p.Bad? {
        return Bad(p.error);
      }
      OneFound(eas, p.value.ea, Decode(p.value.rest));
      eas := eas + [p.value.ea];
      left := p.value.rest;
    }
    assert eas + [] == eas;
    return Fine(eas);
  }

  ghost function Found(eas: seq<EA>, r: Outcome<seq<EA>>): Outcome<seq<EA>> {
    match r case Bad(_) => r case Fine(more) => Fine(eas + more)
  }

  lemma NoneRead(r: Outcome<seq<EA>>)
    ensures Found([], r) == r
  {
    if r.Fine? {
      assert [] + r.value == r.value;
    }
  }

  lemma OneFound(eas: seq<EA>, ea: EA, r: Outcome<seq<EA>>)
    ensures Found(eas, match r case Bad(e) => Bad(e) case Fine(more) => Fine([ea] + more)) == Found(eas + [ea], r)
  {
    if r.Fine? {
      assert eas + ([ea] + r.value) == eas + [ea] + r.value;
    }
  }

  // ---------- Round trips ----------

  /** Encoding succeeds exactly on attributes whose names and values fit their length fields. */
  lemma {:induction false} EncodesWritable(eas: seq<EA>)
    ensures Encode(eas).Fine? <==> forall ea :: ea in eas ==> Writable(ea)
    decreases |eas|
  {
    if eas != [] {
      EncodesWritable(eas[1..]);
      if !Writable(eas[0]) {
        assert eas[0] in eas;
      } else if exists ea :: ea in eas && !Writable(ea) {
        var ea :| ea in eas && !Writable(ea);
        assert ea in eas[1..];
      } else {
        assert forall ea :: ea in eas[1..] ==> ea in eas;
      }
    }
  }

  /** Every entry is padded, the last one too. */
  lemma {:induction false} EncodedIsAligned(eas: seq<EA>)
    requires Encode(eas).Fine?
    ensures |Encode(eas).value| % 4 == 0
    decreases |eas|
  {
    if eas != [] {
      EncodedIsAligned(eas[1..]);
      Aligned(WithPadding(EntrySize(eas[0])), |Encode(eas[1..]).value|);
    }
  }

  lemma Aligned(a: nat, b: nat)
    requires a % 4 == 0 && b % 4 == 0
    ensures (a + b) % 4 == 0
  {
  }

  /** The header of an entry, read back. */
  lemma EntryParses(b: bytes, ea: EA, last: bool)
    requires Writable(ea) && Entry(ea, last) <= b && (!last ==> WithPadding(EntrySize(ea)) <= |b|)
    ensures ParseEa(b) == Fine(Parsed(ea, if last then [] else b[WithPadding(EntrySize(ea))..]))
  {
    var e := Entry(ea, last);
    var next: uint32 := if last then 0 else WithPadding(EntrySize(ea));
    var n, v := |ea.name|, |ea.value|;
    assert e == LE32(next) + ([ea.flags, n] + LE16(v) + ea.name + [0] + ea.value);
    assert forall i :: 0 <= i < |e| ==> b[i] == e[i];
    assert GetLE32(b, 0) == next;
    assert b[4] == ea.flags && b[5] == n;
    assert b[6] == LE16(v)[0] && b[7] == LE16(v)[1];
    assert b[HEADER_SIZE..HEADER_SIZE + n] == e[HEADER_SIZE..HEADER_SIZE + n] == ea.name;
    assert b[HEADER_SIZE + n + 1..HEADER_SIZE + n + 1 + v] == e[HEADER_SIZE + n + 1..] == ea.value;
  }

  /** And only an entry is parsed: but for the offset of the next entry and the byte behind the name, which are not looked at,
      the bytes in front are those of the attribute that is reported. */
  lemma ParsedIsEntry(b: bytes, last: bool)
    requires ParseEa(b).Fine?
    ensures var ea := ParseEa(b).value.ea;
      && Writable(ea) && EntrySize(ea) <= |b|
      && forall i :: 4 <= i < EntrySize(ea) && i != HEADER_SIZE + |ea.name| ==> b[i] == Entry(ea, last)[i]
  {
    var ea := ParseEa(b).value.ea;
    var e, n, v := Entry(ea, last), |ea.name|, |ea.value|;
    var next: uint32 := if last then 0 else WithPadding(EntrySize(ea));
    assert e == LE32(next) + ([ea.flags, n] + LE16(v) + ea.name + [0] + ea.value);
    assert e[4] == b[4] && e[5] == b[5];
    assert e[6] == LE16(v)[0] == b[6] && e[7] == LE16(v)[1] == b[7];
    forall i | HEADER_SIZE <= i < HEADER_SIZE + n ensures e[i] == b[i] {
      assert e[i] == ea.name[i - HEADER_SIZE];
    }
    forall i | HEADER_SIZE + n < i < EntrySize(ea) ensures e[i] == b[i] {
      assert e[i] == ea.value[i - HEADER_SIZE - n - 1];
    }
  }

  /** The encoding without the padding of its last entry. */
  function Unpadded(eas: seq<EA>): bytes
    requires forall ea :: ea in eas ==> Writable(ea)
    decreases |eas|
  {
    if eas == [] then []
    else if |eas| == 1 then Entry(eas[0], true)
    else Entry(eas[0], false) + Padding(eas[0]) + Unpadded(eas[1..])
  }

  lemma {:induction false} EncodedStartsUnpadded(eas: seq<EA>)
    requires forall ea :: ea in eas ==> Writable(ea)
    ensures Encode(eas).Fine? && Unpadded(eas) <= Encode(eas).value
    decreases |eas|
  {
    EncodesWritable(eas);
    if |eas| == 1 {
      assert eas[1..] == [];
    } else if eas != [] {
      EncodedStartsUnpadded(eas[1..]);
      var entry, tail, rest := Entry(eas[0], false) + Padding(eas[0]), Unpadded(eas[1..]), Encode(eas[1..]).value;
      assert entry + rest == entry + tail + rest[|tail|..];
    }
  }

  /** The first entry, and the others behind its padding. */
  lemma NextUnpadded(eas: seq<EA>, b: bytes, k: nat)
    requires |eas| > 1 && (forall ea :: ea in eas ==> Writable(ea)) && Unpadded(eas) <= b && k == WithPadding(EntrySize(eas[0]))
    ensures Entry(eas[0], false) <= b && k <= |b| && Unpadded(eas[1..]) <= b[k..]
  {
    SplitStart(Entry(eas[0], false), Padding(eas[0]), Unpadded(eas[1..]), b);
  }

  lemma SplitStart(x: bytes, y: bytes, z: bytes, b: bytes)
    requires x + y + z <= b
    ensures x <= b && z <= b[|x| + |y|..]
  {
    var w := x + y + z;
    assert w[..|x|] == x && w[|x| + |y|..] == z;
    assert b[..|x|] == w[..|x|] && b[|x| + |y|..][..|z|] == w[|x| + |y|..];
  }

  /** Whatever follows, and even without the padding of the last entry, decoding gives the list. */
  lemma {:induction false} UnpaddedDecodes(eas: seq<EA>, b: bytes)
    requires eas != [] && (forall ea :: ea in eas ==> Writable(ea)) && Unpadded(eas) <= b
    ensures Decode(b) == Fine(eas)
    decreases |eas|
  {
    var ea := eas[0];
    if |eas| == 1 {
      EntryParses(b, ea, true);
      assert [ea] + [] == eas;
    } else {
      var k := WithPadding(EntrySize(ea));
      NextUnpadded(eas, b, k);
      EntryParses(b, ea, false);
      UnpaddedDecodes(eas[1..], b[k..]);
      assert [ea] + eas[1..] == eas;
    }
  }

  lemma CutStarts(w: bytes, b: bytes, cut: nat)
    requires w <= b && |w| + cut <= |b|
    ensures w <= b[..|b| - cut]
  {
  }

  lemma CutDecodes(eas: seq<EA>, w: bytes, b: bytes, cut: nat)
    requires eas != [] && (forall ea :: ea in eas ==> Writable(ea)) && w == Unpadded(eas) && w <= b && |w| + cut <= |b|
    ensures Decode(b[..|b| - cut]) == Fine(eas)
  {
    CutStarts(w, b, cut);
    UnpaddedDecodes(eas, b[..|b| - cut]);
  }

  lemma EncodedStarts(eas: seq<EA>, w: bytes, b: bytes)
    requires (forall ea :: ea in eas ==> Writable(ea)) && w == Unpadded(eas) && Encode(eas) == Fine(b)
    ensures w <= b
  {
    EncodedStartsUnpadded(eas);
  }

  /** Decoding an encoding returns the list, also when up to all of the last entry's padding is cut off. */
  lemma EaRoundTrip(eas: seq<EA>, b: bytes, cut: nat)
    requires (forall ea :: ea in eas ==> Writable(ea)) && Encode(eas) == Fine(b) && |Unpadded(eas)| + cut <= |b|
    ensures Decode(b[..|b| - cut]) == Fine(eas)
  {
    var w := Unpadded(eas);
    EncodedStarts(eas, w, b);
    if eas != [] {
      CutDecodes(eas, w, b, cut);
    }
  }

  lemma {:induction false} DecodedWritable(b: bytes)
    requires Decode(b).Fine?
    ensures forall ea :: ea in Decode(b).value ==> Writable(ea)
    decreases |b|
  {
    if b != [] {
      DecodedWritable(ParseEa(b).value.rest);
    }
  }

  /** Whatever decodes can be encoded again, and then decodes to the same list. */
  lemma DecodedEncodes(b: bytes)
    requires Decode(b).Fine?
    ensures Encode(Decode(b).value).Fine? && Decode(Encode(Decode(b).value).value) == Decode(b)
  {
    DecodedWritable(b);
    WritableDecodes(Decode(b).value);
  }

  lemma WritableDecodes(eas: seq<EA>)
    requires forall ea :: ea in eas ==> Writable(ea)
    ensures Encode(eas).Fine? && Decode(Encode(eas).value) == Fine(eas)
  {
    EncodedStartsUnpadded(eas);
    if eas != [] {
      UnpaddedDecodes(eas, Encode(eas).value);
    }
  }

  // ---------- The format, byte by byte ----------

  /** An entry: the offset of the next one in four bytes, the lowest first; flags; the lengths of name and value in one and two
      bytes; the name, a zero, and the value. */
  lemma EntryBytes(ea: EA, last: bool)
    requires |ea.name| <= 255 && |ea.value| <= 65535
    ensures var e, n, v := Entry(ea, last), |ea.name|, |ea.value|;
      && |e| == 9 + n + v
      && ((e[3] as int * 256 + e[2]) * 256 + e[1]) * 256 + e[0] == (if last then 0 else (9 + n + v + 3) / 4 * 4)
      && e[4] == ea.flags && e[5] == n && e[7] as int * 256 + e[6] == v
      && e[8..8 + n] == ea.name && e[8 + n] == 0 && e[9 + n..] == ea.value
      && |Padding(ea)| <= 3 && (|e| + |Padding(ea)|) % 4 == 0 && forall i :: 0 <= i < |Padding(ea)| ==> Padding(ea)[i] == 0
  {
    var e, n, v := Entry(ea, last), |ea.name|, |ea.value|;
    var next: uint32 := if last then 0 else WithPadding(EntrySize(ea));
    var head, tail := LE32(next) + [ea.flags, n] + LE16(v), ea.name + [0] + ea.value;
    assert |head| == 8 && head[6] == LE16(v)[0] && head[7] == LE16(v)[1];
    assert e == head + tail;
    assert forall i :: 0 <= i < 8 ==> e[i] == head[i];
    assert LE32(next) == [next % 0x1_0000 % 256, next % 0x1_0000 / 256, next / 0x1_0000 % 256, next / 0x1_0000 / 256];
    assert e[8..] == tail && tail[..n] == ea.name && tail[n] == 0 && tail[n + 1..] == ea.value;
  }

  /** Two attributes, foo = bar and fizz = buzz. */
  lemma TwoAttributes(foo: EA, fizz: EA)
    requires foo == Attribute([102, 111, 111], [98, 97, 114], 0) && fizz == Attribute([102, 105, 122, 122], [98, 117, 122, 122], 0)
    ensures Encode([foo, fizz]) ==
      Fine([16, 0, 0, 0, 0, 3, 3, 0, 102, 111, 111, 0, 98, 97, 114, 0,
            0, 0, 0, 0, 0, 4, 4, 0, 102, 105, 122, 122, 0, 98, 117, 122, 122, 0, 0, 0])
  {
    FooEntry(foo);
    FizzEntry(fizz);
    TwoEntries(foo, fizz);
    var first: bytes := [16, 0, 0, 0, 0, 3, 3, 0, 102, 111, 111, 0, 98, 97, 114, 0];
    var second: bytes := [0, 0, 0, 0, 0, 4, 4, 0, 102, 105, 122, 122, 0, 98, 117, 122, 122, 0, 0, 0];
    assert Encode([foo, fizz]) == Fine(first + second);
    assert first + second == [16, 0, 0, 0, 0, 3, 3, 0, 102, 111, 111, 0, 98, 97, 114, 0,
                              0, 0, 0, 0, 0, 4, 4, 0, 102, 105, 122, 122, 0, 98, 117, 122, 122, 0, 0, 0];
  }

  lemma FooEntry(foo: EA)
    requires foo == Attribute([102, 111, 111], [98, 97, 114], 0)
    ensures Entry(foo, false) + Padding(foo) == [16, 0, 0, 0, 0, 3, 3, 0, 102, 111, 111, 0, 98, 97, 114, 0]
  {
    assert LE32(16) == [16, 0, 0, 0];
    assert Padding(foo) == [0];
  }

  lemma FizzEntry(fizz: EA)
    requires fizz == Attribute([102, 105, 122, 122], [98, 117, 122, 122], 0)
    ensures Entry(fizz, true) + Padding(fizz) == [0, 0, 0, 0, 0, 4, 4, 0, 102, 105, 122, 122, 0, 98, 117, 122, 122, 0, 0, 0]
  {
    assert LE32(0) == [0, 0, 0, 0];
    assert Padding(fizz) == [0, 0, 0];
  }

  lemma TwoEntries(a: EA, b: EA)
    requires Writable(a) && Writable(b)
    ensures Encode([a, b]) == Fine(Entry(a, false) + Padding(a) + (Entry(b, true) + Padding(b)))
  {
    assert [a, b][1..] == [b] && [b][1..] == [];
    assert Entry(b, true) + Padding(b) + [] == Entry(b, true) + Padding(b);
    assert Encode([b]) == Fine(Entry(b, true) + Padding(b));
  }

  /** The first attribute that does not fit is reported: its name if that is too long, and otherwise its value. */
  lemma {:induction false} FirstUnwritable(eas: seq<EA>, k: nat)
    requires k < |eas| && (forall i :: 0 <= i < k ==> |eas[i].name| <= 255 && |eas[i].value| <= 65535)
    requires |eas[k].name| > 255 || |eas[k].value| > 65535
    ensures Encode(eas) == Bad(if |eas[k].name| > 255 then NameTooLarge else ValueTooLarge)
    decreases k
  {
    if k > 0 {
      FirstUnwritable(eas[1..], k - 1);
    }
  }

  /** Which bytes are refused: fewer than a header, a name and value that run out of them, or a next entry beyond them. Other
      bytes are an attribute, with the next entry where its offset says. */
  lemma ParsedBytes(b: bytes)
    ensures |b| < 8 ==> ParseEa(b) == Bad(InvalidBuffer)
    ensures |b| >= 8 ==>
      var next, n, v := ((b[3] as int * 256 + b[2]) * 256 + b[1]) * 256 + b[0], b[5], b[7] as int * 256 + b[6];
      if 9 + n + v > |b| || next > |b| then ParseEa(b) == Bad(InvalidBuffer)
      else ParseEa(b) == Fine(Parsed(Attribute(b[8..8 + n], b[9 + n..9 + n + v], b[4]), if next == 0 then [] else b[next..]))
  {
  }
}
