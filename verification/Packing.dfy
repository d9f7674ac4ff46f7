/** The writers as the code runs them: appending to a buffer, then patching the length field
    (internal/dnsmessage/message.go). Each is proved against the function of its position in Records and Messages. */
module Packing {
  import opened Wire
  import opened Compression
  import opened Records
  import opened Sequences
  import opened Messages
  import opened PackFaults

  // ---------- Bodies ----------

  lemma PrependTwice(msg: bytes, head: bytes, tail: Result<bytes>)
    ensures Prepend(msg, Prepend(head, tail)) == Prepend(msg + head, tail)
  {
    if tail.Ok? {
      assert msg + (head + tail.value) == msg + head + tail.value;
    }
  }

  method PackText(text: bytes, msg: bytes) returns (r: Result<bytes>)
    ensures r == if |text| > 255 then Err(StringTooLong) else Ok(msg + ([|text|] + text))
  {
    if |text| > 255 {
      return Err(StringTooLong);
    }
    return Ok(msg + ([|text|] + text));
  }

  method PackTexts(texts: seq<bytes>, msg: bytes) returns (r: Result<bytes>)
    ensures r == Prepend(msg, EncodeTexts(texts))
  {
    var buf: bytes := msg;
    assert texts[0..] == texts;
    for i := 0 to |texts|
      invariant Prepend(buf, EncodeTexts(texts[i..])) == Prepend(msg, EncodeTexts(texts))
    {
      assert texts[i..][1..] == texts[i + 1..];
      var packed := PackText(texts[i], buf);
      if packed.Err? {
        return packed;
      }
      PrependTwice(buf, [|texts[i]|] + texts[i], EncodeTexts(texts[i + 1..]));
      buf := packed.value;
    }
    assert buf + [] == buf;
    return Ok(buf);
  }

  /** Also the loop over the parameters of a service, which are written the same way. */
  method PackOptions(options: seq<EdnsOption>, msg: bytes) returns (buf: bytes)
    ensures buf == msg + EncodeOptions(options)
  {
    buf := msg;
    assert options[0..] == options;
    for i := 0 to |options|
      invariant buf + EncodeOptions(options[i..]) == msg + EncodeOptions(options)
    {
      assert options[i..][1..] == options[i + 1..];
      var option := EncodeOption(options[i].code, options[i].data);
      assert buf + (option + EncodeOptions(options[i + 1..])) == buf + option + EncodeOptions(options[i + 1..]);
      buf := buf + option;
    }
  }

  method PackService(priority: uint16, target: bytes, params: seq<Param>, msg: bytes, compressionOff: nat)
    returns (r: Result<bytes>)
    requires compressionOff <= |msg|
    ensures r == Prepend(msg, EncodeService(priority, target, params, |msg| - compressionOff))
  {
    var buf := msg + U16(priority);
    var name, _ := PackName(target, buf, None, compressionOff);
    if name.Err? {
      return name;
    }
    // The keys appear in increasing order.
    var options := AsOptions(Sorted(params));
    var packed := PackOptions(options, name.value);
    ghost var n := EncodePlainName(target, |msg| - compressionOff + 2).value;
    assert msg + U16(priority) + n + EncodeOptions(options) == msg + (U16(priority) + (n + EncodeOptions(options)));
    return Ok(packed);
  }

  method PackSoa(ns: bytes, mbox: bytes, tail: bytes, msg: bytes, table: Table, compressionOff: nat)
    returns (out: Result<bytes>, t: Table)
    requires compressionOff <= |msg|
    ensures Encoded(out, t) == Prefixed(msg, EncodeSoa(ns, mbox, tail, |msg| - compressionOff, table))
  {
    out, t := PackName(ns, msg, table, compressionOff);
    if out.Err? {
      return;
    }
    ghost var first := EncodeName(ns, |msg| - compressionOff, table);
    ghost var second := EncodeName(mbox, |msg| - compressionOff + |first.out.value|, first.table);
    out, t := PackName(mbox, out.value, t, compressionOff);
    if out.Err? {
      return;
    }
    out := Ok(out.value + tail);
    assert msg + first.out.value + second.out.value + tail == msg + (first.out.value + (second.out.value + tail));
  }

  method PackBody(b: Body, msg: bytes, table: Table, compressionOff: nat) returns (out: Result<bytes>, t: Table)
    requires compressionOff <= |msg|
    ensures Encoded(out, t) == Prefixed(msg, EncodeBody(b, |msg| - compressionOff, table))
    ensures TableFits(table) ==> Meets(out, BodyFault(b))
  {
    ghost var pos := |msg| - compressionOff;
    t := table;
    if TableFits(table) {
      BodyMeets(b, pos, table);
    }
    match b {
      case NilBody => out := Err(NilResourceBody);
      case A(a) => out := Ok(msg + a);
      case NS(n) => out, t := PackName(n, msg, table, compressionOff);
      case CNAME(n) => out, t := PackName(n, msg, table, compressionOff);
      case SOA(ns, mbox, _, _, _, _, _) => out, t := PackSoa(ns, mbox, SoaTail(b), msg, table, compressionOff);
      case PTR(n) => out, t := PackName(n, msg, table, compressionOff);
      case MX(pref, n) =>
        PrefixedTwice(msg, U16(pref), EncodeName(n, pos + 2, table));
        out, t := PackName(n, msg + U16(pref), table, compressionOff);
      case TXT(texts) => out := PackTexts(texts, msg);
      case AAAA(a) => out := Ok(msg + a);
      case SRV(priority, weight, port, n) =>
        var fixed := U16(priority) + U16(weight) + U16(port);
        PrependTwice(msg, fixed, EncodePlainName(n, pos + 6));
        var packed, _ := PackName(n, msg + fixed, None, compressionOff);
        out := packed;
      case OPT(options) =>
        var packed := PackOptions(options, msg);
        out := Ok(packed);
      case SVCB(priority, n, params) => out := PackService(priority, n, params, msg, compressionOff);
      case HTTPS(priority, n, params) => out := PackService(priority, n, params, msg, compressionOff);
      case Unknown(_, data) => out := Ok(msg + data);
    }
  }

  // ---------- Records ----------

  /** The header goes out with whatever length it carries; its length field starts at `lenOff`. */
  method PackHeader(h: ResourceHeader, msg: bytes, table: Table, compressionOff: nat)
    returns (out: Result<bytes>, lenOff: nat, t: Table)
    requires compressionOff <= |msg|
    ensures var name := EncodeName(h.name, |msg| - compressionOff, table);
            Encoded(out, t) == Prefixed(msg, Suffixed(name, Fixed(h.typ, h.cls, h.ttl, h.length)))
    ensures out.Ok? ==> lenOff + 2 == |out.value|
  {
    out, t := PackName(h.name, msg, table, compressionOff);
    lenOff := 0;
    if out.Ok? {
      ghost var name := EncodeName(h.name, |msg| - compressionOff, table).out.value;
      assert msg + name + Fixed(h.typ, h.cls, h.ttl, h.length) == msg + (name + Fixed(h.typ, h.cls, h.ttl, h.length));
      var buf := out.value + U16(h.typ) + U16(h.cls) + U32(h.ttl);
      lenOff := |buf|;
      out := Ok(buf + U16(h.length));
      assert out.value == msg + name + Fixed(h.typ, h.cls, h.ttl, h.length);
    }
  }

  /** Writing the length over the stale one gives the record that EncodeRecord describes. */
  lemma PatchedRecord(before: bytes, typ: uint16, cls: uint16, ttl: uint32, stale: uint16, body: bytes)
    requires |body| <= MAX_UINT16
    ensures var w := before + Fixed(typ, cls, ttl, stale) + body;
            var at := |before| + 8;
            w[at := |body| / 0x100][at + 1 := |body| % 0x100] == before + (Fixed(typ, cls, ttl, |body|) + body)
  {
    var w, patched := before + Fixed(typ, cls, ttl, stale) + body, before + (Fixed(typ, cls, ttl, |body|) + body);
    var at := |before| + 8;
    var head := U16(typ) + U16(cls) + U32(ttl);
    assert w == before + head + U16(stale) + body;
    assert patched == before + head + U16(|body|) + body;
  }

  /** What follows the stale header `before + Fixed(...)`: the body, and the patch of the length in front of it. */
  function BodyBehind(before: bytes, h: ResourceHeader, body: Encoded): Encoded {
    if body.out.Err? then body
    else if |body.out.value| > MAX_UINT16 then Encoded(Err(ResTooLong), body.table)
    else Encoded(Ok(before + (Fixed(h.typ, h.cls, h.ttl, |body.out.value|) + body.out.value)), body.table)
  }

  method PackBodyAndLength(h: ResourceHeader, b: Body, msg: bytes, ghost before: bytes, lenOff: nat, table: Table, compressionOff: nat)
    returns (out: Result<bytes>, t: Table)
    requires msg == before + Fixed(h.typ, h.cls, h.ttl, h.length) && lenOff == |before| + 8 && compressionOff <= |msg|
    ensures Encoded(out, t) == BodyBehind(before, h, EncodeBody(b, |msg| - compressionOff, table))
  {
    ghost var body := EncodeBody(b, |msg| - compressionOff, table).out;
    out, t := PackBody(b, msg, table, compressionOff);
    if out.Err? {
      return;
    }
    var conLen := |out.value| - |msg|;
    if conLen > MAX_UINT16 {
      return Err(ResTooLong), t;
    }
    PatchedRecord(before, h.typ, h.cls, h.ttl, h.length, body.value);
    out := Ok(out.value[lenOff := conLen / 0x100][lenOff + 1 := conLen % 0x100]);
  }

  lemma BodyPacked(msg: bytes, name: bytes, h: ResourceHeader, body: Encoded)
    requires body.out.Ok? && |body.out.value| <= MAX_UINT16
    ensures Prefixed(msg, Prefixed(name, Prefixed(Fixed(h.typ, h.cls, h.ttl, |body.out.value|), body))) == BodyBehind(msg + name, h, body)
  {
    var rest := Fixed(h.typ, h.cls, h.ttl, |body.out.value|) + body.out.value;
    assert msg + (name + rest) == msg + name + rest;
  }

  lemma RecordPacked(msg: bytes, h: ResourceHeader, b: Body, pos: nat, t: Table, name: bytes, t1: Table, body: Encoded)
    requires EncodeName(h.name, pos, t) == Encoded(Ok(name), t1) && body == EncodeBody(b, pos + |name| + 10, t1)
    ensures Prefixed(msg, EncodeRecord(h, h.typ, b, pos, t)) == BodyBehind(msg + name, h, body)
  {
    if body.out.Ok? && |body.out.value| <= MAX_UINT16 {
      BodyPacked(msg, name, h, body);
    }
  }

  /** A record: stale header, body, then the patch. */
  method PackRecord(h: ResourceHeader, b: Body, msg: bytes, table: Table, compressionOff: nat)
    returns (out: Result<bytes>, t: Table)
    requires compressionOff <= |msg|
    ensures Encoded(out, t) == Prefixed(msg, EncodeRecord(h, h.typ, b, |msg| - compressionOff, table))
    ensures TableFits(table) ==> Meets(out, RecordFault(h, b))
  {
    if TableFits(table) {
      RecordMeets(h, h.typ, b, |msg| - compressionOff, table);
    }
    ghost var name := EncodeName(h.name, |msg| - compressionOff, table).out;
    var lenOff;
    out, lenOff, t := PackHeader(h, msg, table, compressionOff);
    if out.Err? {
      return;
    }
    assert msg + (name.value + Fixed(h.typ, h.cls, h.ttl, h.length)) == msg + name.value + Fixed(h.typ, h.cls, h.ttl, h.length);
    RecordPacked(msg, h, b, |msg| - compressionOff, table, name.value, t, EncodeBody(b, |msg| - compressionOff + |name.value| + 10, t));
    out, t := PackBodyAndLength(h, b, out.value, msg + name.value, lenOff, t, compressionOff);
  }

  lemma HeaderTypeOnly(h: ResourceHeader, h': ResourceHeader, b: Body, pos: nat, t: Table)
    requires h' == h.(typ := h'.typ)
    ensures EncodeRecord(h', h'.typ, b, pos, t) == EncodeRecord(h, h'.typ, b, pos, t) && RecordFault(h', b) == RecordFault(h, b)
  {
  }

  /** A record of a message, whose header type is that of its body. */
  method PackResource(r: Resource, msg: bytes, table: Table, compressionOff: nat) returns (out: Result<bytes>, t: Table)
    requires compressionOff <= |msg|
    ensures Encoded(out, t) == Prefixed(msg, EncodeResource(r, |msg| - compressionOff, table))
    ensures TableFits(table) ==> Meets(out, ResourceFault(r))
  {
    if r.body.NilBody? {
      return Err(NilResourceBody), table;
    }
    var h := r.header.(typ := RealType(r.body));
    HeaderTypeOnly(r.header, h, r.body, |msg| - compressionOff, table);
    out, t := PackRecord(h, r.body, msg, table, compressionOff);
  }

  method PackQuestion(q: Question, msg: bytes, table: Table, compressionOff: nat) returns (out: Result<bytes>, t: Table)
    requires compressionOff <= |msg|
    ensures Encoded(out, t) == Prefixed(msg, EncodeQuestion(q, |msg| - compressionOff, table))
    ensures TableFits(table) ==> Meets(out, QuestionFault(q))
  {
    if TableFits(table) {
      QuestionMeets(q, |msg| - compressionOff, table);
    }
    out, t := PackName(q.name, msg, table, compressionOff);
    if out.Ok? {
      ghost var name := EncodeName(q.name, |msg| - compressionOff, table).out.value;
      out := Ok(out.value + U16(q.typ) + U16(q.cls));
      assert out.value == msg + (name + (U16(q.typ) + U16(q.cls)));
    }
  }

  // ---------- Messages ----------

  /** The items from `i` on, behind `buf`. */
  ghost function StillToPack<T>(enc: Encoder<T>, buf: bytes, xs: seq<T>, i: nat, compressionOff: nat, t: Table): Encoded
    requires i <= |xs| && compressionOff <= |buf|
  {
    Prefixed(buf, EncodeItems(enc, xs[i..], |buf| - compressionOff, t))
  }

  lemma AllPacked<T>(enc: Encoder<T>, buf: bytes, xs: seq<T>, compressionOff: nat, t: Table)
    requires compressionOff <= |buf|
    ensures StillToPack(enc, buf, xs, |xs|, compressionOff, t) == Encoded(Ok(buf), t)
  {
    assert buf + [] == buf;
  }

  /** One item more behind `buf`: its failure is that of the section, its success leaves the rest. */
  lemma ItemPacked<T>(enc: Encoder<T>, buf: bytes, xs: seq<T>, i: nat, compressionOff: nat, t: Table, out: Result<bytes>, t': Table)
    requires i < |xs| && compressionOff <= |buf| && Encoded(out, t') == Prefixed(buf, enc(xs[i], |buf| - compressionOff, t))
    ensures out.Err? ==> StillToPack(enc, buf, xs, i, compressionOff, t) == Encoded(out, t')
    ensures out.Ok? ==>
      && compressionOff <= |out.value|
      && StillToPack(enc, buf, xs, i, compressionOff, t) == StillToPack(enc, out.value, xs, i + 1, compressionOff, t')
  {
    var pos, rest := |buf| - compressionOff, xs[i..];
    var e := enc(xs[i], pos, t);
    assert rest[0] == xs[i] && rest[1..] == xs[i + 1..];
    if e.out.Ok? {
      PrefixedTwice(buf, e.out.value, EncodeItems(enc, rest[1..], pos + |e.out.value|, e.table));
    }
  }

  method PackQuestions(qs: seq<Question>, msg: bytes, table: Table, compressionOff: nat)
    returns (out: Result<bytes>, t: Table)
    requires compressionOff <= |msg|
    ensures Encoded(out, t) == Prefixed(msg, EncodeItems(EncodeQuestion, qs, |msg| - compressionOff, table))
  {
    var buf: bytes := msg;
    t := table;
    assert qs[0..] == qs;
    for i := 0 to |qs|
      invariant compressionOff <= |buf|
      invariant StillToPack(EncodeQuestion, buf, qs, i, compressionOff, t) == StillToPack(EncodeQuestion, msg, qs, 0, compressionOff, table)
    {
      ghost var t0 := t;
      out, t := PackQuestion(qs[i], buf, t, compressionOff);
      ItemPacked(EncodeQuestion, buf, qs, i, compressionOff, t0, out, t);
      if out.Err? {
        return;
      }
      buf := out.value;
    }
    AllPacked(EncodeQuestion, buf, qs, compressionOff, t);
    out := Ok(buf);
  }

  method PackResources(rs: seq<Resource>, msg: bytes, table: Table, compressionOff: nat)
    returns (out: Result<bytes>, t: Table)
    requires compressionOff <= |msg|
    ensures Encoded(out, t) == Prefixed(msg, EncodeItems(EncodeResource, rs, |msg| - compressionOff, table))
  {
    var buf: bytes := msg;
    t := table;
    assert rs[0..] == rs;
    for i := 0 to |rs|
      invariant compressionOff <= |buf|
      invariant StillToPack(EncodeResource, buf, rs, i, compressionOff, t) == StillToPack(EncodeResource, msg, rs, 0, compressionOff, table)
    {
      ghost var t0 := t;
      out, t := PackResource(rs[i], buf, t, compressionOff);
      ItemPacked(EncodeResource, buf, rs, i, compressionOff, t0, out, t);
      if out.Err? {
        return;
      }
      buf := out.value;
    }
    AllPacked(EncodeResource, buf, rs, compressionOff, t);
    out := Ok(buf);
  }

  /** The loop over one more section, behind what `e` wrote after `start`. */
  lemma ThenPacked(start: bytes, e: Encoded, rs: seq<Resource>, out: Result<bytes>, t: Table, out': Result<bytes>, t': Table)
    requires Encoded(out, t) == Prefixed(start, e)
    requires out.Ok? ==> Encoded(out', t') == Prefixed(out.value, EncodeItems(EncodeResource, rs, HEADER_LEN + |out.value| - |start|, t))
    requires out.Err? ==> out' == out && t' == t
    ensures Encoded(out', t') == Prefixed(start, Then(EncodeResource, e, HEADER_LEN, rs))
  {
    if out.Ok? {
      PrefixedTwice(start, e.out.value, EncodeItems(EncodeResource, rs, HEADER_LEN + |e.out.value|, e.table));
    }
  }

  method PackContent(m: Message, start: bytes, compressionOff: nat) returns (out: Result<bytes>, t: Table)
    requires |start| == compressionOff + HEADER_LEN
    ensures Encoded(out, t) == Prefixed(start, Content(m, EMPTY_TABLE))
  {
    ghost var qs := EncodeItems(EncodeQuestion, m.questions, HEADER_LEN, EMPTY_TABLE);
    ghost var an := Then(EncodeResource, qs, HEADER_LEN, m.answers);
    ghost var ns := Then(EncodeResource, an, HEADER_LEN, m.authorities);
    var out1, t1 := PackQuestions(m.questions, start, EMPTY_TABLE, compressionOff);
    var out2, t2 := PackMore(start, qs, out1, t1, m.answers, compressionOff);
    var out3, t3 := PackMore(start, an, out2, t2, m.authorities, compressionOff);
    out, t := PackMore(start, ns, out3, t3, m.additionals, compressionOff);
  }

  /** The next section, unless an earlier one failed. */
  method PackMore(start: bytes, ghost e: Encoded, out: Result<bytes>, t: Table, rs: seq<Resource>, compressionOff: nat)
    returns (out': Result<bytes>, t': Table)
    requires |start| == compressionOff + HEADER_LEN && Encoded(out, t) == Prefixed(start, e)
    ensures Encoded(out', t') == Prefixed(start, Then(EncodeResource, e, HEADER_LEN, rs))
  {
    if out.Err? {
      return out, t;
    }
    out', t' := PackResources(rs, out.value, t, compressionOff);
    ThenPacked(start, e, rs, out, t, out', t');
  }

  /** A whole message, appended to the caller's bytes. Compression offsets count from its own start. */
  method AppendPack(m: Message, b: bytes) returns (r: Result<bytes>)
    ensures r == Prepend(b, EncodeMessage(m))
    ensures Meets(r, MessageFault(m)) && (r.Ok? <==> Packable(m))
  {
    PacksExactly(m, HeaderNumber(m.header), EMPTY_TABLE);
    PackableExactly(m);
    if |m.questions| > MAX_UINT16 {
      return Err(TooManyQuestions);
    }
    if |m.answers| > MAX_UINT16 {
      return Err(TooManyAnswers);
    }
    if |m.authorities| > MAX_UINT16 {
      return Err(TooManyAuthorities);
    }
    if |m.additionals| > MAX_UINT16 {
      return Err(TooManyAdditionals);
    }
    var head := EncodeHeader(WireHeaderOf(m, HeaderNumber(m.header)));
    var t;
    r, t := PackContent(m, b + head, |b|);
    PrefixedTwice(b, head, Content(m, EMPTY_TABLE));
  }
}
