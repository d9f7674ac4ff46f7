/** What the reader makes of records, questions and bodies that the writer put into a message. */
module RecordRoundTrip {
  import opened Wire
  import opened Names
  import opened Compression
  import opened TableSoundness
  import opened Records

  /** The names that go through the compression table, within reach of the reader's ten pointers. */
  ghost predicate BodyReadable(m: bytes, b: Body, pos: nat, t: Table) {
    match b
    case NS(n) => PointersUsed(m, n, t) <= MAX_POINTERS
    case CNAME(n) => PointersUsed(m, n, t) <= MAX_POINTERS
    case PTR(n) => PointersUsed(m, n, t) <= MAX_POINTERS
    case MX(_, n) => PointersUsed(m, n, t) <= MAX_POINTERS
    case SOA(ns, mbox, _, _, _, _, _) => SoaReadable(m, ns, mbox, pos, t)
    case _ => true
  }

  ghost predicate SoaReadable(m: bytes, ns: bytes, mbox: bytes, pos: nat, t: Table) {
    && PointersUsed(m, ns, t) <= MAX_POINTERS
    && PointersUsed(m, mbox, EncodeName(ns, pos, t).table) <= MAX_POINTERS
  }

  /** The body as the reader reports it: parameters sorted, option offsets filled in. */
  function Filled(b: Body, off: nat): Body {
    match b
    case OPT(options) => OPT(WithOffsets(options, off))
    case SVCB(priority, target, params) => SVCB(priority, target, Sorted(params))
    case HTTPS(priority, target, params) => HTTPS(priority, target, Sorted(params))
    case _ => b
  }

  function WithOffsets(options: seq<EdnsOption>, off: nat): (r: seq<EdnsOption>)
    ensures |r| == |options|
  {
    if options == [] then []
    else
      var o := options[0];
      [EdnsOption(o.code, o.data, off + 4)] + WithOffsets(options[1..], off + 4 + |o.data|)
  }

  /** A body whose own type does not make the reader take it for another kind. */
  ghost predicate OwnType(b: Body) {
    b.Unknown? ==> !KnownType(b.unknownType)
  }

  // ---------- Texts, options, parameters ----------

  lemma {:induction false} TextsReadBack(m: bytes, off: nat, texts: seq<bytes>, w: bytes)
    requires EncodeTexts(texts) == Ok(w) && At(m, off, w)
    ensures DecodeTexts(m, off, |w|) == Ok(texts)
    decreases |texts|
  {
    if texts != [] {
      var head, rest := [|texts[0]|] + texts[0], EncodeTexts(texts[1..]).value;
      AtParts(m, off, head, rest);
      TextsReadBack(m, off + |head|, texts[1..], rest);
      TextReadsBack(m, off, texts[0]);
      assert [texts[0]] + texts[1..] == texts;
    }
  }

  lemma TextReadsBack(m: bytes, off: nat, text: bytes)
    requires |text| <= 255 && At(m, off, [|text|] + text)
    ensures m[off] == |text| && Slice(m, off + 1, |text|) == text
  {
    var w := [|text|] + text;
    assert m[off] == w[0];
    AtParts(m, off, [|text|], text);
    SliceAt(m, off + 1, text);
  }

  lemma {:induction false} OptionsReadBack(m: bytes, off: nat, options: seq<EdnsOption>, w: bytes)
    requires w == EncodeOptions(options) && |w| <= MAX_UINT16 && At(m, off, w)
    ensures DecodeOptions(m, off, off + |w|) == Ok(WithOffsets(options, off))
    decreases |options|
  {
    if options != [] {
      var o, rest := options[0], EncodeOptions(options[1..]);
      AtParts(m, off, EncodeOption(o.code, o.data), rest);
      OptionReadsBack(m, off, o.code, o.data);
      OptionsReadBack(m, off + 4 + |o.data|, options[1..], rest);
    }
  }

  lemma OptionReadsBack(m: bytes, off: nat, code: uint16, data: bytes)
    requires |data| <= MAX_UINT16 && At(m, off, EncodeOption(code, data))
    ensures GetU16(m, off) == code && GetU16(m, off + 2) == |data| && Slice(m, off + 4, |data|) == data
  {
    AtParts(m, off, U16(code) + U16(|data|), data);
    AtParts(m, off, U16(code), U16(|data|));
    U16At(m, off, code);
    U16At(m, off + 2, |data|);
    SliceAt(m, off + 4, data);
  }

  lemma {:induction false} ParamsWithOffsets(params: seq<Param>, off: nat)
    ensures AsParams(WithOffsets(AsOptions(params), off)) == params
    decreases |params|
  {
    if params != [] {
      assert AsOptions(params)[1..] == AsOptions(params[1..]);
      ParamsWithOffsets(params[1..], off + 4 + |params[0].value|);
      var located := WithOffsets(AsOptions(params), off);
      assert located[1..] == WithOffsets(AsOptions(params[1..]), off + 4 + |params[0].value|);
      assert AsParams(located)[1..] == AsParams(located[1..]);
      assert params == [params[0]] + params[1..];
    }
  }

  // ---------- Bodies ----------

  /** `b`, written as `w` at `pos` with table `t`, is read back. */
  ghost predicate BodyReadsBack(m: bytes, pos: nat, b: Body, t: Table, w: bytes)
    requires !b.NilBody? && |w| <= MAX_UINT16
  {
    DecodeBody(m, pos, RealType(b), |w|) == if BodyReadable(m, b, pos, t) then Ok(Filled(b, pos)) else Err(TooManyPtr)
  }

  ghost predicate Written(m: bytes, pos: nat, e: Encoded, w: bytes) {
    e.out == Ok(w) && At(m, pos, w)
  }

  lemma MxReadsBack(m: bytes, pos: nat, b: Body, t: Table, w: bytes)
    requires b.MX? && TableSound(m, t) && Written(m, pos, EncodeBody(b, pos, t), w) && |w| <= MAX_UINT16
    ensures BodyReadsBack(m, pos, b, t, w) && TableSound(m, EncodeBody(b, pos, t).table)
  {
    var name := EncodeName(b.mx, pos + 2, t).out.value;
    AtParts(m, pos, U16(b.pref), name);
    U16At(m, pos, b.pref);
    PackedNameReadsBack(m, pos + 2, b.mx, t, name);
    PackedNameKeepsTable(m, pos + 2, b.mx, t, name);
  }

  lemma PlainNameReadsBack(m: bytes, pos: nat, n: bytes, w: bytes)
    requires EncodePlainName(n, pos) == Ok(w) && At(m, pos, w)
    ensures DecodeName(m, pos) == Ok(NameEnd(n, pos + |w|))
  {
    PackedNameReadsBack(m, pos, n, None, w);
  }

  lemma SrvReadsBack(m: bytes, pos: nat, b: Body, t: Table, w: bytes)
    requires b.SRV? && Written(m, pos, EncodeBody(b, pos, t), w) && |w| <= MAX_UINT16
    ensures BodyReadsBack(m, pos, b, t, w)
  {
    var field, name := U16(b.srvPriority) + U16(b.weight) + U16(b.port), EncodePlainName(b.srvTarget, pos + 6).value;
    AtParts(m, pos, field, name);
    PlainNameReadsBack(m, pos + 6, b.srvTarget, name);
    AtParts(m, pos, U16(b.srvPriority) + U16(b.weight), U16(b.port));
    AtParts(m, pos, U16(b.srvPriority), U16(b.weight));
    U16At(m, pos, b.srvPriority);
    U16At(m, pos + 2, b.weight);
    U16At(m, pos + 4, b.port);
  }

  /** The parts of a written service: priority, name and parameters. */
  lemma ServiceParts(m: bytes, pos: nat, priority: uint16, n: bytes, params: seq<Param>, w: bytes) returns (name: bytes, tail: bytes)
    requires EncodeService(priority, n, params, pos) == Ok(w) && At(m, pos, w)
    ensures At(m, pos, U16(priority)) && EncodePlainName(n, pos + 2) == Ok(name) && At(m, pos + 2, name)
    ensures tail == EncodeOptions(AsOptions(Sorted(params))) && At(m, pos + 2 + |name|, tail) && |w| == 2 + |name| + |tail|
  {
    name, tail := EncodePlainName(n, pos + 2).value, EncodeOptions(AsOptions(Sorted(params)));
    AtParts(m, pos, U16(priority), name + tail);
    AtParts(m, pos + 2, name, tail);
  }

  lemma ServiceReadsBack(m: bytes, pos: nat, priority: uint16, n: bytes, params: seq<Param>, w: bytes)
    requires EncodeService(priority, n, params, pos) == Ok(w) && At(m, pos, w) && |w| <= MAX_UINT16
    ensures DecodeService(m, pos, |w|) == Ok(Service(priority, n, Sorted(params)))
  {
    var name, tail := ServiceParts(m, pos, priority, n, params, w);
    U16At(m, pos, priority);
    PlainNameReadsBack(m, pos + 2, n, name);
    ParamsReadBack(m, pos + 2 + |name|, Sorted(params), tail);
    ServiceFrom(m, pos, |w|, priority, n, Sorted(params), pos + 2 + |name|);
  }

  lemma ServiceFrom(m: bytes, pos: nat, length: uint16, priority: uint16, n: bytes, params: seq<Param>, at: nat)
    requires pos + 2 <= |m| && GetU16(m, pos) == priority && DecodeName(m, pos + 2) == Ok(NameEnd(n, at))
    requires DecodeOptions(m, at, pos + length).Ok? && AsParams(DecodeOptions(m, at, pos + length).value) == params
    ensures DecodeService(m, pos, length) == Ok(Service(priority, n, params))
  {
  }

  lemma ParamsReadBack(m: bytes, off: nat, params: seq<Param>, w: bytes)
    requires w == EncodeOptions(AsOptions(params)) && |w| <= MAX_UINT16 && At(m, off, w)
    ensures DecodeOptions(m, off, off + |w|).Ok? && AsParams(DecodeOptions(m, off, off + |w|).value) == params
  {
    OptionsReadBack(m, off, AsOptions(params), w);
    ParamsWithOffsets(params, off);
  }

  /** The parts of a written SOA body: two names, each with its table, and the numbers behind them. */
  lemma SoaParts(m: bytes, pos: nat, ns: bytes, mbox: bytes, tail: bytes, t: Table, w: bytes)
    returns (n1: bytes, t1: Table, at: nat, n2: bytes)
    requires Written(m, pos, EncodeSoa(ns, mbox, tail, pos, t), w)
    ensures EncodeName(ns, pos, t) == Encoded(Ok(n1), t1) && At(m, pos, n1) && at == pos + |n1|
    ensures EncodeName(mbox, at, t1) == Encoded(Ok(n2), EncodeSoa(ns, mbox, tail, pos, t).table)
    ensures At(m, at, n2) && At(m, at + |n2|, tail)
  {
    var first := EncodeName(ns, pos, t);
    n1, t1 := first.out.value, first.table;
    at := pos + |n1|;
    n2 := EncodeName(mbox, at, t1).out.value;
    AtParts(m, pos, n1, n2 + tail);
    AtParts(m, at, n2, tail);
  }

  /** Two names, one behind the other. */
  lemma SoaNames(m: bytes, pos: nat, ns: bytes, mbox: bytes, t: Table, n1: bytes, t1: Table, at: nat, n2: bytes, t2: Table, end: nat)
    requires TableSound(m, t) && EncodeName(ns, pos, t) == Encoded(Ok(n1), t1) && At(m, pos, n1) && at == pos + |n1|
    requires EncodeName(mbox, at, t1) == Encoded(Ok(n2), t2) && At(m, at, n2) && end == at + |n2|
    ensures DecodeName(m, pos) == if PointersUsed(m, ns, t) <= MAX_POINTERS then Ok(NameEnd(ns, at)) else Err(TooManyPtr)
    ensures DecodeName(m, at) == if PointersUsed(m, mbox, t1) <= MAX_POINTERS then Ok(NameEnd(mbox, end)) else Err(TooManyPtr)
    ensures TableSound(m, t2)
  {
    PackedNameReadsBack(m, pos, ns, t, n1);
    PackedNameKeepsTable(m, pos, ns, t, n1);
    PackedNameReadsBack(m, at, mbox, t1, n2);
    PackedNameKeepsTable(m, at, mbox, t1, n2);
  }

  lemma SoaReadsBack(m: bytes, pos: nat, ns: bytes, mbox: bytes, b: Body, t: Table, w: bytes)
    requires b.SOA? && b.soaNs == ns && b.mbox == mbox && TableSound(m, t)
    requires Written(m, pos, EncodeSoa(ns, mbox, SoaTail(b), pos, t), w)
    ensures DecodeSoa(m, pos) == if SoaReadable(m, ns, mbox, pos, t) then Ok(b) else Err(TooManyPtr)
    ensures TableSound(m, EncodeSoa(ns, mbox, SoaTail(b), pos, t).table)
  {
    var tail := SoaTail(b);
    var n1, t1, at, n2 := SoaParts(m, pos, ns, mbox, tail, t, w);
    var end := at + |n2|;
    SoaNames(m, pos, ns, mbox, t, n1, t1, at, n2, EncodeSoa(ns, mbox, tail, pos, t).table, end);
    NumbersReadBack(m, end, b);
    SoaReach(m, ns, mbox, pos, t, n1, t1);
    SoaDecoded(m, pos, at, end, b, PointersUsed(m, ns, t) <= MAX_POINTERS, PointersUsed(m, mbox, t1) <= MAX_POINTERS);
  }

  lemma SoaReach(m: bytes, ns: bytes, mbox: bytes, pos: nat, t: Table, n1: bytes, t1: Table)
    requires EncodeName(ns, pos, t) == Encoded(Ok(n1), t1)
    ensures SoaReadable(m, ns, mbox, pos, t) <==> PointersUsed(m, ns, t) <= MAX_POINTERS && PointersUsed(m, mbox, t1) <= MAX_POINTERS
  {
  }

  lemma SoaDecoded(m: bytes, pos: nat, at: nat, end: nat, b: Body, first: bool, second: bool)
    requires b.SOA? && NumbersAt(m, end, b)
    requires DecodeName(m, pos) == if first then Ok(NameEnd(b.soaNs, at)) else Err(TooManyPtr)
    requires DecodeName(m, at) == if second then Ok(NameEnd(b.mbox, end)) else Err(TooManyPtr)
    ensures DecodeSoa(m, pos) == if first && second then Ok(b) else Err(TooManyPtr)
  {
  }

  ghost predicate NumbersAt(m: bytes, off: nat, b: Body)
    requires b.SOA?
  {
    && off + 20 <= |m|
    && GetU32(m, off) == b.serial && GetU32(m, off + 4) == b.refresh && GetU32(m, off + 8) == b.retry
    && GetU32(m, off + 12) == b.expire && GetU32(m, off + 16) == b.minTtl
  }

  lemma NumbersReadBack(m: bytes, off: nat, b: Body)
    requires b.SOA? && At(m, off, SoaTail(b))
    ensures NumbersAt(m, off, b)
  {
    AtParts(m, off, U32(b.serial) + U32(b.refresh) + U32(b.retry) + U32(b.expire), U32(b.minTtl));
    AtParts(m, off, U32(b.serial) + U32(b.refresh) + U32(b.retry), U32(b.expire));
    AtParts(m, off, U32(b.serial) + U32(b.refresh), U32(b.retry));
    AtParts(m, off, U32(b.serial), U32(b.refresh));
    U32At(m, off, b.serial);
    U32At(m, off + 4, b.refresh);
    U32At(m, off + 8, b.retry);
    U32At(m, off + 12, b.expire);
    U32At(m, off + 16, b.minTtl);
  }

  /** A body is read back as it was written exactly when its names stay within ten pointers, and
      writing it keeps the table sound. */
  lemma WrittenBodyReadsBack(m: bytes, pos: nat, b: Body, t: Table, w: bytes)
    requires !b.NilBody? && OwnType(b) && TableSound(m, t)
    requires Written(m, pos, EncodeBody(b, pos, t), w) && |w| <= MAX_UINT16
    ensures BodyReadsBack(m, pos, b, t, w)
    ensures TableSound(m, EncodeBody(b, pos, t).table)
  {
    match b {
      case NS(n) => NameBodyReadsBack(m, pos, b, n, t, w);
      case CNAME(n) => NameBodyReadsBack(m, pos, b, n, t, w);
      case PTR(n) => NameBodyReadsBack(m, pos, b, n, t, w);
      case SOA(ns, mbox, _, _, _, _, _) => SoaReadsBack(m, pos, ns, mbox, b, t, w);
      case MX(_, _) => MxReadsBack(m, pos, b, t, w);
      case SRV(_, _, _, _) => SrvReadsBack(m, pos, b, t, w);
      case NilBody => assert false;
      case _ => UncompressedBodyReadsBack(m, pos, b, t, w);
    }
  }

  lemma NameBodyReadsBack(m: bytes, pos: nat, b: Body, n: bytes, t: Table, w: bytes)
    requires b == NS(n) || b == CNAME(n) || b == PTR(n)
    requires TableSound(m, t) && Written(m, pos, EncodeBody(b, pos, t), w) && |w| <= MAX_UINT16
    ensures BodyReadsBack(m, pos, b, t, w) && TableSound(m, EncodeBody(b, pos, t).table)
  {
    PackedNameReadsBack(m, pos, n, t, w);
    PackedNameKeepsTable(m, pos, n, t, w);
  }

  lemma UncompressedBodyReadsBack(m: bytes, pos: nat, b: Body, t: Table, w: bytes)
    requires b.A? || b.TXT? || b.AAAA? || b.OPT? || b.SVCB? || b.HTTPS? || b.Unknown?
    requires OwnType(b) && Written(m, pos, EncodeBody(b, pos, t), w) && |w| <= MAX_UINT16
    ensures BodyReadsBack(m, pos, b, t, w) && EncodeBody(b, pos, t).table == t
  {
    if b.TXT? {
      TextsReadBack(m, pos, b.texts, w);
    } else if b.OPT? {
      OptionsReadBack(m, pos, b.options, w);
    } else if b.SVCB? || b.HTTPS? {
      ServiceReadsBack(m, pos, b.priority, b.target, b.params, w);
    } else {
      RawBodyReadsBack(m, pos, b, t, w);
    }
  }

  lemma RawBodyReadsBack(m: bytes, pos: nat, b: Body, t: Table, w: bytes)
    requires b.A? || b.AAAA? || b.Unknown?
    requires OwnType(b) && Written(m, pos, EncodeBody(b, pos, t), w) && |w| <= MAX_UINT16
    ensures BodyReadsBack(m, pos, b, t, w)
  {
    SliceAt(m, pos, w);
  }

  // ---------- Records and questions ----------

  /** A record as the reader reports it, given where its body starts and how long it is. */
  function FilledRecord(h: ResourceHeader, b: Body, at: nat, length: uint16): Resource
    requires !b.NilBody?
  {
    Resource(ResourceHeader(h.name, RealType(b), h.cls, h.ttl, length), Filled(b, at))
  }

  lemma FixedReadsBack(m: bytes, off: nat, typ: uint16, cls: uint16, ttl: uint32, length: uint16)
    requires At(m, off, Fixed(typ, cls, ttl, length))
    ensures off + 10 <= |m|
    ensures GetU16(m, off) == typ && GetU16(m, off + 2) == cls && GetU32(m, off + 4) == ttl && GetU16(m, off + 8) == length
  {
    AtParts(m, off, U16(typ) + U16(cls) + U32(ttl), U16(length));
    AtParts(m, off, U16(typ) + U16(cls), U32(ttl));
    AtParts(m, off, U16(typ), U16(cls));
    U16At(m, off, typ);
    U16At(m, off + 2, cls);
    U32At(m, off + 4, ttl);
    U16At(m, off + 8, length);
  }

  /** The parts of a written record: where its body starts, the table there, and the body. */
  lemma RecordParts(m: bytes, pos: nat, h: ResourceHeader, typ: uint16, b: Body, t: Table, w: bytes)
    returns (name: bytes, t1: Table, body: bytes)
    requires Written(m, pos, EncodeRecord(h, typ, b, pos, t), w)
    ensures EncodeName(h.name, pos, t) == Encoded(Ok(name), t1) && At(m, pos, name)
    ensures EncodeBody(b, pos + |name| + 10, t1) == Encoded(Ok(body), EncodeRecord(h, typ, b, pos, t).table)
    ensures |body| <= MAX_UINT16 && At(m, pos + |name| + 10, body)
    ensures At(m, pos + |name|, Fixed(typ, h.cls, h.ttl, |body|)) && |w| == |name| + 10 + |body|
  {
    var e := EncodeName(h.name, pos, t);
    name, t1 := e.out.value, e.table;
    body := EncodeBody(b, pos + |name| + 10, t1).out.value;
    AtParts(m, pos, name, Fixed(typ, h.cls, h.ttl, |body|) + body);
    AtParts(m, pos + |name|, Fixed(typ, h.cls, h.ttl, |body|), body);
  }

  ghost predicate RecordReadable(m: bytes, h: ResourceHeader, b: Body, pos: nat, t: Table) {
    var e := EncodeName(h.name, pos, t);
    && PointersUsed(m, h.name, t) <= MAX_POINTERS
    && (e.out.Ok? ==> BodyReadable(m, b, pos + |e.out.value| + 10, e.table))
  }

  /** A record that was written is read back, completely or not at all, and the table stays sound. */
  lemma RecordReadsBack(m: bytes, pos: nat, h: ResourceHeader, b: Body, t: Table, w: bytes) returns (at: nat, length: uint16)
    requires !b.NilBody? && OwnType(b) && TableSound(m, t) && Written(m, pos, EncodeRecord(h, RealType(b), b, pos, t), w)
    ensures at + length == pos + |w| && pos + 11 <= at
    ensures EncodeName(h.name, pos, t).out.Ok? && at == pos + |EncodeName(h.name, pos, t).out.value| + 10
    ensures var body := EncodeBody(b, at, EncodeName(h.name, pos, t).table).out; body.Ok? && length == |body.value|
    ensures DecodeResource(m, pos)
         == if RecordReadable(m, h, b, pos, t) then Ok(ItemEnd(FilledRecord(h, b, at, length), pos + |w|))
            else Err(TooManyPtr)
    ensures TableSound(m, EncodeRecord(h, RealType(b), b, pos, t).table)
  {
    var name, t1, body := RecordParts(m, pos, h, RealType(b), b, t, w);
    at, length := pos + |name| + 10, |body|;
    ReadableParts(m, pos, h, b, t, name, t1);
    RecordPartsReadBack(m, pos, at, h, b, t, name, t1, body);
  }

  lemma ReadableParts(m: bytes, pos: nat, h: ResourceHeader, b: Body, t: Table, name: bytes, t1: Table)
    requires EncodeName(h.name, pos, t) == Encoded(Ok(name), t1)
    ensures RecordReadable(m, h, b, pos, t)
        <==> PointersUsed(m, h.name, t) <= MAX_POINTERS && BodyReadable(m, b, pos + |name| + 10, t1)
  {
  }

  lemma RecordPartsReadBack(m: bytes, pos: nat, at: nat, h: ResourceHeader, b: Body, t: Table, name: bytes, t1: Table, body: bytes)
    requires !b.NilBody? && OwnType(b) && TableSound(m, t) && |body| <= MAX_UINT16
    requires EncodeName(h.name, pos, t) == Encoded(Ok(name), t1) && At(m, pos, name) && at == pos + |name| + 10
    requires At(m, pos + |name|, Fixed(RealType(b), h.cls, h.ttl, |body|))
    requires Written(m, at, EncodeBody(b, at, t1), body)
    ensures pos + 11 <= at
    ensures DecodeResource(m, pos)
         == if PointersUsed(m, h.name, t) <= MAX_POINTERS && BodyReadable(m, b, at, t1)
            then Ok(ItemEnd(FilledRecord(h, b, at, |body|), at + |body|)) else Err(TooManyPtr)
    ensures TableSound(m, EncodeBody(b, at, t1).table)
  {
    NameNotEmpty(h.name, pos, t);
    PackedNameReadsBack(m, pos, h.name, t, name);
    PackedNameKeepsTable(m, pos, h.name, t, name);
    FieldsReadBack(m, at, RealType(b), h.cls, h.ttl, |body|);
    WrittenBodyReadsBack(m, at, b, t1, body);
    RecordDecoded(m, pos, at, h, b, |body|, PointersUsed(m, h.name, t) <= MAX_POINTERS, BodyReadable(m, b, at, t1));
  }

  /** The fixed fields as they stand in front of the body. */
  lemma FieldsReadBack(m: bytes, at: nat, typ: uint16, cls: uint16, ttl: uint32, length: uint16)
    requires at >= 10 && At(m, at - 10, Fixed(typ, cls, ttl, length))
    ensures at <= |m| && GetU16(m, at - 10) == typ && GetU16(m, at - 8) == cls
    ensures GetU32(m, at - 6) == ttl && GetU16(m, at - 2) == length
  {
    FixedReadsBack(m, at - 10, typ, cls, ttl, length);
  }

  lemma NameNotEmpty(n: bytes, pos: nat, t: Table)
    requires EncodeName(n, pos, t).out.Ok?
    ensures |EncodeName(n, pos, t).out.value| > 0
  {
  }

  lemma RecordDecoded(m: bytes, pos: nat, at: nat, h: ResourceHeader, b: Body, length: uint16, first: bool, second: bool)
    requires !b.NilBody? && 10 <= at <= |m|
    requires GetU16(m, at - 10) == RealType(b) && GetU16(m, at - 8) == h.cls
    requires GetU32(m, at - 6) == h.ttl && GetU16(m, at - 2) == length
    requires DecodeName(m, pos) == if first then Ok(NameEnd(h.name, at - 10)) else Err(TooManyPtr)
    requires DecodeBody(m, at, RealType(b), length) == if second then Ok(Filled(b, at)) else Err(TooManyPtr)
    ensures DecodeResource(m, pos)
         == if first && second then Ok(ItemEnd(FilledRecord(h, b, at, length), at + length)) else Err(TooManyPtr)
  {
  }

  /** Whatever its type field says, writing a record keeps the table sound. */
  lemma RecordKeepsTable(m: bytes, pos: nat, h: ResourceHeader, typ: uint16, b: Body, t: Table, w: bytes)
    requires TableSound(m, t) && Written(m, pos, EncodeRecord(h, typ, b, pos, t), w)
    ensures TableSound(m, EncodeRecord(h, typ, b, pos, t).table)
  {
    var name, t1, body := RecordParts(m, pos, h, typ, b, t, w);
    PackedNameKeepsTable(m, pos, h.name, t, name);
    BodyKeepsTable(m, pos + |name| + 10, b, t1, body);
  }

  lemma BodyKeepsTable(m: bytes, pos: nat, b: Body, t: Table, w: bytes)
    requires TableSound(m, t) && Written(m, pos, EncodeBody(b, pos, t), w) && |w| <= MAX_UINT16
    ensures TableSound(m, EncodeBody(b, pos, t).table)
  {
    if !b.Unknown? && !b.NilBody? {
      WrittenBodyReadsBack(m, pos, b, t, w);
    }
  }

  lemma QuestionReadsBack(m: bytes, pos: nat, q: Question, t: Table, w: bytes)
    requires TableSound(m, t) && Written(m, pos, EncodeQuestion(q, pos, t), w)
    ensures DecodeQuestion(m, pos)
         == if PointersUsed(m, q.name, t) <= MAX_POINTERS then Ok(ItemEnd(q, pos + |w|)) else Err(TooManyPtr)
    ensures TableSound(m, EncodeQuestion(q, pos, t).table)
  {
    var name := EncodeName(q.name, pos, t).out.value;
    AtParts(m, pos, name, U16(q.typ) + U16(q.cls));
    AtParts(m, pos + |name|, U16(q.typ), U16(q.cls));
    PackedNameReadsBack(m, pos, q.name, t, name);
    PackedNameKeepsTable(m, pos, q.name, t, name);
    U16At(m, pos + |name|, q.typ);
    U16At(m, pos + |name| + 2, q.cls);
  }
}
