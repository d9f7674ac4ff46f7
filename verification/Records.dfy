/** Resource records: header, bodies, and their wire forms (internal/dnsmessage/message.go). */
module Records {
  import opened Wire
  import opened Names
  import opened Compression

  const TYPE_A: uint16 := 1
  const TYPE_NS: uint16 := 2
  const TYPE_CNAME: uint16 := 5
  const TYPE_SOA: uint16 := 6
  const TYPE_PTR: uint16 := 12
  const TYPE_MX: uint16 := 15
  const TYPE_TXT: uint16 := 16
  const TYPE_AAAA: uint16 := 28
  const TYPE_SRV: uint16 := 33
  const TYPE_OPT: uint16 := 41
  const TYPE_SVCB: uint16 := 64
  const TYPE_HTTPS: uint16 := 65

  type Octets4 = b: bytes | |b| == 4 witness [0, 0, 0, 0]
  type Octets16 = b: bytes | |b| == 16 witness seq(16, _ => 0)

  datatype EdnsOption = EdnsOption(code: uint16, data: bytes, dataOffset: nat)
  datatype Param = Param(key: uint16, value: bytes)

  datatype Body =
    | NilBody
    | A(a: Octets4)
    | NS(ns: bytes)
    | CNAME(cname: bytes)
    | SOA(soaNs: bytes, mbox: bytes, serial: uint32, refresh: uint32, retry: uint32, expire: uint32, minTtl: uint32)
    | PTR(ptr: bytes)
    | MX(pref: uint16, mx: bytes)
    | TXT(texts: seq<bytes>)
    | AAAA(aaaa: Octets16)
    | SRV(srvPriority: uint16, weight: uint16, port: uint16, srvTarget: bytes)
    | OPT(options: seq<EdnsOption>)
    | SVCB(priority: uint16, target: bytes, params: seq<Param>)
    | HTTPS(priority: uint16, target: bytes, params: seq<Param>)
    | Unknown(unknownType: uint16, data: bytes)

  datatype ResourceHeader = ResourceHeader(name: bytes, typ: uint16, cls: uint16, ttl: uint32, length: uint16)
  datatype Resource = Resource(header: ResourceHeader, body: Body)
  datatype Question = Question(name: bytes, typ: uint16, cls: uint16)

  function RealType(b: Body): uint16
    requires !b.NilBody?
  {
    match b
    case A(_) => TYPE_A
    case NS(_) => TYPE_NS
    case CNAME(_) => TYPE_CNAME
    case SOA(_, _, _, _, _, _, _) => TYPE_SOA
    case PTR(_) => TYPE_PTR
    case MX(_, _) => TYPE_MX
    case TXT(_) => TYPE_TXT
    case AAAA(_) => TYPE_AAAA
    case SRV(_, _, _, _) => TYPE_SRV
    case OPT(_) => TYPE_OPT
    case SVCB(_, _, _) => TYPE_SVCB
    case HTTPS(_, _, _) => TYPE_HTTPS
    case Unknown(typ, _) => typ
  }

  predicate KnownType(typ: uint16) {
    typ in {TYPE_A, TYPE_NS, TYPE_CNAME, TYPE_SOA, TYPE_PTR, TYPE_MX, TYPE_TXT, TYPE_AAAA, TYPE_SRV,
            TYPE_OPT, TYPE_SVCB, TYPE_HTTPS}
  }

  // ---------- Writing ----------

  /** Text and options with no length in front are written one after the other. */
  function EncodeTexts(texts: seq<bytes>): Result<bytes> {
    if texts == [] then Ok([])
    else if |texts[0]| > 255 then Err(StringTooLong)
    else Prepend([|texts[0]|] + texts[0], EncodeTexts(texts[1..]))
  }

  function Prepend(head: bytes, tail: Result<bytes>): Result<bytes> {
    if tail.Ok? then Ok(head + tail.value) else tail
  }

  /** The length field keeps the low 16 bits of the data's length. */
  function EncodeOption(code: uint16, data: bytes): (b: bytes)
    ensures |b| == 4 + |data|
  {
    U16(code) + U16(|data| % 0x1_0000) + data
  }

  function EncodeOptions(options: seq<EdnsOption>): bytes {
    if options == [] then []
    else EncodeOption(options[0].code, options[0].data) + EncodeOptions(options[1..])
  }

  function AsOptions(params: seq<Param>): (options: seq<EdnsOption>)
    ensures |options| == |params|
  {
    seq(|params|, i requires 0 <= i < |params| => EdnsOption(params[i].key, params[i].value, 0))
  }

  /** Parameters in increasing key order. Equal keys keep their order here. */
  function Sorted(params: seq<Param>): (sorted: seq<Param>)
    ensures |sorted| == |params|
  {
    if params == [] then [] else Insert(params[0], Sorted(params[1..]))
  }

  function Insert(p: Param, sorted: seq<Param>): (r: seq<Param>)
    ensures |r| == |sorted| + 1
  {
    if sorted == [] || p.key <= sorted[0].key then [p] + sorted
    else [sorted[0]] + Insert(p, sorted[1..])
  }

  ghost predicate Increasing(params: seq<Param>) {
    forall i, j :: 0 <= i < j < |params| ==> params[i].key <= params[j].key
  }

  lemma {:induction false} InsertAdds(p: Param, sorted: seq<Param>)
    ensures multiset(Insert(p, sorted)) == multiset(sorted) + multiset{p}
  {
    if sorted != [] && p.key > sorted[0].key {
      InsertAdds(p, sorted[1..]);
      assert sorted == [sorted[0]] + sorted[1..];
    }
  }

  /** Keys no smaller than `low` stay so, and increasing keys too. */
  lemma {:induction false} InsertSorts(p: Param, sorted: seq<Param>, low: uint16)
    requires Increasing(sorted) && low <= p.key && (sorted != [] ==> low <= sorted[0].key)
    ensures Increasing(Insert(p, sorted)) && low <= Insert(p, sorted)[0].key
  {
    if sorted != [] && p.key > sorted[0].key {
      InsertSorts(p, sorted[1..], sorted[0].key);
    }
  }

  /** The parameters on the wire are the caller's, in the order that the format asks for. */
  lemma {:induction false} SortedIsSorted(params: seq<Param>)
    ensures Increasing(Sorted(params)) && multiset(Sorted(params)) == multiset(params)
  {
    if params != [] {
      SortedIsSorted(params[1..]);
      InsertSorts(params[0], Sorted(params[1..]), 0);
      InsertAdds(params[0], Sorted(params[1..]));
      OneAside(params);
    }
  }

  predicate DistinctKeys(params: seq<Param>) {
    forall i, j :: 0 <= i < j < |params| ==> params[i].key != params[j].key
  }

  /** With distinct keys there is only one order, whatever the sort. */
  lemma {:induction false} OnlyOneOrder(a: seq<Param>, b: seq<Param>)
    requires Increasing(a) && Increasing(b) && multiset(a) == multiset(b) && DistinctKeys(a)
    ensures a == b
    decreases |a|
  {
    assert |multiset(a)| == |a| && |multiset(b)| == |b|;
    if a != [] {
      SameFirst(a, b);
      SameOthers(a, b);
      TailInOrder(a);
      TailInOrder(b);
      OnlyOneOrder(a[1..], b[1..]);
      assert a == [a[0]] + a[1..] && b == [b[0]] + b[1..];
    }
  }

  lemma TailInOrder(params: seq<Param>)
    requires params != [] && Increasing(params)
    ensures Increasing(params[1..]) && (DistinctKeys(params) ==> DistinctKeys(params[1..]))
  {
  }

  lemma SameOthers(a: seq<Param>, b: seq<Param>)
    requires a != [] && b != [] && a[0] == b[0] && multiset(a) == multiset(b)
    ensures multiset(a[1..]) == multiset(b[1..])
  {
    OneAside(a);
    OneAside(b);
    assert multiset(a[1..]) == multiset(a) - multiset{a[0]} && multiset(b[1..]) == multiset(b) - multiset{b[0]};
  }

  lemma SameFirst(a: seq<Param>, b: seq<Param>)
    requires a != [] && b != [] && Increasing(a) && Increasing(b) && multiset(a) == multiset(b) && DistinctKeys(a)
    ensures a[0] == b[0]
  {
    assert a[0] in multiset(b) && b[0] in multiset(a);
    var i :| 0 <= i < |a| && a[i] == b[0];
    var j :| 0 <= j < |b| && b[j] == a[0];
  }

  lemma OneAside(params: seq<Param>)
    requires params != []
    ensures multiset(params) == multiset(params[1..]) + multiset{params[0]}
  {
    assert params == [params[0]] + params[1..];
  }

  function SoaTail(b: Body): bytes
    requires b.SOA?
  {
    U32(b.serial) + U32(b.refresh) + U32(b.retry) + U32(b.expire) + U32(b.minTtl)
  }

  function Suffixed(e: Encoded, tail: bytes): Encoded {
    Encoded(if e.out.Ok? then Ok(e.out.value + tail) else e.out, e.table)
  }

  /** A name that never takes part in compression. */
  function EncodePlainName(n: bytes, pos: nat): Result<bytes> {
    EncodeName(n, pos, None).out
  }

  function EncodeBody(b: Body, pos: nat, t: Table): Encoded {
    match b
    case NilBody => Encoded(Err(NilResourceBody), t)
    case A(a) => Encoded(Ok(a), t)
    case NS(n) => EncodeName(n, pos, t)
    case CNAME(n) => EncodeName(n, pos, t)
    case SOA(ns, mbox, _, _, _, _, _) => EncodeSoa(ns, mbox, SoaTail(b), pos, t)
    case PTR(n) => EncodeName(n, pos, t)
    case MX(pref, n) => Prefixed(U16(pref), EncodeName(n, pos + 2, t))
    case TXT(texts) => Encoded(EncodeTexts(texts), t)
    case AAAA(a) => Encoded(Ok(a), t)
    case SRV(priority, weight, port, n) =>
      Encoded(Prepend(U16(priority) + U16(weight) + U16(port), EncodePlainName(n, pos + 6)), t)
    case OPT(options) => Encoded(Ok(EncodeOptions(options)), t)
    case SVCB(priority, n, params) => Encoded(EncodeService(priority, n, params, pos), t)
    case HTTPS(priority, n, params) => Encoded(EncodeService(priority, n, params, pos), t)
    case Unknown(_, data) => Encoded(Ok(data), t)
  }

  function EncodeSoa(ns: bytes, mbox: bytes, tail: bytes, pos: nat, t: Table): Encoded {
    var first := EncodeName(ns, pos, t);
    if first.out.Err? then first
    else Prefixed(first.out.value, Suffixed(EncodeName(mbox, pos + |first.out.value|, first.table), tail))
  }

  function EncodeService(priority: uint16, n: bytes, params: seq<Param>, pos: nat): Result<bytes> {
    var name := EncodePlainName(n, pos + 2);
    if name.Err? then name else Ok(U16(priority) + (name.value + EncodeOptions(AsOptions(Sorted(params)))))
  }

  /** The ten bytes between a record's name and its body. */
  function Fixed(typ: uint16, cls: uint16, ttl: uint32, length: uint16): (b: bytes)
    ensures |b| == 10
  {
    U16(typ) + U16(cls) + U32(ttl) + U16(length)
  }

  /** A record whose length field is right from the start. The code writes it with a stale length
      and patches it afterwards (Packing.PatchedRecord shows that the bytes are the same). */
  function EncodeRecord(h: ResourceHeader, typ: uint16, b: Body, pos: nat, t: Table): Encoded {
    var name := EncodeName(h.name, pos, t);
    if name.out.Err? then name
    else
      var body := EncodeBody(b, pos + |name.out.value| + 10, name.table);
      if body.out.Err? then body
      else if |body.out.value| > MAX_UINT16 then Encoded(Err(ResTooLong), body.table)
      else Prefixed(name.out.value, Prefixed(Fixed(typ, h.cls, h.ttl, |body.out.value|), body))
  }

  function EncodeQuestion(q: Question, pos: nat, t: Table): Encoded {
    Suffixed(EncodeName(q.name, pos, t), U16(q.typ) + U16(q.cls))
  }

  // ---------- Reading ----------

  datatype HeaderEnd = HeaderEnd(header: ResourceHeader, end: nat)
  datatype Decoded<+T> = ItemEnd(item: T, end: nat)

  function DecodeQuestion(m: bytes, off: nat): Result<Decoded<Question>> {
    match DecodeName(m, off)
    case Err(e) => Err(e)
    case Ok(n) =>
      if n.end + 4 > |m| then Err(BaseLen)
      else Ok(ItemEnd(Question(n.name, GetU16(m, n.end), GetU16(m, n.end + 2)), n.end + 4))
  }

  function DecodeHeader(m: bytes, off: nat): (r: Result<HeaderEnd>)
    ensures r.Ok? ==> off + 11 <= r.value.end <= |m|
  {
    match DecodeName(m, off)
    case Err(e) => Err(e)
    case Ok(n) => if n.end + 10 > |m| then Err(BaseLen) else Ok(HeaderEnd(HeaderAt(m, n.name, n.end), n.end + 10))
  }

  function HeaderAt(m: bytes, name: bytes, at: nat): ResourceHeader
    requires at + 10 <= |m|
  {
    ResourceHeader(name, GetU16(m, at), GetU16(m, at + 2), GetU32(m, at + 4), GetU16(m, at + 8))
  }

  function DecodeTexts(m: bytes, off: nat, left: nat): Result<seq<bytes>>
    decreases left
  {
    if left == 0 then Ok([])
    else if off >= |m| then Err(BaseLen)
    else if off + 1 + m[off] > |m| || left < 1 + m[off] as int then Err(CalcLen)
    else
      match DecodeTexts(m, off + 1 + m[off], left - (1 + m[off] as int))
      case Ok(rest) => Ok([Slice(m, off + 1, m[off])] + rest)
      case Err(e) => Err(e)
  }

  /** Code, length, data, again and again until `end` is reached or passed. */
  function DecodeOptions(m: bytes, off: nat, end: nat): Result<seq<EdnsOption>>
    decreases |m| - off
  {
    if off >= end then Ok([])
    else if off + 4 > |m| then Err(BaseLen)
    else if off + 4 + GetU16(m, off + 2) > |m| then Err(CalcLen)
    else
      var next := off + 4 + GetU16(m, off + 2);
      match DecodeOptions(m, next, end)
      case Ok(rest) => Ok([EdnsOption(GetU16(m, off), Slice(m, off + 4, GetU16(m, off + 2)), off + 4)] + rest)
      case Err(e) => Err(e)
  }

  function AsParams(options: seq<EdnsOption>): (params: seq<Param>)
    ensures |params| == |options|
  {
    seq(|options|, i requires 0 <= i < |options| => Param(options[i].code, options[i].data))
  }

  datatype Service = Service(priority: uint16, target: bytes, params: seq<Param>)

  function DecodeService(m: bytes, off: nat, length: uint16): Result<Service> {
    if off + 2 > |m| then Err(BaseLen)
    else
      match DecodeName(m, off + 2)
      case Err(e) => Err(e)
      case Ok(n) =>
        match DecodeOptions(m, n.end, off + length)
        case Err(e) => Err(e)
        case Ok(options) => Ok(Service(GetU16(m, off), n.name, AsParams(options)))
  }

  function DecodeSoa(m: bytes, off: nat): Result<Body> {
    match DecodeName(m, off)
    case Err(e) => Err(e)
    case Ok(ns) =>
      match DecodeName(m, ns.end)
      case Err(e) => Err(e)
      case Ok(mbox) =>
        var at := mbox.end;
        if at + 20 > |m| then Err(BaseLen)
        else Ok(SOA(ns.name, mbox.name, GetU32(m, at), GetU32(m, at + 4), GetU32(m, at + 8),
                    GetU32(m, at + 12), GetU32(m, at + 16)))
  }

  /** The body of a record. Only the TXT, OPT, SVCB, HTTPS and unknown bodies look at the length field. */
  function DecodeBody(m: bytes, off: nat, typ: uint16, length: uint16): Result<Body> {
    if typ == TYPE_A then
      if off + 4 > |m| then Err(BaseLen) else Ok(A(Slice(m, off, 4)))
    else if typ == TYPE_NS then
      match DecodeName(m, off) case Ok(n) => Ok(NS(n.name)) case Err(e) => Err(e)
    else if typ == TYPE_CNAME then
      match DecodeName(m, off) case Ok(n) => Ok(CNAME(n.name)) case Err(e) => Err(e)
    else if typ == TYPE_SOA then
      DecodeSoa(m, off)
    else if typ == TYPE_PTR then
      match DecodeName(m, off) case Ok(n) => Ok(PTR(n.name)) case Err(e) => Err(e)
    else if typ == TYPE_MX then
      if off + 2 > |m| then Err(BaseLen)
      else match DecodeName(m, off + 2) case Ok(n) => Ok(MX(GetU16(m, off), n.name)) case Err(e) => Err(e)
    else if typ == TYPE_TXT then
      match DecodeTexts(m, off, length) case Ok(texts) => Ok(TXT(texts)) case Err(e) => Err(e)
    else if typ == TYPE_AAAA then
      if off + 16 > |m| then Err(BaseLen) else Ok(AAAA(Slice(m, off, 16)))
    else if typ == TYPE_SRV then
      if off + 6 > |m| then Err(BaseLen)
      else
        match DecodeName(m, off + 6)
        case Ok(n) => Ok(SRV(GetU16(m, off), GetU16(m, off + 2), GetU16(m, off + 4), n.name))
        case Err(e) => Err(e)
    else if typ == TYPE_SVCB then
      match DecodeService(m, off, length) case Ok(s) => Ok(SVCB(s.priority, s.target, s.params)) case Err(e) => Err(e)
    else if typ == TYPE_HTTPS then
      match DecodeService(m, off, length) case Ok(s) => Ok(HTTPS(s.priority, s.target, s.params)) case Err(e) => Err(e)
    else if typ == TYPE_OPT then
      match DecodeOptions(m, off, off + length) case Ok(options) => Ok(OPT(options)) case Err(e) => Err(e)
    else if off + length > |m| then Err(BaseLen)
    else Ok(Unknown(typ, Slice(m, off, length)))
  }

  /** A record and the offset behind it: header end plus length field, whatever the body took. */
  function DecodeResource(m: bytes, off: nat): Result<Decoded<Resource>> {
    match DecodeHeader(m, off)
    case Err(e) => Err(e)
    case Ok(h) =>
      match DecodeBody(m, h.end, h.header.typ, h.header.length)
      case Err(e) => Err(e)
      case Ok(body) => Ok(ItemEnd(Resource(h.header, body), h.end + h.header.length))
  }

  /** Skipping a record checks its header's shape and that its body lies inside the message. */
  function SkipResource(m: bytes, off: nat): Result<nat> {
    match SkipEnd(m, off)
    case Err(e) => Err(e)
    case Ok(at) =>
      if at + 10 > |m| then Err(BaseLen)
      else if at + 10 + GetU16(m, at + 8) > |m| then Err(ResourceLen)
      else Ok(at + 10 + GetU16(m, at + 8))
  }

  function SkipQuestion(m: bytes, off: nat): Result<nat> {
    match SkipEnd(m, off)
    case Err(e) => Err(e)
    case Ok(at) => if at + 4 > |m| then Err(BaseLen) else Ok(at + 4)
  }
}
