/** Whole messages: header bits, packing, and reading item by item (internal/dnsmessage/message.go). */
module Messages {
  import opened Wire
  import opened Compression
  import opened Records
  import opened Sequences

  const HEADER_LEN := 12

  /** How far a builder or a parser has come. */
  type Section = s: int | 0 <= s <= 6

  const SECTION_NOT_STARTED: Section := 0
  const SECTION_HEADER: Section := 1
  const SECTION_QUESTIONS: Section := 2
  const SECTION_ANSWERS: Section := 3
  const SECTION_AUTHORITIES: Section := 4
  const SECTION_ADDITIONALS: Section := 5
  const SECTION_DONE: Section := 6

  const HEADER_QR: bv16 := 0x8000
  const HEADER_AA: bv16 := 0x0400
  const HEADER_TC: bv16 := 0x0200
  const HEADER_RD: bv16 := 0x0100
  const HEADER_RA: bv16 := 0x0080
  const HEADER_AD: bv16 := 0x0020
  const HEADER_CD: bv16 := 0x0010

  datatype Header = Header(
    id: uint16, response: bool, opCode: bv16, authoritative: bool, truncated: bool, recursionDesired: bool,
    recursionAvailable: bool, authenticData: bool, checkingDisabled: bool, rCode: bv16)

  datatype Message = Message(
    header: Header, questions: seq<Question>, answers: seq<Resource>, authorities: seq<Resource>, additionals: seq<Resource>)

  /** The header on the wire. */
  datatype WireHeader = WireHeader(
    id: uint16, bits: uint16, questions: uint16, answers: uint16, authorities: uint16, additionals: uint16)

  function CountOf(h: WireHeader, s: Section): uint16
    requires SECTION_QUESTIONS <= s <= SECTION_ADDITIONALS
  {
    if s == SECTION_QUESTIONS then h.questions
    else if s == SECTION_ANSWERS then h.answers
    else if s == SECTION_AUTHORITIES then h.authorities
    else h.additionals
  }

  // ---------- Header bits ----------

  function Flag(on: bool, bit: bv16): bv16 {
    if on then bit else 0
  }

  function HeaderBits(h: Header): bv16 {
    (h.opCode << 11) | h.rCode
    | Flag(h.recursionAvailable, HEADER_RA) | Flag(h.recursionDesired, HEADER_RD) | Flag(h.truncated, HEADER_TC)
    | Flag(h.authoritative, HEADER_AA) | Flag(h.response, HEADER_QR) | Flag(h.authenticData, HEADER_AD)
    | Flag(h.checkingDisabled, HEADER_CD)
  }

  function HeaderOf(id: uint16, bits: bv16): Header {
    Header(id, bits & HEADER_QR != 0, (bits >> 11) & 0xF, bits & HEADER_AA != 0, bits & HEADER_TC != 0,
           bits & HEADER_RD != 0, bits & HEADER_RA != 0, bits & HEADER_AD != 0, bits & HEADER_CD != 0, bits & 0xF)
  }

  /** The other way round, only the reserved bit is lost. */
  lemma BitsRoundTrip(id: uint16, bits: bv16)
    ensures HeaderBits(HeaderOf(id, bits)) == bits & 0xFFBF
  {
  }

  function HeaderNumber(h: Header): uint16 {
    HeaderBits(h) as int
  }

  function HeaderFrom(id: uint16, number: uint16): Header {
    HeaderOf(id, number as bv16)
  }

  lemma BitsAsNumber(bits: bv16)
    ensures bits as int as bv16 == bits
  {
  }

  lemma BitsSurvive(h: Header)
    ensures HeaderOf(h.id, HeaderBits(h)) == h <==> h.opCode <= 15 && h.rCode <= 15
  {
    var r := HeaderOf(h.id, HeaderBits(h));
    assert r.opCode <= 15 && r.rCode <= 15;
  }

  /** The header survives packing exactly when both codes fit their four bits. */
  lemma HeaderRoundTrip(h: Header)
    ensures HeaderFrom(h.id, HeaderNumber(h)) == h <==> h.opCode <= 15 && h.rCode <= 15
  {
    BitsAsNumber(HeaderBits(h));
    BitsSurvive(h);
  }

  function EncodeHeader(h: WireHeader): (b: bytes)
    ensures |b| == HEADER_LEN
  {
    U16(h.id) + U16(h.bits) + U16(h.questions) + U16(h.answers) + U16(h.authorities) + U16(h.additionals)
  }

  function DecodeWireHeader(m: bytes): Result<WireHeader> {
    if |m| < HEADER_LEN then Err(BaseLen)
    else Ok(WireHeader(GetU16(m, 0), GetU16(m, 2), GetU16(m, 4), GetU16(m, 6), GetU16(m, 8), GetU16(m, 10)))
  }

  lemma HeaderReadsBack(m: bytes, h: WireHeader)
    requires At(m, 0, EncodeHeader(h))
    ensures DecodeWireHeader(m) == Ok(h)
  {
    AtParts(m, 0, U16(h.id) + U16(h.bits) + U16(h.questions) + U16(h.answers) + U16(h.authorities), U16(h.additionals));
    AtParts(m, 0, U16(h.id) + U16(h.bits) + U16(h.questions) + U16(h.answers), U16(h.authorities));
    AtParts(m, 0, U16(h.id) + U16(h.bits) + U16(h.questions), U16(h.answers));
    AtParts(m, 0, U16(h.id) + U16(h.bits), U16(h.questions));
    AtParts(m, 0, U16(h.id), U16(h.bits));
    U16At(m, 0, h.id);
    U16At(m, 2, h.bits);
    U16At(m, 4, h.questions);
    U16At(m, 6, h.answers);
    U16At(m, 8, h.authorities);
    U16At(m, 10, h.additionals);
  }

  // ---------- Writing ----------

  /** A record of a message: its header gets the type of its body. */
  function EncodeResource(r: Resource, pos: nat, t: Table): Encoded {
    if r.body.NilBody? then Encoded(Err(NilResourceBody), t)
    else EncodeRecord(r.header, RealType(r.body), r.body, pos, t)
  }

  /** One more section of records behind what was written from `pos` on. */
  function Then(enc: Encoder<Resource>, e: Encoded, pos: nat, rs: seq<Resource>): Encoded {
    if e.out.Err? then e
    else Prefixed(e.out.value, EncodeItems(enc, rs, pos + |e.out.value|, e.table))
  }

  /** The sections of a message, behind its header. */
  function ContentOf(enc: Encoder<Resource>, m: Message, t: Table): Encoded {
    var qs := EncodeItems(EncodeQuestion, m.questions, HEADER_LEN, t);
    Then(enc, Then(enc, Then(enc, qs, HEADER_LEN, m.answers), HEADER_LEN, m.authorities), HEADER_LEN, m.additionals)
  }

  function Content(m: Message, t: Table): Encoded {
    ContentOf(EncodeResource, m, t)
  }

  predicate Countable(m: Message) {
    |m.questions| <= MAX_UINT16 && |m.answers| <= MAX_UINT16 && |m.authorities| <= MAX_UINT16 && |m.additionals| <= MAX_UINT16
  }

  function WireHeaderOf(m: Message, bits: uint16): WireHeader
    requires Countable(m)
  {
    WireHeader(m.header.id, bits, |m.questions|, |m.answers|, |m.authorities|, |m.additionals|)
  }

  /** The message on the wire, starting from the table `t`, without what the caller's buffer held before. */
  function EncodeAs(enc: Encoder<Resource>, m: Message, bits: uint16, t: Table): Result<bytes> {
    if |m.questions| > MAX_UINT16 then Err(TooManyQuestions)
    else if |m.answers| > MAX_UINT16 then Err(TooManyAnswers)
    else if |m.authorities| > MAX_UINT16 then Err(TooManyAuthorities)
    else if |m.additionals| > MAX_UINT16 then Err(TooManyAdditionals)
    else Prefixed(EncodeHeader(WireHeaderOf(m, bits)), ContentOf(enc, m, t)).out
  }

  function EncodeWith(m: Message, bits: uint16, t: Table): Result<bytes> {
    EncodeAs(EncodeResource, m, bits, t)
  }

  const EMPTY_TABLE: Table := Some(map[])

  /** Packing a whole message starts with an empty compression table. */
  function EncodeMessage(m: Message): Result<bytes> {
    EncodeWith(m, HeaderNumber(m.header), EMPTY_TABLE)
  }

  // ---------- Reading ----------

  /** The sections of a message behind its wire header. */
  datatype Sections = Sections(
    header: WireHeader, questions: seq<Question>, answers: seq<Resource>, authorities: seq<Resource>, additionals: seq<Resource>)

  /** A message, section by section: what Message.Unpack collects with its parser. */
  function DecodeSections(m: bytes): Result<Sections> {
    match DecodeWireHeader(m)
    case Err(e) => Err(e)
    case Ok(h) =>
      match ReadItems(DecodeQuestion, m, HEADER_LEN, h.questions)
      case Err(e) => Err(e)
      case Ok(qs) =>
        match ReadItems(DecodeResource, m, qs.end, h.answers)
        case Err(e) => Err(e)
        case Ok(an) =>
          match ReadItems(DecodeResource, m, an.end, h.authorities)
          case Err(e) => Err(e)
          case Ok(ns) =>
            match ReadItems(DecodeResource, m, ns.end, h.additionals)
            case Err(e) => Err(e)
            case Ok(ar) => Ok(Sections(h, qs.items, an.items, ns.items, ar.items))
  }

  function DecodeMessage(m: bytes): Result<Message> {
    match DecodeSections(m)
    case Err(e) => Err(e)
    case Ok(s) =>
      Ok(Message(HeaderFrom(s.header.id, s.header.bits), s.questions, s.answers, s.authorities, s.additionals))
  }
}
