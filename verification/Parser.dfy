/** The incremental message parser: a machine of section, index, offset and a remembered record header
    (internal/dnsmessage/message.go). */
module Parsing {
  import opened Wire
  import opened Names
  import opened Records
  import opened Messages
  import opened Sequences
  import opened Unpacking

  /** The parser's fields. */
  datatype Snapshot<+M> = Snapshot(
    msg: M, header: WireHeader, section: Section, off: nat, index: nat,
    valid: bool, resOffset: nat, resType: uint16, resLength: uint16)
  type PState = Snapshot<bytes>

  datatype Outcome<+S, +T> = Outcome(state: S, result: Result<T>)
  type Out<+T> = Outcome<PState, T>

  predicate ItemSection(s: Section) {
    SECTION_QUESTIONS <= s <= SECTION_ADDITIONALS
  }

  predicate RecordSection(s: Section) {
    SECTION_ANSWERS <= s <= SECTION_ADDITIONALS
  }

  // ---------- The steps ----------

  const NO_HEADER := WireHeader(0, 0, 0, 0, 0, 0)

  /** The header fields that a message too short for all of them still fills. */
  function PartialHeader(m: bytes): WireHeader {
    WireHeader(FieldOr0(m, 0), FieldOr0(m, 2), FieldOr0(m, 4), FieldOr0(m, 6), FieldOr0(m, 8), FieldOr0(m, 10))
  }

  function FieldOr0(m: bytes, off: nat): uint16 {
    if off + 2 <= |m| then GetU16(m, off) else 0
  }

  function Started(m: bytes): PState {
    if |m| < HEADER_LEN then Snapshot(m, PartialHeader(m), SECTION_NOT_STARTED, 0, 0, false, 0, 0, 0)
    else Snapshot(m, PartialHeader(m), SECTION_QUESTIONS, HEADER_LEN, 0, false, 0, 0, 0)
  }

  /** The check in front of every item: the right section, and items left in it. */
  function Advance(p: PState, sec: Section): Out<()>
    requires ItemSection(sec)
  {
    if p.section < sec then Outcome(p, Err(NotStarted))
    else if p.section > sec then Outcome(p, Err(SectionDone))
    else if p.index == CountOf(p.header, sec) then
      Outcome(p.(valid := false, index := 0, section := p.section + 1), Err(SectionDone))
    else Outcome(p.(valid := false), Ok(()))
  }

  /** A header that was read before is read again from its start. */
  function Rewound(p: PState): PState {
    if p.valid then p.(off := p.resOffset) else p
  }

  function ReadHeader(p: PState, sec: Section): Out<ResourceHeader>
    requires RecordSection(sec)
  {
    var a := Advance(Rewound(p), sec);
    if a.result.Err? then Outcome(a.state, Err(a.result.error))
    else
      match DecodeHeader(a.state.msg, a.state.off)
      case Err(e) => Outcome(a.state, Err(e))
      case Ok(h) => Outcome(Remembering(a.state, h), Ok(h.header))
  }

  function Remembering(p: PState, h: HeaderEnd): PState {
    p.(valid := true, resOffset := p.off, resType := h.header.typ, resLength := h.header.length, off := h.end)
  }

  /** Behind a record's body. */
  function Consumed(p: PState): PState {
    p.(off := p.off + p.resLength, valid := false, index := p.index + 1)
  }

  function ReadResource(p: PState, sec: Section): Out<Resource>
    requires RecordSection(sec)
  {
    var h := ReadHeader(p, sec);
    match h.result
    case Err(e) => Outcome(h.state, Err(e))
    case Ok(header) =>
      match DecodeBody(h.state.msg, h.state.off, header.typ, header.length)
      case Err(e) => Outcome(h.state.(valid := false), Err(e))
      case Ok(b) => Outcome(Consumed(h.state), Ok(Resource(header, b)))
  }

  function SkipRecord(p: PState, sec: Section): Out<()>
    requires RecordSection(sec)
  {
    if p.valid && p.section == sec then
      if p.off + p.resLength > |p.msg| then Outcome(p, Err(ResourceLen)) else Outcome(Consumed(p), Ok(()))
    else
      var a := Advance(p, sec);
      if a.result.Err? then a
      else
        match SkipResource(a.state.msg, a.state.off)
        case Err(e) => Outcome(a.state, Err(e))
        case Ok(end) => Outcome(a.state.(off := end, index := a.state.index + 1), Ok(()))
  }

  function ReadQuestion(p: PState): Out<Question> {
    var a := Advance(p, SECTION_QUESTIONS);
    if a.result.Err? then Outcome(a.state, Err(a.result.error))
    else
      match DecodeQuestion(a.state.msg, a.state.off)
      case Err(e) => Outcome(a.state, Err(e))
      case Ok(q) => Outcome(a.state.(off := q.end, index := a.state.index + 1), Ok(q.item))
  }

  function SkipOneQuestion(p: PState): Out<()> {
    var a := Advance(p, SECTION_QUESTIONS);
    if a.result.Err? then a
    else
      match SkipQuestion(a.state.msg, a.state.off)
      case Err(e) => Outcome(a.state, Err(e))
      case Ok(end) => Outcome(a.state.(off := end, index := a.state.index + 1), Ok(()))
  }

  /** CNAMEResource and its kin: the body of the header just read, if it has the wanted type. */
  function ReadTypedBody(p: PState, typ: uint16): Out<Body>
    requires KnownType(typ)
  {
    if !p.valid || p.resType != typ then Outcome(p, Err(NotStarted))
    else
      match DecodeBody(p.msg, p.off, typ, p.resLength)
      case Err(e) => Outcome(p, Err(e))
      case Ok(b) => Outcome(Consumed(p), Ok(b))
  }

  /** UnknownResource: the body as bytes, whatever its type. */
  function ReadUnknownBody(p: PState): Out<Body> {
    if !p.valid then Outcome(p, Err(NotStarted))
    else if p.off + p.resLength > |p.msg| then Outcome(p, Err(BaseLen))
    else Outcome(Consumed(p), Ok(Unknown(p.resType, Slice(p.msg, p.off, p.resLength))))
  }

  // ---------- Every run ----------

  /** A remembered header is one that stands in the message; the offset is in front of it or behind it. */
  ghost predicate Remembered(p: PState) {
    && RecordSection(p.section) && p.index < CountOf(p.header, p.section) && p.resOffset >= HEADER_LEN
    && var h := DecodeHeader(p.msg, p.resOffset);
       h.Ok? && h.value.header.typ == p.resType && h.value.header.length == p.resLength && p.off in {p.resOffset, h.value.end}
  }

  /** What every reachable state keeps. */
  ghost predicate Reachable(p: PState) {
    && p.section != SECTION_HEADER
    && p.index <= (if ItemSection(p.section) then CountOf(p.header, p.section) else 0)
    && (p.section != SECTION_NOT_STARTED ==> DecodeWireHeader(p.msg) == Ok(p.header) && p.off >= HEADER_LEN)
    && (p.valid ==> Remembered(p))
  }

  datatype Call =
    | CallQuestion | CallSkipQuestion | CallHeader(sec: Section) | CallResource(sec: Section) | CallSkip(sec: Section)
    | CallTypedBody(typ: uint16) | CallUnknownBody

  predicate Callable(c: Call) {
    match c
    case CallHeader(sec) => RecordSection(sec)
    case CallResource(sec) => RecordSection(sec)
    case CallSkip(sec) => RecordSection(sec)
    case CallTypedBody(typ) => KnownType(typ)
    case _ => true
  }

  function Step(p: PState, c: Call): PState
    requires Callable(c)
  {
    match c
    case CallQuestion => ReadQuestion(p).state
    case CallSkipQuestion => SkipOneQuestion(p).state
    case CallHeader(sec) => ReadHeader(p, sec).state
    case CallResource(sec) => ReadResource(p, sec).state
    case CallSkip(sec) => SkipRecord(p, sec).state
    case CallTypedBody(typ) => ReadTypedBody(p, typ).state
    case CallUnknownBody => ReadUnknownBody(p).state
  }

  function Run(p: PState, calls: seq<Call>): PState
    requires forall c :: c in calls ==> Callable(c)
    decreases |calls|
  {
    if calls == [] then p else Run(Step(p, calls[0]), calls[1..])
  }

  /** Progress of a run: sections only advance, and inside a section the index does not fall. */
  ghost predicate Onward(p: PState, p': PState) {
    p'.msg == p.msg && p'.header == p.header && (p.section < p'.section || (p.section == p'.section && p.index <= p'.index))
  }

  lemma StartedReachable(m: bytes)
    ensures Reachable(Started(m))
  {
  }

  lemma AdvanceKeeps(p: PState, sec: Section)
    requires ItemSection(sec) && Reachable(p)
    ensures var a := Advance(p, sec);
      && Reachable(a.state) && Onward(p, a.state)
      && (a.result.Ok? ==> p.section == sec && a.state.index < CountOf(p.header, sec))
  {
  }

  lemma ReadHeaderKeeps(p: PState, sec: Section)
    requires RecordSection(sec) && Reachable(p)
    ensures var r := ReadHeader(p, sec); Reachable(r.state) && Onward(p, r.state) && (r.result.Ok? ==> r.state.valid)
  {
    AdvanceKeeps(Rewound(p), sec);
  }

  lemma ConsumedKeeps(p: PState)
    requires Reachable(p) && p.valid
    ensures Reachable(Consumed(p)) && Onward(p, Consumed(p))
  {
  }

  lemma QuestionKeeps(p: PState)
    requires Reachable(p)
    ensures Reachable(ReadQuestion(p).state) && Onward(p, ReadQuestion(p).state)
    ensures Reachable(SkipOneQuestion(p).state) && Onward(p, SkipOneQuestion(p).state)
  {
    AdvanceKeeps(p, SECTION_QUESTIONS);
  }

  lemma ReadResourceKeeps(p: PState, sec: Section)
    requires RecordSection(sec) && Reachable(p)
    ensures Reachable(ReadResource(p, sec).state) && Onward(p, ReadResource(p, sec).state)
  {
    ReadHeaderKeeps(p, sec);
    var h := ReadHeader(p, sec);
    if h.result.Ok? {
      ConsumedKeeps(h.state);
    }
  }

  lemma SkipRecordKeeps(p: PState, sec: Section)
    requires RecordSection(sec) && Reachable(p)
    ensures Reachable(SkipRecord(p, sec).state) && Onward(p, SkipRecord(p, sec).state)
  {
    if p.valid && p.section == sec {
      ConsumedKeeps(p);
    } else {
      AdvanceKeeps(p, sec);
    }
  }

  lemma StepKeeps(p: PState, c: Call)
    requires Callable(c) && Reachable(p)
    ensures Reachable(Step(p, c)) && Onward(p, Step(p, c))
  {
    match c {
      case CallQuestion => QuestionKeeps(p);
      case CallSkipQuestion => QuestionKeeps(p);
      case CallHeader(sec) => ReadHeaderKeeps(p, sec);
      case CallResource(sec) => ReadResourceKeeps(p, sec);
      case CallSkip(sec) => SkipRecordKeeps(p, sec);
      case CallTypedBody(_) =>
        if p.valid {
          ConsumedKeeps(p);
        }
      case CallUnknownBody =>
        if p.valid {
          ConsumedKeeps(p);
        }
    }
  }

  lemma {:induction false} RunKeeps(p: PState, calls: seq<Call>)
    requires (forall c :: c in calls ==> Callable(c)) && Reachable(p)
    ensures Reachable(Run(p, calls)) && Onward(p, Run(p, calls))
    decreases |calls|
  {
    if calls != [] {
      StepKeeps(p, calls[0]);
      RunKeeps(Step(p, calls[0]), calls[1..]);
    }
  }

  lemma {:induction false} RunOn(p: PState, calls: seq<Call>, more: seq<Call>)
    requires forall c :: c in calls + more ==> Callable(c)
    ensures (forall c :: c in calls ==> Callable(c)) && (forall c :: c in more ==> Callable(c))
    ensures Run(p, calls + more) == Run(Run(p, calls), more)
    decreases |calls|
  {
    assert forall c :: c in calls ==> c in calls + more;
    assert forall c :: c in more ==> c in calls + more;
    if calls == [] {
      assert calls + more == more;
    } else {
      assert (calls + more)[0] == calls[0] && (calls + more)[1..] == calls[1..] + more;
      RunOn(Step(p, calls[0]), calls[1..], more);
    }
  }

  /** On any bytes, after any calls in any order: the state is reachable, and further calls only move it onward. */
  lemma EveryRun(m: bytes, calls: seq<Call>, more: seq<Call>)
    requires forall c :: c in calls + more ==> Callable(c)
    ensures forall c :: c in calls ==> Callable(c)
    ensures var p := Run(Started(m), calls); Reachable(p) && Onward(p, Run(Started(m), calls + more))
  {
    StartedReachable(m);
    RunOn(Started(m), calls, more);
    RunKeeps(Started(m), calls);
    RunKeeps(Run(Started(m), calls), more);
  }

  // ---------- What calls have to do with each other ----------

  /** Asking for the same header again gives the same header and changes nothing. */
  lemma HeaderTwice(p: PState, sec: Section)
    requires RecordSection(sec) && Reachable(p) && ReadHeader(p, sec).result.Ok?
    ensures ReadHeader(ReadHeader(p, sec).state, sec) == ReadHeader(p, sec)
  {
  }

  /** Looking at the header first does not change what the resource call does. */
  lemma PeekThenRead(p: PState, sec: Section)
    requires RecordSection(sec) && Reachable(p) && ReadHeader(p, sec).result.Ok?
    ensures ReadResource(ReadHeader(p, sec).state, sec) == ReadResource(p, sec)
  {
    HeaderTwice(p, sec);
  }

  /** Header and typed body together are the resource call: the same body, the same state behind it, the same errors; and the
      wrong type is refused without a trace. */
  lemma TypedIsResource(p: PState, sec: Section, typ: uint16)
    requires RecordSection(sec) && Reachable(p) && KnownType(typ) && ReadHeader(p, sec).result.Ok?
    ensures var h, b, r := ReadHeader(p, sec), ReadTypedBody(ReadHeader(p, sec).state, typ), ReadResource(p, sec);
      if h.result.value.typ != typ then b == Outcome(h.state, Err(NotStarted))
      else
        match b.result
        case Ok(body) => r == Outcome(b.state, Ok(Resource(h.result.value, body)))
        case Err(e) => r.result == Err(e) && b.state == h.state
  {
  }

  /** A body read as bytes is the resource call for every type that the reader does not know, errors included; */
  lemma UnknownIsResource(p: PState, sec: Section)
    requires RecordSection(sec) && Reachable(p) && ReadHeader(p, sec).result.Ok? && !KnownType(ReadHeader(p, sec).result.value.typ)
    ensures var h, b, r := ReadHeader(p, sec), ReadUnknownBody(ReadHeader(p, sec).state), ReadResource(p, sec);
      match b.result
      case Ok(body) => r == Outcome(b.state, Ok(Resource(h.result.value, body)))
      case Err(e) => r.result == Err(e) && b.state == h.state
  {
  }

  /** and for every type it succeeds exactly where the body can be skipped, ends where the skip ends, and yields the bytes that
      were skipped. */
  lemma UnknownOrSkip(p: PState, sec: Section)
    requires RecordSection(sec) && Reachable(p) && ReadHeader(p, sec).result.Ok?
    ensures var h, b, skip := ReadHeader(p, sec), ReadUnknownBody(ReadHeader(p, sec).state), SkipRecord(ReadHeader(p, sec).state, sec);
      && (b.result.Ok? <==> skip.result.Ok?) && b.state == skip.state
      && (b.result.Ok? ==> b.result.value == Unknown(h.result.value.typ, p.msg[h.state.off..skip.state.off]))
  {
    var h, b := ReadHeader(p, sec), ReadUnknownBody(ReadHeader(p, sec).state);
    if b.result.Ok? {
      assert Slice(p.msg, h.state.off, h.state.resLength) == p.msg[h.state.off..h.state.off + h.state.resLength];
    }
  }

  /** A skipped question ends where a read one does. */
  lemma QuestionOrSkip(p: PState)
    requires ReadQuestion(p).result.Ok?
    ensures SkipOneQuestion(p) == Outcome(ReadQuestion(p).state, Ok(()))
  {
    ReaderAndSkipperAgree(p.msg, p.off, MAX_POINTERS);
  }

  /** Whatever its body is, a record whose header can be read is skipped to its end, unless that lies beyond the message. */
  lemma HeaderOrSkipAt(m: bytes, off: nat)
    requires DecodeHeader(m, off).Ok?
    ensures var h := DecodeHeader(m, off).value; var end := h.end + h.header.length;
            SkipResource(m, off) == if end <= |m| then Ok(end) else Err(ResourceLen)
  {
    ReaderAndSkipperAgree(m, off, MAX_POINTERS);
  }

  /** Where a record was read, its skipper lands on the same offset, unless it finds the record too long. */
  lemma RecordOrSkipAt(m: bytes, off: nat)
    requires DecodeResource(m, off).Ok?
    ensures var end := DecodeResource(m, off).value.end;
            SkipResource(m, off) == if end <= |m| then Ok(end) else Err(ResourceLen)
  {
    HeaderOrSkipAt(m, off);
  }

  /** Skipping with no header remembered, exactly. */
  lemma SkipExactly(p: PState, sec: Section, h: HeaderEnd)
    requires RecordSection(sec) && !p.valid && p.section == sec && p.index < CountOf(p.header, sec) && DecodeHeader(p.msg, p.off) == Ok(h)
    ensures var end := h.end + h.header.length;
      SkipRecord(p, sec) == if end <= |p.msg| then Outcome(p.(off := end, index := p.index + 1), Ok(())) else Outcome(p, Err(ResourceLen))
  {
    HeaderOrSkipAt(p.msg, p.off);
  }

  /** Calls for a section that the parser is not in, or has finished. */
  lemma SectionErrors(p: PState, sec: Section)
    requires 3 <= sec <= 5 && Reachable(p) && (p.section != sec || p.index == CountOf(p.header, sec))
    ensures var e := if p.section < sec then NotStarted else SectionDone;
      && ReadHeader(p, sec).result == Err(e) && ReadResource(p, sec).result == Err(e) && SkipRecord(p, sec).result == Err(e)
      && SkipRecord(p, sec).state == (if p.section == sec then p.(valid := false, index := 0, section := sec + 1) else p)
  {
  }

  /** The parser stands in front of a header it remembers, as after a header call for another section. */
  predicate RewoundHeader(p: PState, sec: Section) {
    p.valid && p.section == sec && p.off == p.resOffset
  }

  /** When reading and skipping a record from one state both succeed, they end in the same place exactly
      if the parser was not left in front of a remembered header. */
  lemma ReadOrSkip(p: PState, sec: Section)
    requires RecordSection(sec) && Reachable(p) && ReadResource(p, sec).result.Ok? && SkipRecord(p, sec).result.Ok?
    ensures var r, s := ReadResource(p, sec).state, SkipRecord(p, sec).state;
            (r.off == s.off && r.index == s.index && r.section == s.section) <==> !RewoundHeader(p, sec)
  {
    if !p.valid {
      RecordOrSkipAt(p.msg, p.off);
    }
  }

  /** How it gets there: a header call for a later section fails, but has rewound the offset; the skip that
      follows takes the header's start for its end. */
  lemma WrongSectionThenSkip(p: PState, sec: Section, later: Section)
    requires RecordSection(sec) && RecordSection(later) && sec < later && Reachable(p) && ReadHeader(p, sec).result.Ok?
    ensures var h := ReadHeader(p, sec).state;
            var w := ReadHeader(h, later);
            && w == Outcome(Rewound(h), Err(NotStarted)) && RewoundHeader(w.state, sec)
            && (SkipRecord(w.state, sec).result.Ok? ==>
                 SkipRecord(w.state, sec).state.off == h.resOffset + h.resLength < h.off + h.resLength)
  {
  }

  // ---------- Whole sections ----------

  /** Decoding errors are never taken for the end of a section. */
  predicate FormatError<T>(r: Result<T>) {
    r.Err? ==> r.error !in {SectionDone, NotStarted}
  }

  lemma {:induction false} NameErrors(m: bytes, off: nat, budget: nat)
    ensures FormatError(ReadName(m, off, budget))
    decreases budget, |m| - off
  {
    if off < |m| {
      if 0 < m[off] < SEGMENT_LIMIT {
        if off + 1 + m[off] <= |m| {
          NameErrors(m, off + 1 + m[off], budget);
        }
      } else if m[off] >= POINTER_TAG && off + 1 < |m| && budget > 0 {
        NameErrors(m, PointerAt(m, off), budget - 1);
      }
    }
  }

  lemma {:induction false} SkipErrors(m: bytes, off: nat)
    ensures FormatError(SkipEnd(m, off))
    decreases |m| - off
  {
    if off < |m| && 0 < m[off] < SEGMENT_LIMIT && off + 1 + m[off] <= |m| {
      SkipErrors(m, off + 1 + m[off]);
    }
  }

  lemma {:induction false} TextErrors(m: bytes, off: nat, left: nat)
    ensures FormatError(DecodeTexts(m, off, left))
    decreases left
  {
    if left > 0 && off < |m| && off + 1 + m[off] <= |m| && left >= 1 + m[off] as int {
      TextErrors(m, off + 1 + m[off], left - (1 + m[off] as int));
    }
  }

  lemma {:induction false} OptionErrors(m: bytes, off: nat, end: nat)
    ensures FormatError(DecodeOptions(m, off, end))
    decreases |m| - off
  {
    if off < end && off + 4 <= |m| && off + 4 + GetU16(m, off + 2) <= |m| {
      OptionErrors(m, off + 4 + GetU16(m, off + 2), end);
    }
  }

  lemma DecodeNameErrors(m: bytes, off: nat)
    ensures FormatError(DecodeName(m, off))
  {
    NameErrors(m, off, MAX_POINTERS);
  }

  lemma ServiceErrors(m: bytes, off: nat, length: uint16)
    ensures FormatError(DecodeService(m, off, length))
  {
    DecodeNameErrors(m, off + 2);
    var n := DecodeName(m, off + 2);
    if n.Ok? {
      OptionErrors(m, n.value.end, off + length);
    }
  }

  lemma SoaErrors(m: bytes, off: nat)
    ensures FormatError(DecodeSoa(m, off))
  {
    DecodeNameErrors(m, off);
    var n := DecodeName(m, off);
    if n.Ok? {
      DecodeNameErrors(m, n.value.end);
    }
  }

  lemma BodyErrors(m: bytes, off: nat, typ: uint16, length: uint16)
    ensures FormatError(DecodeBody(m, off, typ, length))
  {
    if typ == TYPE_SOA {
      SoaErrors(m, off);
    } else if typ == TYPE_TXT {
      TextErrors(m, off, length);
    } else if typ == TYPE_SVCB || typ == TYPE_HTTPS {
      ServiceErrors(m, off, length);
    } else if typ == TYPE_OPT {
      OptionErrors(m, off, off + length);
    } else {
      DecodeNameErrors(m, off);
      DecodeNameErrors(m, off + 2);
      DecodeNameErrors(m, off + 6);
    }
  }

  lemma ResourceErrors(m: bytes, off: nat)
    ensures FormatError(DecodeResource(m, off))
  {
    DecodeNameErrors(m, off);
    var h := DecodeHeader(m, off);
    if h.Ok? {
      BodyErrors(m, h.value.end, h.value.header.typ, h.value.header.length);
    }
  }

  /** Skipping `n` items. */
  function SkipItems(skip: (bytes, nat) -> Result<nat>, m: bytes, off: nat, n: nat): Result<nat>
    decreases n
  {
    if n == 0 then Ok(off)
    else
      match skip(m, off)
      case Err(e) => Err(e)
      case Ok(end) => SkipItems(skip, m, end, n - 1)
  }

  /** Reading a whole section and skipping it end at one offset. */
  lemma {:induction false} ReadOrSkipAll(m: bytes, off: nat, n: nat)
    requires ReadItems(DecodeResource, m, off, n).Ok? && SkipItems(SkipResource, m, off, n).Ok?
    ensures SkipItems(SkipResource, m, off, n).value == ReadItems(DecodeResource, m, off, n).value.end
    decreases n
  {
    if n > 0 {
      RecordOrSkipAt(m, off);
      ReadOrSkipAll(m, DecodeResource(m, off).value.end, n - 1);
    }
  }

  /** Where the machine stands, apart from what it remembers of an old header. */
  ghost predicate Stands(p: PState, m: bytes, h: WireHeader, sec: Section, off: nat, index: nat) {
    p.msg == m && p.header == h && p.section == sec && p.off == off && p.index == index && !p.valid
  }

  /** One resource call is one record of the section. */
  lemma ResourceCall(p: PState, sec: Section)
    requires RecordSection(sec) && Reachable(p) && p.section == sec && p.index < CountOf(p.header, sec)
    ensures var d, r := DecodeResource(p.msg, Rewound(p).off), ReadResource(p, sec);
      match d
      case Ok(x) => r.result == Ok(x.item) && Stands(r.state, p.msg, p.header, sec, x.end, p.index + 1)
      case Err(e) => r.result == Err(e) && e != SectionDone
  {
    ResourceErrors(p.msg, Rewound(p).off);
  }

  lemma SectionEnd(p: PState, sec: Section)
    requires RecordSection(sec) && p.section == sec && p.index == CountOf(p.header, sec)
    ensures var r := ReadResource(p, sec);
      r.result == Err(SectionDone) && Stands(r.state, p.msg, p.header, sec + 1, Rewound(p).off, 0)
  {
  }

  lemma QuestionCall(p: PState)
    requires Reachable(p) && p.section == SECTION_QUESTIONS && p.index < p.header.questions
    ensures var d, r := DecodeQuestion(p.msg, p.off), ReadQuestion(p);
      match d
      case Ok(x) => r.result == Ok(x.item) && Stands(r.state, p.msg, p.header, SECTION_QUESTIONS, x.end, p.index + 1)
      case Err(e) => r.result == Err(e) && e != SectionDone
  {
    DecodeNameErrors(p.msg, p.off);
  }

  lemma SkipCall(p: PState, sec: Section)
    requires RecordSection(sec) && Reachable(p) && p.section == sec && !p.valid && p.index < CountOf(p.header, sec)
    ensures var d, r := SkipResource(p.msg, p.off), SkipRecord(p, sec);
      match d
      case Ok(end) => r.result == Ok(()) && Stands(r.state, p.msg, p.header, sec, end, p.index + 1)
      case Err(e) => r.result == Err(e) && e != SectionDone
  {
    SkipErrors(p.msg, p.off);
  }

  /** What is still to come of a section, behind the items already read. */
  ghost function StillToRead<T>(dec: Decoder<T>, m: bytes, items: seq<T>, off: nat, n: nat): Result<Items<seq<T>>> {
    match ReadItems(dec, m, off, n)
    case Err(e) => Err(e)
    case Ok(rest) => Ok(Items(items + rest.items, rest.end))
  }

  lemma ItemRead<T>(dec: Decoder<T>, m: bytes, items: seq<T>, off: nat, n: nat)
    requires n > 0
    ensures StillToRead(dec, m, items, off, n) ==
      match dec(m, off)
      case Err(e) => Err(e)
      case Ok(x) => StillToRead(dec, m, items + [x.item], x.end, n - 1)
  {
    match dec(m, off)
    case Err(_) =>
    case Ok(x) =>
      var rest := ReadItems(dec, m, x.end, n - 1);
      if rest.Ok? {
        assert items + ([x.item] + rest.value.items) == items + [x.item] + rest.value.items;
      }
  }

  lemma AllRead<T>(dec: Decoder<T>, m: bytes, items: seq<T>, off: nat)
    ensures StillToRead(dec, m, items, off, 0) == Ok(Items(items, off))
  {
    assert items + [] == items;
  }

  lemma NoneRead<T>(dec: Decoder<T>, m: bytes, off: nat, n: nat)
    ensures StillToRead(dec, m, [], off, n) == ReadItems(dec, m, off, n)
  {
    var r := ReadItems(dec, m, off, n);
    if r.Ok? {
      assert [] + r.value.items == r.value.items;
    }
  }

  ghost function Left(p: PState, sec: Section): nat
    requires ItemSection(sec)
  {
    if p.section == sec && p.index <= CountOf(p.header, sec) then CountOf(p.header, sec) - p.index else 0
  }

  /** A loop over section `sec` that began in state `p0`, has collected `items` and is now in state `p`. */
  ghost predicate InSection<T(!new)>(dec: Decoder<T>, p0: PState, sec: Section, p: PState, items: seq<T>)
    requires ItemSection(sec)
  {
    && p.msg == p0.msg && p.header == p0.header && p.section == p0.section
    && (p.section == sec ==>
         StillToRead(dec, p.msg, items, Rewound(p).off, Left(p, sec)) == ReadItems(dec, p.msg, Rewound(p0).off, Left(p0, sec)))
    && (p.section != sec ==> items == [] && Rewound(p) == Rewound(p0))
  }

  /** What taking all of a section yields: the items left in it; nothing when it is over; an error before it. */
  ghost predicate SectionTaken<T(!new)>(dec: Decoder<T>, p: PState, sec: Section, p': PState, r: Result<seq<T>>)
    requires ItemSection(sec)
  {
    if p.section < sec then r == Err(NotStarted)
    else if p.section > sec then r == Ok([]) && Rewound(p') == Rewound(p)
    else
      match ReadItems(dec, p.msg, Rewound(p).off, Left(p, sec))
      case Err(e) => r == Err(e)
      case Ok(items) => r == Ok(items.items) && Stands(p', p.msg, p.header, sec + 1, items.end, 0)
  }

  /** One item more. */
  lemma ItemTaken<T(!new)>(dec: Decoder<T>, p0: PState, sec: Section, p: PState, xs: seq<T>, x: T, end: nat, p': PState)
    requires ItemSection(sec) && InSection(dec, p0, sec, p, xs) && p.section == sec && p.index < CountOf(p.header, sec)
    requires dec(p.msg, Rewound(p).off) == Ok(ItemEnd(x, end)) && Stands(p', p.msg, p.header, sec, end, p.index + 1)
    ensures InSection(dec, p0, sec, p', xs + [x]) && Left(p', sec) < Left(p, sec)
  {
    ItemRead(dec, p.msg, xs, Rewound(p).off, Left(p, sec));
  }

  /** An item that cannot be read ends the loop with its error, */
  lemma ItemRefused<T(!new)>(dec: Decoder<T>, p0: PState, sec: Section, p: PState, xs: seq<T>, e: Error, p': PState)
    requires ItemSection(sec) && InSection(dec, p0, sec, p, xs) && p.section == sec && p.index < CountOf(p.header, sec)
    requires dec(p.msg, Rewound(p).off) == Err(e)
    ensures SectionTaken(dec, p0, sec, p', Err(e))
  {
    ItemRead(dec, p.msg, xs, Rewound(p).off, Left(p, sec));
  }

  /** and behind the last one it ends with what it has collected. */
  lemma NoItemLeft<T(!new)>(dec: Decoder<T>, p0: PState, sec: Section, p: PState, xs: seq<T>, p': PState)
    requires ItemSection(sec) && InSection(dec, p0, sec, p, xs) && p.section == sec && p.index == CountOf(p.header, sec)
    requires Stands(p', p.msg, p.header, sec + 1, Rewound(p).off, 0)
    ensures SectionTaken(dec, p0, sec, p', Ok(xs))
  {
    AllRead(dec, p.msg, xs, Rewound(p).off);
  }

  lemma QuestionStep(p0: PState, p: PState, qs: seq<Question>)
    requires Reachable(p) && InSection(DecodeQuestion, p0, SECTION_QUESTIONS, p, qs)
    ensures var r := ReadQuestion(p);
      match r.result
      case Ok(q) =>
        InSection(DecodeQuestion, p0, SECTION_QUESTIONS, r.state, qs + [q])
        && Left(r.state, SECTION_QUESTIONS) < Left(p, SECTION_QUESTIONS)
      case Err(e) =>
        SectionTaken(DecodeQuestion, p0, SECTION_QUESTIONS, r.state, if e == SectionDone then Ok(qs) else Err(e))
  {
    if p.section == SECTION_QUESTIONS {
      var p' := ReadQuestion(p).state;
      if p.index < p.header.questions {
        QuestionCall(p);
        match DecodeQuestion(p.msg, p.off) {
          case Ok(x) => ItemTaken(DecodeQuestion, p0, SECTION_QUESTIONS, p, qs, x.item, x.end, p');
          case Err(e) => ItemRefused(DecodeQuestion, p0, SECTION_QUESTIONS, p, qs, e, p');
        }
      } else {
        NoItemLeft(DecodeQuestion, p0, SECTION_QUESTIONS, p, qs, p');
      }
    }
  }

  lemma ResourceStep(p0: PState, sec: Section, p: PState, rs: seq<Resource>)
    requires RecordSection(sec) && Reachable(p) && InSection(DecodeResource, p0, sec, p, rs)
    ensures var r := ReadResource(p, sec);
      match r.result
      case Ok(x) => InSection(DecodeResource, p0, sec, r.state, rs + [x]) && Left(r.state, sec) < Left(p, sec)
      case Err(e) => SectionTaken(DecodeResource, p0, sec, r.state, if e == SectionDone then Ok(rs) else Err(e))
  {
    if p.section == sec {
      var p' := ReadResource(p, sec).state;
      if p.index < CountOf(p.header, sec) {
        ResourceCall(p, sec);
        match DecodeResource(p.msg, Rewound(p).off) {
          case Ok(x) => ItemTaken(DecodeResource, p0, sec, p, rs, x.item, x.end, p');
          case Err(e) => ItemRefused(DecodeResource, p0, sec, p, rs, e, p');
        }
      } else {
        SectionEnd(p, sec);
        NoItemLeft(DecodeResource, p0, sec, p, rs, p');
      }
    }
  }

  /** Where skipping all of a section of records ends. A remembered header's record goes first. */
  ghost function SkipSection(p: PState, sec: Section): Result<nat>
    requires RecordSection(sec) && Reachable(p)
  {
    if p.valid && p.section == sec then
      if p.off + p.resLength > |p.msg| then Err(ResourceLen)
      else SkipItems(SkipResource, p.msg, p.off + p.resLength, Left(p, sec) - 1)
    else SkipItems(SkipResource, p.msg, p.off, Left(p, sec))
  }

  ghost predicate SectionSkipped(p: PState, sec: Section, p': PState, skipped: Result<nat>, r: Result<()>)
    requires ItemSection(sec)
  {
    if p.section < sec then r == Err(NotStarted) && p' == p
    else if p.section > sec then r == Ok(()) && p' == p
    else
      match skipped
      case Err(e) => r == Err(e) && p'.section == sec
      case Ok(end) => r == Ok(()) && Stands(p', p.msg, p.header, sec + 1, end, 0)
  }

  /** A loop that skips section `sec`, began in state `p0`, will end at `all` and is now in state `p`. */
  ghost predicate InSkip(p0: PState, sec: Section, p: PState, all: Result<nat>)
    requires RecordSection(sec) && Reachable(p)
  {
    && p.msg == p0.msg && p.header == p0.header && p.section == p0.section
    && (p.section == sec ==> SkipSection(p, sec) == all) && (p.section != sec ==> p == p0)
  }

  lemma SkipStep(p0: PState, sec: Section, p: PState, all: Result<nat>)
    requires RecordSection(sec) && Reachable(p) && InSkip(p0, sec, p, all)
    ensures var r := SkipRecord(p, sec);
      match r.result
      case Ok(_) => Reachable(r.state) && InSkip(p0, sec, r.state, all) && Left(r.state, sec) < Left(p, sec)
      case Err(e) => SectionSkipped(p0, sec, r.state, all, if e == SectionDone then Ok(()) else Err(e))
  {
    SkipRecordKeeps(p, sec);
    if p.section == sec && !p.valid && p.index < CountOf(p.header, sec) {
      SkipCall(p, sec);
    }
  }

  lemma QuestionSkipped(p: PState)
    requires Reachable(p) && p.section == SECTION_QUESTIONS && p.index < p.header.questions
    ensures var d, r := SkipQuestion(p.msg, p.off), SkipOneQuestion(p);
      match d
      case Ok(end) => r.result == Ok(()) && Stands(r.state, p.msg, p.header, SECTION_QUESTIONS, end, p.index + 1)
      case Err(e) => r.result == Err(e) && e != SectionDone
  {
    SkipErrors(p.msg, p.off);
  }

  /** Reading all of a section and skipping all of it, when both succeed, leave the parser in the same place,
      if it was not left in front of a remembered header. */
  lemma ReadOrSkipSection(p: PState, sec: Section)
    requires RecordSection(sec) && Reachable(p) && p.section == sec && !RewoundHeader(p, sec)
    requires ReadItems(DecodeResource, p.msg, Rewound(p).off, Left(p, sec)).Ok? && SkipSection(p, sec).Ok?
    ensures SkipSection(p, sec).value == ReadItems(DecodeResource, p.msg, Rewound(p).off, Left(p, sec)).value.end
  {
    if p.valid {
      ReadOrSkipRest(p.msg, p.resOffset, p.off + p.resLength, Left(p, sec), Left(p, sec) - 1, p);
    } else {
      ReadOrSkipAll(p.msg, p.off, Left(p, sec));
    }
  }

  lemma ReadOrSkipRest(m: bytes, off: nat, next: nat, n: nat, k: nat, p: PState)
    requires n == k + 1 && ReadItems(DecodeResource, m, off, n).Ok? && SkipItems(SkipResource, m, next, k).Ok?
    requires p.msg == m && p.resOffset == off && Remembered(p) && p.off != p.resOffset && next == p.off + p.resLength
    ensures SkipItems(SkipResource, m, next, k).value == ReadItems(DecodeResource, m, off, n).value.end
  {
    RememberedEnd(p);
    OthersRead(DecodeResource, m, off, n, next, k);
    ReadOrSkipAll(m, next, k);
  }

  lemma RememberedEnd(p: PState)
    requires Remembered(p) && p.off != p.resOffset
    ensures DecodeResource(p.msg, p.resOffset).Ok? ==> DecodeResource(p.msg, p.resOffset).value.end == p.off + p.resLength
  {
  }

  // ---------- The parser ----------

  class Parser {
    var msg: bytes
    var header: WireHeader
    var section: Section
    var off: nat
    var index: nat
    var resHeaderValid: bool
    var resHeaderOffset: nat
    var resHeaderType: uint16
    var resHeaderLength: uint16

    ghost function Now(): PState
      reads this
    {
      Snapshot(msg, header, section, off, index, resHeaderValid, resHeaderOffset, resHeaderType, resHeaderLength)
    }

    ghost predicate Valid()
      reads this
    {
      Reachable(Now())
    }

    constructor ()
      ensures Valid() && Now() == Snapshot([], NO_HEADER, SECTION_NOT_STARTED, 0, 0, false, 0, 0, 0)
    {
      msg, header, section, off, index := [], NO_HEADER, SECTION_NOT_STARTED, 0, 0;
      resHeaderValid, resHeaderOffset, resHeaderType, resHeaderLength := false, 0, 0, 0;
    }

    /** Parses the header; whatever the parser did before is forgotten. */
    method Start(m: bytes) returns (r: Result<Header>)
      modifies this
      ensures Valid() && Now() == Started(m)
      ensures r == if |m| < HEADER_LEN then Err(BaseLen) else Ok(HeaderFrom(GetU16(m, 0), GetU16(m, 2)))
    {
      msg, section, off, index := m, SECTION_NOT_STARTED, 0, 0;
      resHeaderValid, resHeaderOffset, resHeaderType, resHeaderLength := false, 0, 0, 0;
      header := PartialHeader(m);
      if |m| < HEADER_LEN {
        return Err(BaseLen);
      }
      off := HEADER_LEN;
      section := SECTION_QUESTIONS;
      return Ok(HeaderFrom(header.id, header.bits));
    }

    method CheckAdvance(sec: Section) returns (err: Option<Error>)
      requires ItemSection(sec) && Valid()
      modifies this`resHeaderValid, this`index, this`section
      ensures Now() == Advance(old(Now()), sec).state && Valid()
      ensures err == match Advance(old(Now()), sec).result case Ok(_) => None case Err(e) => Some(e)
    {
      AdvanceKeeps(Now(), sec);
      if section < sec {
        return Some(NotStarted);
      }
      if section > sec {
        return Some(SectionDone);
      }
      resHeaderValid := false;
      if index == CountOf(header, sec) {
        index := 0;
        section := section + 1;
        return Some(SectionDone);
      }
      return None;
    }

    method ResourceHeader(sec: Section) returns (r: Result<ResourceHeader>)
      requires RecordSection(sec) && Valid()
      modifies this
      ensures Valid() && Outcome(Now(), r) == ReadHeader(old(Now()), sec)
    {
      ReadHeaderKeeps(Now(), sec);
      AdvanceKeeps(Rewound(Now()), sec);
      if resHeaderValid {
        off := resHeaderOffset;
      }
      var err := CheckAdvance(sec);
      if err.Some? {
        return Err(err.value);
      }
      var h := UnpackHeader(msg, off);
      if h.Err? {
        return Err(h.error);
      }
      resHeaderValid := true;
      resHeaderOffset := off;
      resHeaderType := h.value.header.typ;
      resHeaderLength := h.value.header.length;
      off := h.value.end;
      return Ok(h.value.header);
    }

    method Resource(sec: Section) returns (r: Result<Resource>)
      requires RecordSection(sec) && Valid()
      modifies this
      ensures Valid() && Outcome(Now(), r) == ReadResource(old(Now()), sec)
    {
      ReadResourceKeeps(Now(), sec);
      var h := ResourceHeader(sec);
      if h.Err? {
        return Err(h.error);
      }
      resHeaderValid := false;
      var body := UnpackBody(msg, off, h.value.typ, h.value.length);
      if body.Err? {
        return Err(body.error);
      }
      off := off + h.value.length;
      index := index + 1;
      return Ok(Records.Resource(h.value, body.value));
    }

    method SkipResource(sec: Section) returns (r: Result<()>)
      requires RecordSection(sec) && Valid()
      modifies this
      ensures Valid() && Outcome(Now(), r) == SkipRecord(old(Now()), sec)
    {
      SkipRecordKeeps(Now(), sec);
      if resHeaderValid && section == sec {
        var newOff := off + resHeaderLength;
        if newOff > |msg| {
          return Err(ResourceLen);
        }
        off := newOff;
        resHeaderValid := false;
        index := index + 1;
        return Ok(());
      }
      var err := CheckAdvance(sec);
      if err.Some? {
        return Err(err.value);
      }
      var end := SkipWholeResource(msg, off);
      if end.Err? {
        return Err(end.error);
      }
      off := end.value;
      index := index + 1;
      return Ok(());
    }

    method Question() returns (r: Result<Question>)
      requires Valid()
      modifies this
      ensures Valid() && Outcome(Now(), r) == ReadQuestion(old(Now()))
    {
      QuestionKeeps(Now());
      var err := CheckAdvance(SECTION_QUESTIONS);
      if err.Some? {
        return Err(err.value);
      }
      var q := UnpackQuestion(msg, off);
      if q.Err? {
        return Err(q.error);
      }
      off := q.value.end;
      index := index + 1;
      return Ok(q.value.item);
    }

    method SkipQuestion() returns (r: Result<()>)
      requires Valid()
      modifies this
      ensures Valid() && Outcome(Now(), r) == SkipOneQuestion(old(Now()))
    {
      QuestionKeeps(Now());
      var err := CheckAdvance(SECTION_QUESTIONS);
      if err.Some? {
        return Err(err.value);
      }
      var end := SkipWholeQuestion(msg, off);
      if end.Err? {
        return Err(end.error);
      }
      off := end.value;
      index := index + 1;
      return Ok(());
    }

    /** CNAMEResource, MXResource and the other typed bodies. */
    method TypedBody(typ: uint16) returns (r: Result<Body>)
      requires KnownType(typ) && Valid()
      modifies this
      ensures Valid() && Outcome(Now(), r) == ReadTypedBody(old(Now()), typ)
    {
      if !resHeaderValid || resHeaderType != typ {
        return Err(NotStarted);
      }
      ConsumedKeeps(Now());
      r := UnpackBody(msg, off, typ, resHeaderLength);
      if r.Ok? {
        off := off + resHeaderLength;
        resHeaderValid := false;
        index := index + 1;
      }
    }

    method UnknownBody() returns (r: Result<Body>)
      requires Valid()
      modifies this
      ensures Valid() && Outcome(Now(), r) == ReadUnknownBody(old(Now()))
    {
      if !resHeaderValid {
        return Err(NotStarted);
      }
      ConsumedKeeps(Now());
      if off + resHeaderLength > |msg| {
        return Err(BaseLen);
      }
      r := Ok(Unknown(resHeaderType, Slice(msg, off, resHeaderLength)));
      off := off + resHeaderLength;
      resHeaderValid := false;
      index := index + 1;
    }

    /** AllQuestions: what is left of the section, or nothing when it is over. */
    method AllQuestions() returns (r: Result<seq<Question>>)
      requires Valid()
      modifies this
      ensures Valid() && SectionTaken(DecodeQuestion, old(Now()), SECTION_QUESTIONS, Now(), r)
    {
      var qs: seq<Question> := [];
      ghost var p := Now();
      NoneRead(DecodeQuestion, msg, Rewound(p).off, Left(p, SECTION_QUESTIONS));
      while true
        invariant Valid() && InSection(DecodeQuestion, p, SECTION_QUESTIONS, Now(), qs)
        decreases Left(Now(), SECTION_QUESTIONS)
      {
        QuestionStep(p, Now(), qs);
        var q := Question();
        if q == Err(SectionDone) {
          return Ok(qs);
        }
        if q.Err? {
          return Err(q.error);
        }
        qs := qs + [q.value];
      }
    }

    /** AllAnswers, AllAuthorities and AllAdditionals. */
    method AllResources(sec: Section) returns (r: Result<seq<Resource>>)
      requires RecordSection(sec) && Valid()
      modifies this
      ensures Valid() && SectionTaken(DecodeResource, old(Now()), sec, Now(), r)
    {
      var rs: seq<Resource> := [];
      ghost var p := Now();
      NoneRead(DecodeResource, msg, Rewound(p).off, Left(p, sec));
      while true
        invariant Valid() && InSection(DecodeResource, p, sec, Now(), rs)
        decreases Left(Now(), sec)
      {
        ResourceStep(p, sec, Now(), rs);
        var x := Resource(sec);
        if x == Err(SectionDone) {
          return Ok(rs);
        }
        if x.Err? {
          return Err(x.error);
        }
        rs := rs + [x.value];
      }
    }

    method SkipAllQuestions() returns (r: Result<()>)
      requires Valid()
      modifies this
      ensures Valid()
      ensures SectionSkipped(old(Now()), SECTION_QUESTIONS, Now(),
                             SkipItems(Records.SkipQuestion, old(msg), old(off), Left(old(Now()), SECTION_QUESTIONS)), r)
    {
      ghost var p, all := Now(), SkipItems(Records.SkipQuestion, msg, off, Left(Now(), SECTION_QUESTIONS));
      while true
        invariant Valid() && msg == p.msg && header == p.header && section == p.section
        invariant section == SECTION_QUESTIONS ==> SkipItems(Records.SkipQuestion, msg, off, Left(Now(), SECTION_QUESTIONS)) == all
        invariant section != SECTION_QUESTIONS ==> Now() == p
        decreases Left(Now(), SECTION_QUESTIONS)
      {
        if section == SECTION_QUESTIONS && index < header.questions {
          QuestionSkipped(Now());
        }
        var s := SkipQuestion();
        if s == Err(SectionDone) {
          return Ok(());
        }
        if s.Err? {
          return s;
        }
      }
    }

    /** SkipAllAnswers, SkipAllAuthorities and SkipAllAdditionals. */
    method SkipAllResources(sec: Section) returns (r: Result<()>)
      requires RecordSection(sec) && Valid()
      modifies this
      ensures Valid() && SectionSkipped(old(Now()), sec, Now(), SkipSection(old(Now()), sec), r)
    {
      ghost var p, all := Now(), SkipSection(Now(), sec);
      while true
        invariant Valid() && InSkip(p, sec, Now(), all)
        decreases Left(Now(), sec)
      {
        SkipStep(p, sec, Now(), all);
        var s := SkipResource(sec);
        if s == Err(SectionDone) {
          return Ok(());
        }
        if s.Err? {
          return s;
        }
      }
    }
  }

  lemma WireHeaderRead(m: bytes)
    ensures DecodeWireHeader(m) == if |m| < HEADER_LEN then Err(BaseLen) else Ok(PartialHeader(m))
  {
  }

  /** A full message, with the parser: the items of its four sections one after the other. */
  method Unpack(m: bytes) returns (r: Result<Message>)
    ensures r == DecodeMessage(m)
  {
    WireHeaderRead(m);
    var p := new Parser();
    var header := p.Start(m);
    if header.Err? {
      return Err(header.error);
    }
    var questions := p.AllQuestions();
    if questions.Err? {
      return Err(questions.error);
    }
    var answers := p.AllResources(SECTION_ANSWERS);
    if answers.Err? {
      return Err(answers.error);
    }
    var authorities := p.AllResources(SECTION_AUTHORITIES);
    if authorities.Err? {
      return Err(authorities.error);
    }
    var additionals := p.AllResources(SECTION_ADDITIONALS);
    if additionals.Err? {
      return Err(additionals.error);
    }
    return Ok(Message(header.value, questions.value, answers.value, authorities.value, additionals.value));
  }
}
