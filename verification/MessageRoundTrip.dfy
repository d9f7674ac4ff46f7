/** Unpacking what was packed: whole messages with compressed names (internal/dnsmessage/message.go). */
module MessageRoundTrip {
  import opened Wire
  import opened Names
  import opened Compression
  import opened TableSoundness
  import opened Records
  import opened RecordRoundTrip
  import opened Sequences
  import opened Messages

  // ---------- Questions and records as items ----------

  /** A record as the reader reports it when it was written at `pos` with table `t`: type and length filled in, option
      offsets too, parameters sorted. */
  ghost function FilledResource(r: Resource, pos: nat, t: Table): Resource {
    var name := EncodeName(r.header.name, pos, t);
    if r.body.NilBody? || name.out.Err? then r
    else
      var at := pos + |name.out.value| + 10;
      var body := EncodeBody(r.body, at, name.table).out;
      if body.Err? || |body.value| > MAX_UINT16 then r else FilledRecord(r.header, r.body, at, |body.value|)
  }

  ghost function QuestionKind(): Kind<Question> {
    Kind(EncodeQuestion, DecodeQuestion,
         (m: bytes, q: Question, pos: nat, t: Table) => PointersUsed(m, q.name, t) <= MAX_POINTERS,
         (q: Question, pos: nat, t: Table) => q)
  }

  ghost function ResourceKind(): Kind<Resource> {
    Kind(EncodeResource, DecodeResource,
         (m: bytes, r: Resource, pos: nat, t: Table) => RecordReadable(m, r.header, r.body, pos, t), FilledResource)
  }

  lemma QuestionLaw(m: bytes, q: Question, pos: nat, t: Table, w: bytes)
    ensures ItemLaw(QuestionKind(), m, q, pos, t, w)
  {
    if TableSound(m, t) && Written(m, pos, EncodeQuestion(q, pos, t), w) {
      QuestionReadsBack(m, pos, q, t, w);
    }
  }

  lemma FilledAt(r: Resource, pos: nat, t: Table, at: nat, length: uint16)
    requires !r.body.NilBody?
    requires var name := EncodeName(r.header.name, pos, t);
      && name.out.Ok? && at == pos + |name.out.value| + 10
      && EncodeBody(r.body, at, name.table).out.Ok? && length == |EncodeBody(r.body, at, name.table).out.value|
    ensures FilledResource(r, pos, t) == FilledRecord(r.header, r.body, at, length)
  {
  }

  lemma ResourceLaw(m: bytes, r: Resource, pos: nat, t: Table, w: bytes)
    requires OwnType(r.body)
    ensures ItemLaw(ResourceKind(), m, r, pos, t, w)
  {
    if TableSound(m, t) && Written(m, pos, EncodeResource(r, pos, t), w) {
      var at, length := RecordReadsBack(m, pos, r.header, r.body, t, w);
      FilledAt(r, pos, t, at, length);
    }
  }

  ghost predicate OwnTypes(rs: seq<Resource>) {
    forall r :: r in rs ==> OwnType(r.body)
  }

  lemma QuestionsLawful(m: bytes, qs: seq<Question>)
    ensures Lawful(QuestionKind(), m, qs)
  {
    forall q, pos, t, w ensures ItemLaw(QuestionKind(), m, q, pos, t, w) {
      QuestionLaw(m, q, pos, t, w);
    }
  }

  lemma ResourcesLawful(m: bytes, rs: seq<Resource>)
    requires OwnTypes(rs)
    ensures Lawful(ResourceKind(), m, rs)
  {
    forall r, pos, t, w | r in rs ensures ItemLaw(ResourceKind(), m, r, pos, t, w) {
      ResourceLaw(m, r, pos, t, w);
    }
  }

  // ---------- Whole messages ----------

  /** What is written by the end of the questions, the answers and the authorities. */
  datatype Layout = Layout(qs: Encoded, an: Encoded, ns: Encoded)

  function LayoutOf(m: Message, t: Table): Layout {
    var qs := EncodeItems(EncodeQuestion, m.questions, HEADER_LEN, t);
    var an := Then(EncodeResource, qs, HEADER_LEN, m.answers);
    Layout(qs, an, Then(EncodeResource, an, HEADER_LEN, m.authorities))
  }

  /** Where the next item goes. */
  function Next(e: Encoded): nat {
    HEADER_LEN + if e.out.Ok? then |e.out.value| else 0
  }

  /** No name of the packed message `p` costs the reader more than ten pointers. */
  ghost predicate Readable(p: bytes, m: Message, t: Table) {
    var l := LayoutOf(m, t);
    && AllReadable(QuestionKind(), p, m.questions, HEADER_LEN, t)
    && AllReadable(ResourceKind(), p, m.answers, Next(l.qs), l.qs.table)
    && AllReadable(ResourceKind(), p, m.authorities, Next(l.an), l.an.table)
    && AllReadable(ResourceKind(), p, m.additionals, Next(l.ns), l.ns.table)
  }

  /** The records of a packed message as they are read. */
  ghost function FilledRecords(m: Message, t: Table): (seq<Resource>, seq<Resource>, seq<Resource>) {
    var l := LayoutOf(m, t);
    (AllFilled(ResourceKind(), m.answers, Next(l.qs), l.qs.table),
     AllFilled(ResourceKind(), m.authorities, Next(l.an), l.an.table),
     AllFilled(ResourceKind(), m.additionals, Next(l.ns), l.ns.table))
  }

  ghost function FilledSections(m: Message, bits: uint16, t: Table): Sections
    requires Countable(m)
  {
    var (an, ns, ar) := FilledRecords(m, t);
    Sections(WireHeaderOf(m, bits), m.questions, an, ns, ar)
  }

  /** The message as it is read: nothing but types, lengths, option offsets and the order of parameters may differ. */
  ghost function FilledMessage(m: Message, t: Table): Message {
    var (an, ns, ar) := FilledRecords(m, t);
    m.(answers := an, authorities := ns, additionals := ar)
  }

  /** Between the header and the end: four sections, each behind the other. */
  ghost predicate SectionsAt(p: bytes, m: Message, t: Table, l: Layout, end: nat) {
    && SectionAt(QuestionKind(), p, HEADER_LEN, m.questions, t, Next(l.qs))
    && SectionAt(ResourceKind(), p, Next(l.qs), m.answers, l.qs.table, Next(l.an))
    && SectionAt(ResourceKind(), p, Next(l.an), m.authorities, l.an.table, Next(l.ns))
    && SectionAt(ResourceKind(), p, Next(l.ns), m.additionals, l.ns.table, end)
  }

  /** What was written before a section, and the section itself. */
  lemma ThenParts(p: bytes, e: Encoded, rs: seq<Resource>, w: bytes)
    requires Written(p, HEADER_LEN, Then(EncodeResource, e, HEADER_LEN, rs), w)
    ensures Written(p, HEADER_LEN, e, e.out.value)
    ensures TableSound(p, e.table) ==> SectionAt(ResourceKind(), p, Next(e), rs, e.table, HEADER_LEN + |w|)
  {
    var rest := EncodeItems(EncodeResource, rs, HEADER_LEN + |e.out.value|, e.table).out.value;
    AtParts(p, HEADER_LEN, e.out.value, rest);
    assert Written(p, Next(e), EncodeItems(EncodeResource, rs, Next(e), e.table), rest);
  }

  lemma SectionKeepsTable(p: bytes, e: Encoded, rs: seq<Resource>, end: nat)
    requires e.out.Ok? && OwnTypes(rs) && SectionAt(ResourceKind(), p, Next(e), rs, e.table, end)
    ensures TableSound(p, Then(EncodeResource, e, HEADER_LEN, rs).table)
  {
    ResourcesLawful(p, rs);
    SectionReadsBack(ResourceKind(), p, Next(e), rs, e.table, end);
  }

  lemma QuestionsWritten(p: bytes, qs: seq<Question>, t: Table, e: Encoded, w: bytes)
    requires e == EncodeItems(EncodeQuestion, qs, HEADER_LEN, t) && Written(p, HEADER_LEN, e, w) && TableSound(p, t)
    ensures SectionAt(QuestionKind(), p, HEADER_LEN, qs, t, Next(e)) && TableSound(p, e.table)
  {
    QuestionsLawful(p, qs);
    ItemsReadBack(QuestionKind(), p, HEADER_LEN, qs, t, w, HEADER_LEN + |w|);
  }

  lemma SectionsWritten(p: bytes, m: Message, t: Table, l: Layout, w: bytes)
    requires l.qs == EncodeItems(EncodeQuestion, m.questions, HEADER_LEN, t)
    requires l.an == Then(EncodeResource, l.qs, HEADER_LEN, m.answers) && l.ns == Then(EncodeResource, l.an, HEADER_LEN, m.authorities)
    requires Written(p, HEADER_LEN, Then(EncodeResource, l.ns, HEADER_LEN, m.additionals), w) && TableSound(p, t) && AllOwnTypes(m)
    ensures SectionsAt(p, m, t, l, HEADER_LEN + |w|) && TableSound(p, Then(EncodeResource, l.ns, HEADER_LEN, m.additionals).table)
  {
    RecordSections(p, l.qs, l.an, l.ns, m.answers, m.authorities, m.additionals, w);
    QuestionsWritten(p, m.questions, t, l.qs, l.qs.out.value);
  }

  /** Three sections of records behind the questions, once the table behind the questions is sound. */
  lemma RecordSections(p: bytes, qs: Encoded, an: Encoded, ns: Encoded,
                       rs1: seq<Resource>, rs2: seq<Resource>, rs3: seq<Resource>, w: bytes)
    requires an == Then(EncodeResource, qs, HEADER_LEN, rs1) && ns == Then(EncodeResource, an, HEADER_LEN, rs2)
    requires Written(p, HEADER_LEN, Then(EncodeResource, ns, HEADER_LEN, rs3), w)
    requires OwnTypes(rs1) && OwnTypes(rs2) && OwnTypes(rs3)
    ensures Written(p, HEADER_LEN, qs, qs.out.value) 
    ensures TableSound(p, qs.table) ==>
      && SectionAt(ResourceKind(), p, Next(qs), rs1, qs.table, Next(an))
      && SectionAt(ResourceKind(), p, Next(an), rs2, an.table, Next(ns))
      && SectionAt(ResourceKind(), p, Next(ns), rs3, ns.table, HEADER_LEN + |w|)
      && TableSound(p, Then(EncodeResource, ns, HEADER_LEN, rs3).table)
  {
    ThenParts(p, ns, rs3, w);
    ThenParts(p, an, rs2, ns.out.value);
    ThenParts(p, qs, rs1, an.out.value);
    if TableSound(p, qs.table) {
      SectionKeepsTable(p, qs, rs1, Next(an));
      SectionKeepsTable(p, an, rs2, Next(ns));
      SectionKeepsTable(p, ns, rs3, HEADER_LEN + |w|);
    }
  }

  ghost predicate AllOwnTypes(m: Message) {
    OwnTypes(m.answers) && OwnTypes(m.authorities) && OwnTypes(m.additionals)
  }

  /** The packed message, cut into header and content. */
  lemma MessageParts(p: bytes, m: Message, bits: uint16, t: Table) returns (w: bytes)
    requires EncodeWith(m, bits, t) == Ok(p)
    ensures Countable(m) && DecodeWireHeader(p) == Ok(WireHeaderOf(m, bits))
    ensures Written(p, HEADER_LEN, Content(m, t), w) && |p| == HEADER_LEN + |w|
  {
    w := Content(m, t).out.value;
    WholeAt(p, EncodeHeader(WireHeaderOf(m, bits)), w);
    HeaderReadsBack(p, WireHeaderOf(m, bits));
  }

  /** Items that are read as they are. */
  lemma {:induction false} FilledAsIs<T(!new)>(k: Kind<T>, xs: seq<T>, pos: nat, t: Table)
    requires EncodeItems(k.enc, xs, pos, t).out.Ok? && forall x, at, u {:trigger k.filled(x, at, u)} :: k.filled(x, at, u) == x
    ensures AllFilled(k, xs, pos, t) == xs
    decreases |xs|
  {
    if xs != [] {
      var e := k.enc(xs[0], pos, t);
      FilledAsIs(k, xs[1..], pos + |e.out.value|, e.table);
      assert [xs[0]] + xs[1..] == xs;
    }
  }

  /** What the four reads of Message.Unpack yield. */
  ghost predicate SectionsRead(p: bytes, m: Message, t: Table, l: Layout, end: nat) {
    && SectionReads(QuestionKind(), p, HEADER_LEN, |m.questions|, m.questions,
                    AllReadable(QuestionKind(), p, m.questions, HEADER_LEN, t), Next(l.qs))
    && SectionReads(ResourceKind(), p, Next(l.qs), |m.answers|, AllFilled(ResourceKind(), m.answers, Next(l.qs), l.qs.table),
                    AllReadable(ResourceKind(), p, m.answers, Next(l.qs), l.qs.table), Next(l.an))
    && SectionReads(ResourceKind(), p, Next(l.an), |m.authorities|, AllFilled(ResourceKind(), m.authorities, Next(l.an), l.an.table),
                    AllReadable(ResourceKind(), p, m.authorities, Next(l.an), l.an.table), Next(l.ns))
    && SectionReads(ResourceKind(), p, Next(l.ns), |m.additionals|, AllFilled(ResourceKind(), m.additionals, Next(l.ns), l.ns.table),
                    AllReadable(ResourceKind(), p, m.additionals, Next(l.ns), l.ns.table), end)
  }

  lemma SectionsReadBack(p: bytes, m: Message, t: Table, l: Layout, end: nat)
    requires SectionsAt(p, m, t, l, end) && AllOwnTypes(m)
    ensures SectionsRead(p, m, t, l, end)
  {
    QuestionsLawful(p, m.questions);
    ResourcesLawful(p, m.answers);
    ResourcesLawful(p, m.authorities);
    ResourcesLawful(p, m.additionals);
    FilledAsIs(QuestionKind(), m.questions, HEADER_LEN, t);
    SectionReadsBack(QuestionKind(), p, HEADER_LEN, m.questions, t, Next(l.qs));
    SectionReadsBack(ResourceKind(), p, Next(l.qs), m.answers, l.qs.table, Next(l.an));
    SectionReadsBack(ResourceKind(), p, Next(l.an), m.authorities, l.an.table, Next(l.ns));
    SectionReadsBack(ResourceKind(), p, Next(l.ns), m.additionals, l.ns.table, end);
  }

  lemma PackedSectionsRead(p: bytes, m: Message, bits: uint16, t: Table, l: Layout)
    requires EncodeWith(m, bits, t) == Ok(p) && l == LayoutOf(m, t) && TableSound(p, t) && AllOwnTypes(m)
    ensures Countable(m) && DecodeWireHeader(p) == Ok(WireHeaderOf(m, bits)) && SectionsRead(p, m, t, l, |p|)
  {
    var w := MessageParts(p, m, bits, t);
    SectionsWritten(p, m, t, l, w);
    SectionsReadBack(p, m, t, l, |p|);
  }

  /** Four sections, each read back or not. */
  lemma FourReads(p: bytes, h: WireHeader, qs: seq<Question>, an: seq<Resource>, ns: seq<Resource>, ar: seq<Resource>,
                  r1: bool, e1: nat, r2: bool, e2: nat, r3: bool, e3: nat, r4: bool, e4: nat)
    requires DecodeWireHeader(p) == Ok(h)
    requires SectionReads(QuestionKind(), p, HEADER_LEN, h.questions, qs, r1, e1)
    requires SectionReads(ResourceKind(), p, e1, h.answers, an, r2, e2)
    requires SectionReads(ResourceKind(), p, e2, h.authorities, ns, r3, e3)
    requires SectionReads(ResourceKind(), p, e3, h.additionals, ar, r4, e4)
    ensures DecodeSections(p) == if r1 && r2 && r3 && r4 then Ok(Sections(h, qs, an, ns, ar)) else Err(TooManyPtr)
  {
  }

  /** Unpacking what was packed: everything comes back, or the reader hits its pointer limit. */
  lemma UnpackPacked(p: bytes, m: Message, bits: uint16, t: Table)
    requires EncodeWith(m, bits, t) == Ok(p) && TableSound(p, t) && AllOwnTypes(m)
    ensures Countable(m)
    ensures DecodeSections(p) == if Readable(p, m, t) then Ok(FilledSections(m, bits, t)) else Err(TooManyPtr)
  {
    var l := LayoutOf(m, t);
    PackedSectionsRead(p, m, bits, t, l);
    var (an, ns, ar) := FilledRecords(m, t);
    FourReads(p, WireHeaderOf(m, bits), m.questions, an, ns, ar,
              AllReadable(QuestionKind(), p, m.questions, HEADER_LEN, t), Next(l.qs),
              AllReadable(ResourceKind(), p, m.answers, Next(l.qs), l.qs.table), Next(l.an),
              AllReadable(ResourceKind(), p, m.authorities, Next(l.an), l.an.table), Next(l.ns),
              AllReadable(ResourceKind(), p, m.additionals, Next(l.ns), l.ns.table), |p|);
  }

  /** `p` is read as the message that was packed. */
  ghost predicate Restored(p: bytes, m: Message, t: Table) {
    DecodeMessage(p) == Ok(FilledMessage(m, t))
  }

  lemma RestoredWith(p: bytes, m: Message, bits: uint16, t: Table, fits: bool)
    requires EncodeWith(m, bits, t) == Ok(p) && TableSound(p, t) && AllOwnTypes(m)
    requires HeaderFrom(m.header.id, bits) == m.header <==> fits
    ensures Restored(p, m, t) <==> fits && Readable(p, m, t)
  {
    UnpackPacked(p, m, bits, t);
  }

  /** Whole-message round trip under compression, from any sound table. A packed message comes back exactly when its two
      header codes fit four bits and no name costs the reader more than ten pointers. */
  lemma ReadableRoundTrip(p: bytes, m: Message, t: Table)
    requires EncodeWith(m, HeaderNumber(m.header), t) == Ok(p) && TableSound(p, t) && AllOwnTypes(m)
    ensures Restored(p, m, t) <==> m.header.opCode <= 15 && m.header.rCode <= 15 && Readable(p, m, t)
  {
    HeaderRoundTrip(m.header);
    RestoredWith(p, m, HeaderNumber(m.header), t, m.header.opCode <= 15 && m.header.rCode <= 15);
  }

  // ---------- Short names ----------

  predicate ShortName(n: bytes) {
    Canonical(n) ==> Labels(n) <= MAX_POINTERS
  }

  predicate ShortBody(b: Body) {
    match b
    case NS(n) => ShortName(n)
    case CNAME(n) => ShortName(n)
    case PTR(n) => ShortName(n)
    case MX(_, n) => ShortName(n)
    case SOA(ns, mbox, _, _, _, _, _) => ShortName(ns) && ShortName(mbox)
    case _ => true
  }

  predicate ShortResource(r: Resource) {
    ShortName(r.header.name) && ShortBody(r.body)
  }

  ghost predicate ShortResources(rs: seq<Resource>) {
    forall r :: r in rs ==> ShortResource(r)
  }

  /** Every name that can be compressed has at most ten segments. */
  ghost predicate ShortNames(m: Message) {
    && (forall q :: q in m.questions ==> ShortName(q.name))
    && ShortResources(m.answers) && ShortResources(m.authorities) && ShortResources(m.additionals)
  }

  lemma ShortNameReadable(m: bytes, n: bytes, t: Table)
    requires TableSound(m, t) && ShortName(n)
    ensures PointersUsed(m, n, t) <= MAX_POINTERS
  {
    if Canonical(n) {
      PointersBounded(m, n, t);
    }
  }

  lemma ShortRecordReadable(m: bytes, pos: nat, r: Resource, t: Table, w: bytes)
    requires TableSound(m, t) && ShortResource(r) && Written(m, pos, EncodeResource(r, pos, t), w)
    ensures RecordReadable(m, r.header, r.body, pos, t)
  {
    var name, t1, body := RecordParts(m, pos, r.header, RealType(r.body), r.body, t, w);
    ShortNameReadable(m, r.header.name, t);
    PackedNameKeepsTable(m, pos, r.header.name, t, name);
    ShortBodyReadable(m, pos + |name| + 10, r.body, t1, body);
  }

  lemma ShortBodyReadable(m: bytes, pos: nat, b: Body, t: Table, w: bytes)
    requires TableSound(m, t) && ShortBody(b) && Written(m, pos, EncodeBody(b, pos, t), w)
    ensures BodyReadable(m, b, pos, t)
  {
    match b {
      case NS(n) => ShortNameReadable(m, n, t);
      case CNAME(n) => ShortNameReadable(m, n, t);
      case PTR(n) => ShortNameReadable(m, n, t);
      case MX(_, n) => ShortNameReadable(m, n, t);
      case SOA(ns, mbox, _, _, _, _, _) =>
        var first := EncodeName(ns, pos, t);
        var second := EncodeName(mbox, pos + |first.out.value|, first.table);
        AtParts(m, pos, first.out.value, second.out.value + SoaTail(b));
        PackedNameKeepsTable(m, pos, ns, t, first.out.value);
        ShortNameReadable(m, ns, t);
        ShortNameReadable(m, mbox, first.table);
      case _ =>
    }
  }

  lemma ShortQuestionsNear(m: bytes, qs: seq<Question>)
    requires forall q :: q in qs ==> ShortName(q.name)
    ensures Near(QuestionKind(), m, qs)
  {
    forall q, pos, t, w | q in qs ensures ItemNear(QuestionKind(), m, q, pos, t, w) {
      if TableSound(m, t) {
        ShortNameReadable(m, q.name, t);
      }
    }
  }

  lemma ShortResourcesNear(m: bytes, rs: seq<Resource>)
    requires ShortResources(rs)
    ensures Near(ResourceKind(), m, rs)
  {
    forall r, pos, t, w | r in rs ensures ItemNear(ResourceKind(), m, r, pos, t, w) {
      if TableSound(m, t) && Written(m, pos, EncodeResource(r, pos, t), w) {
        ShortRecordReadable(m, pos, r, t, w);
      }
    }
  }

  lemma ShortNamesReadable(p: bytes, m: Message, t: Table, end: nat)
    requires SectionsAt(p, m, t, LayoutOf(m, t), end) && AllOwnTypes(m) && ShortNames(m)
    ensures Readable(p, m, t)
  {
    var l := LayoutOf(m, t);
    QuestionsLawful(p, m.questions);
    ResourcesLawful(p, m.answers);
    ResourcesLawful(p, m.authorities);
    ResourcesLawful(p, m.additionals);
    ShortQuestionsNear(p, m.questions);
    ShortResourcesNear(p, m.answers);
    ShortResourcesNear(p, m.authorities);
    ShortResourcesNear(p, m.additionals);
    NearSectionReadable(QuestionKind(), p, HEADER_LEN, m.questions, t, Next(l.qs));
    NearSectionReadable(ResourceKind(), p, Next(l.qs), m.answers, l.qs.table, Next(l.an));
    NearSectionReadable(ResourceKind(), p, Next(l.an), m.authorities, l.an.table, Next(l.ns));
    NearSectionReadable(ResourceKind(), p, Next(l.ns), m.additionals, l.ns.table, end);
  }

  /** Names of up to ten segments always come back. */
  lemma ShortNamesRoundTrip(p: bytes, m: Message, t: Table)
    requires EncodeWith(m, HeaderNumber(m.header), t) == Ok(p) && TableSound(p, t) && AllOwnTypes(m) && ShortNames(m)
    ensures Restored(p, m, t) <==> m.header.opCode <= 15 && m.header.rCode <= 15
  {
    var w := MessageParts(p, m, HeaderNumber(m.header), t);
    SectionsWritten(p, m, t, LayoutOf(m, t), w);
    ShortNamesReadable(p, m, t, HEADER_LEN + |w|);
    ReadableRoundTrip(p, m, t);
  }
}
