/** The incremental message builder, and what holds over every run of it (internal/dnsmessage/message.go). */
module Building {
  import opened Wire
  import opened Compression
  import opened TableSoundness
  import opened Records
  import opened Sequences
  import opened Messages
  import opened MessageRoundTrip
  import opened PointerOrder
  import opened Reach
  import opened StaleTable
  import opened PackFaults
  import opened Packing

  // ---------- One item more ----------

  /** `x` behind what `e` wrote from `pos` on. */
  function Behind<T>(enc: Encoder<T>, e: Encoded, pos: nat, x: T): Encoded {
    if e.out.Err? then e else Prefixed(e.out.value, enc(x, pos + |e.out.value|, e.table))
  }

  lemma {:induction false} ItemsOneMore<T>(enc: Encoder<T>, xs: seq<T>, x: T, pos: nat, t: Table)
    ensures EncodeItems(enc, xs + [x], pos, t) == Behind(enc, EncodeItems(enc, xs, pos, t), pos, x)
    decreases |xs|
  {
    var e := enc((xs + [x])[0], pos, t);
    assert (xs + [x])[1..] == if xs == [] then [] else xs[1..] + [x];
    if xs == [] {
      if e.out.Ok? {
        assert e.out.value + [] == e.out.value && [] + e.out.value == e.out.value;
      }
    } else if e.out.Ok? {
      ItemsOneMore(enc, xs[1..], x, pos + |e.out.value|, e.table);
      BehindPrefixed(enc, e.out.value, EncodeItems(enc, xs[1..], pos + |e.out.value|, e.table), pos, x);
    }
  }

  lemma BehindPrefixed<T>(enc: Encoder<T>, head: bytes, e: Encoded, pos: nat, x: T)
    ensures Prefixed(head, Behind(enc, e, pos + |head|, x)) == Behind(enc, Prefixed(head, e), pos, x)
  {
    if e.out.Ok? {
      PrefixedTwice(head, e.out.value, enc(x, pos + |head| + |e.out.value|, e.table));
    }
  }

  lemma ThenOneMore(enc: Encoder<Resource>, e: Encoded, pos: nat, rs: seq<Resource>, r: Resource)
    ensures Then(enc, e, pos, rs + [r]) == Behind(enc, Then(enc, e, pos, rs), pos, r)
  {
    if e.out.Ok? {
      ItemsOneMore(enc, rs, r, pos + |e.out.value|, e.table);
      BehindPrefixed(enc, e.out.value, EncodeItems(enc, rs, pos + |e.out.value|, e.table), pos, r);
    }
  }

  lemma ThenNothing(enc: Encoder<Resource>, e: Encoded, pos: nat)
    ensures Then(enc, e, pos, []) == e
  {
    if e.out.Ok? {
      assert e.out.value + [] == e.out.value;
    }
  }

  // ---------- The log of a run ----------

  /** A record whose header goes out as it is, type included. */
  function EncodeTyped(r: Resource, pos: nat, t: Table): Encoded {
    EncodeRecord(r.header, r.header.typ, r.body, pos, t)
  }

  predicate ResourceSection(s: Section) {
    SECTION_ANSWERS <= s <= SECTION_ADDITIONALS
  }

  ghost function WithResource(log: Message, s: Section, r: Resource): Message
    requires ResourceSection(s)
  {
    if s == SECTION_ANSWERS then log.(answers := log.answers + [r])
    else if s == SECTION_AUTHORITIES then log.(authorities := log.authorities + [r])
    else log.(additionals := log.additionals + [r])
  }

  /** Nothing was added to the sections behind `s`. */
  ghost predicate NothingBehind(log: Message, s: Section) {
    && (s < SECTION_QUESTIONS ==> log.questions == []) && (s < SECTION_ANSWERS ==> log.answers == [])
    && (s < SECTION_AUTHORITIES ==> log.authorities == []) && (s < SECTION_ADDITIONALS ==> log.additionals == [])
  }

  ghost predicate NoItems(log: Message) {
    log.questions == [] && log.answers == [] && log.authorities == [] && log.additionals == []
  }

  lemma NoContent(log: Message, t: Table)
    requires NoItems(log)
    ensures ContentOf(EncodeTyped, log, t) == Encoded(Ok([]), t)
  {
  }

  lemma QuestionContent(log: Message, t: Table, q: Question)
    requires NothingBehind(log, SECTION_QUESTIONS)
    ensures ContentOf(EncodeTyped, log.(questions := log.questions + [q]), t)
         == Behind(EncodeQuestion, ContentOf(EncodeTyped, log, t), HEADER_LEN, q)
  {
    ItemsOneMore(EncodeQuestion, log.questions, q, HEADER_LEN, t);
    QuestionsOnly(log, t);
    QuestionsOnly(log.(questions := log.questions + [q]), t);
  }

  lemma QuestionsOnly(log: Message, t: Table)
    requires NothingBehind(log, SECTION_QUESTIONS)
    ensures ContentOf(EncodeTyped, log, t) == EncodeItems(EncodeQuestion, log.questions, HEADER_LEN, t)
  {
    ThenNothing(EncodeTyped, EncodeItems(EncodeQuestion, log.questions, HEADER_LEN, t), HEADER_LEN);
  }

  lemma ResourceContent(log: Message, s: Section, t: Table, r: Resource)
    requires ResourceSection(s) && NothingBehind(log, s)
    ensures ContentOf(EncodeTyped, WithResource(log, s, r), t)
         == Behind(EncodeTyped, ContentOf(EncodeTyped, log, t), HEADER_LEN, r)
  {
    var qs := EncodeItems(EncodeQuestion, log.questions, HEADER_LEN, t);
    ResourceContentBehind(EncodeTyped, qs, s, log.answers, log.authorities, log.additionals, r);
  }

  lemma ResourceContentBehind(enc: Encoder<Resource>, qs: Encoded, s: Section,
                              rs1: seq<Resource>, rs2: seq<Resource>, rs3: seq<Resource>, r: Resource)
    requires ResourceSection(s) && (s < SECTION_AUTHORITIES ==> rs2 == []) && (s < SECTION_ADDITIONALS ==> rs3 == [])
    ensures var rs1' := if s == SECTION_ANSWERS then rs1 + [r] else rs1;
            var rs2' := if s == SECTION_AUTHORITIES then rs2 + [r] else rs2;
            var rs3' := if s == SECTION_ADDITIONALS then rs3 + [r] else rs3;
            Then(enc, Then(enc, Then(enc, qs, HEADER_LEN, rs1'), HEADER_LEN, rs2'), HEADER_LEN, rs3') ==
            Behind(enc, Then(enc, Then(enc, Then(enc, qs, HEADER_LEN, rs1), HEADER_LEN, rs2), HEADER_LEN, rs3), HEADER_LEN, r)
  {
    var an := Then(enc, qs, HEADER_LEN, rs1);
    var ns := Then(enc, an, HEADER_LEN, rs2);
    if s == SECTION_ANSWERS {
      ThenOneMore(enc, qs, HEADER_LEN, rs1, r);
      var an' := Then(enc, qs, HEADER_LEN, rs1 + [r]);
      ThenNothing(enc, an, HEADER_LEN);
      ThenNothing(enc, an', HEADER_LEN);
    } else if s == SECTION_AUTHORITIES {
      ThenOneMore(enc, an, HEADER_LEN, rs2, r);
      ThenNothing(enc, ns, HEADER_LEN);
      ThenNothing(enc, Then(enc, an, HEADER_LEN, rs2 + [r]), HEADER_LEN);
    } else {
      ThenOneMore(enc, ns, HEADER_LEN, rs3, r);
    }
  }

  // ---------- The builder ----------

  function TooMany(s: Section): Error
    requires SECTION_QUESTIONS <= s <= SECTION_ADDITIONALS
  {
    if s == SECTION_QUESTIONS then TooManyQuestions
    else if s == SECTION_ANSWERS then TooManyAnswers
    else if s == SECTION_AUTHORITIES then TooManyAuthorities
    else TooManyAdditionals
  }

  /** Why an append in section `s` fails, if it does. */
  function WhyRefused(out: Result<bytes>, h: WireHeader, s: Section): Option<Error>
    requires SECTION_QUESTIONS <= s <= SECTION_ADDITIONALS
  {
    if out.Err? then Some(out.error) else if CountOf(h, s) == MAX_UINT16 then Some(TooMany(s)) else None
  }

  function WrongSection(at: Section, low: Section, high: Section): Option<Error> {
    if at < low then Some(NotStarted) else if at > high then Some(SectionDone) else None
  }

  function Incremented(h: WireHeader, s: Section): WireHeader
    requires SECTION_QUESTIONS <= s <= SECTION_ADDITIONALS && CountOf(h, s) < MAX_UINT16
  {
    if s == SECTION_QUESTIONS then h.(questions := h.questions + 1)
    else if s == SECTION_ANSWERS then h.(answers := h.answers + 1)
    else if s == SECTION_AUTHORITIES then h.(authorities := h.authorities + 1)
    else h.(additionals := h.additionals + 1)
  }

  /** What the code's state says about a run so far, next to what the run did. `clean`: no append that failed
      has left entries in the table. `faithful`: the table was never replaced midway either. */
  datatype History = History(log: Message, t0: Table, clean: bool, faithful: bool)

  /** The invariant of every run: `c` stands behind the header, `t` is the table. */
  ghost predicate Consistent(r: History, s: Section, h: WireHeader, c: bytes, t: Table) {
    && NothingBehind(r.log, s) && Countable(r.log) && h == WireHeaderOf(r.log, HeaderNumber(r.log.header))
    && (r.t0 == None || r.t0 == EMPTY_TABLE)
    && (r.clean ==> SoundBehindHeader(c, t))
    && (r.faithful ==> ContentOf(EncodeTyped, r.log, r.t0) == Encoded(Ok(c), t))
    && (NoItems(r.log) ==> c == [])
  }

  /** An append that failed and left the table as `t'`. */
  function Failed(r: History, t: Table, t': Table): History {
    r.(clean := r.clean && t' == t, faithful := r.faithful && t' == t)
  }

  lemma FailedConsistent(r: History, s: Section, h: WireHeader, c: bytes, t: Table, t': Table)
    requires Consistent(r, s, h, c, t) && Extends(t, t', HEADER_LEN + |c|)
    ensures Consistent(Failed(r, t, t'), s, h, c, t')
    ensures r.clean ==> (Failed(r, t, t').clean <==> SoundBehindHeader(c, t'))
  {
    if r.clean {
      DroppedAppend(c, t, t');
    }
  }

  lemma QuestionConsistent(r: History, h: WireHeader, c: bytes, t: Table, q: Question, w: bytes, t': Table)
    requires Consistent(r, SECTION_QUESTIONS, h, c, t) && h.questions < MAX_UINT16
    requires EncodeQuestion(q, HEADER_LEN + |c|, t) == Encoded(Ok(w), t')
    ensures Consistent(r.(log := r.log.(questions := r.log.questions + [q])), SECTION_QUESTIONS,
                       h.(questions := h.questions + 1), c + w, t')
  {
    if r.clean {
      QuestionGrowsSoundly(c, t, q, w, t');
    }
    if r.faithful {
      QuestionContent(r.log, r.t0, q);
    }
  }

  lemma ResourceConsistent(r: History, s: Section, h: WireHeader, c: bytes, t: Table, x: Resource, w: bytes, t': Table)
    requires ResourceSection(s) && Consistent(r, s, h, c, t) && CountOf(h, s) < MAX_UINT16
    requires EncodeTyped(x, HEADER_LEN + |c|, t) == Encoded(Ok(w), t')
    ensures Consistent(r.(log := WithResource(r.log, s, x)), s, Incremented(h, s), c + w, t')
  {
    ResourceCounted(r.log, s, h, x);
    if r.clean {
      RecordGrowsSoundly(c, t, x.header, x.body, w, t');
    }
    if r.faithful {
      ResourceContent(r.log, s, r.t0, x);
    }
  }

  lemma ResourceCounted(log: Message, s: Section, h: WireHeader, x: Resource)
    requires ResourceSection(s) && NothingBehind(log, s) && Countable(log) && h == WireHeaderOf(log, HeaderNumber(log.header))
    requires CountOf(h, s) < MAX_UINT16
    ensures var log' := WithResource(log, s, x);
      && NothingBehind(log', s) && Countable(log') && Incremented(h, s) == WireHeaderOf(log', HeaderNumber(log'.header)) && !NoItems(log')
  {
  }

  // ---------- Finished runs ----------

  ghost predicate Typed(rs: seq<Resource>) {
    forall r {:trigger r in rs} :: r in rs ==> !r.body.NilBody? && r.header.typ == RealType(r.body)
  }

  ghost predicate AllTyped(m: Message) {
    Typed(m.answers) && Typed(m.authorities) && Typed(m.additionals)
  }

  ghost predicate Alike<T(!new)>(enc: Encoder<T>, enc': Encoder<T>, xs: seq<T>) {
    forall x, pos, t {:trigger enc(x, pos, t)} :: x in xs ==> enc(x, pos, t) == enc'(x, pos, t)
  }

  lemma {:induction false} AlikeItems<T(!new)>(enc: Encoder<T>, enc': Encoder<T>, xs: seq<T>, pos: nat, t: Table)
    requires Alike(enc, enc', xs)
    ensures EncodeItems(enc, xs, pos, t) == EncodeItems(enc', xs, pos, t)
    decreases |xs|
  {
    if xs != [] {
      var e := enc(xs[0], pos, t);
      if e.out.Ok? {
        AlikeItems(enc, enc', xs[1..], pos + |e.out.value|, e.table);
      }
    }
  }

  lemma AlikeThen(enc: Encoder<Resource>, enc': Encoder<Resource>, e: Encoded, rs: seq<Resource>)
    requires Alike(enc, enc', rs)
    ensures Then(enc, e, HEADER_LEN, rs) == Then(enc', e, HEADER_LEN, rs)
  {
    if e.out.Ok? {
      AlikeItems(enc, enc', rs, HEADER_LEN + |e.out.value|, e.table);
    }
  }

  lemma TypedAlike(rs: seq<Resource>)
    requires Typed(rs)
    ensures Alike(EncodeTyped, EncodeResource, rs)
  {
  }

  lemma TypedContent(m: Message, t: Table)
    requires AllTyped(m)
    ensures ContentOf(EncodeTyped, m, t) == Content(m, t)
  {
    TypedAlike(m.answers);
    TypedAlike(m.authorities);
    TypedAlike(m.additionals);
    AlikeContent(EncodeTyped, EncodeResource, m, t);
  }

  lemma AlikeContent(enc: Encoder<Resource>, enc': Encoder<Resource>, m: Message, t: Table)
    requires Alike(enc, enc', m.answers) && Alike(enc, enc', m.authorities) && Alike(enc, enc', m.additionals)
    ensures ContentOf(enc, m, t) == ContentOf(enc', m, t)
  {
    var qs := EncodeItems(EncodeQuestion, m.questions, HEADER_LEN, t);
    AlikeThen(enc, enc', qs, m.answers);
    AlikeThen(enc, enc', Then(enc, qs, HEADER_LEN, m.answers), m.authorities);
    AlikeThen(enc, enc', Then(enc, Then(enc, qs, HEADER_LEN, m.answers), HEADER_LEN, m.authorities), m.additionals);
  }

  /** What a faithful run has built: the encoding of its log. If all records carry the types of their bodies, this is byte for
      byte what AppendPack packs when compression was enabled from the start; and, compressed or not, it is read back as the
      log exactly if the two header codes fit four bits and no name costs more than ten pointers. */
  ghost predicate Built(log: Message, t0: Table, p: bytes) {
    && EncodeAs(EncodeTyped, log, HeaderNumber(log.header), t0) == Ok(p)
    && (AllTyped(log) && t0 == EMPTY_TABLE ==> EncodeMessage(log) == Ok(p))
    && (AllTyped(log) && AllOwnTypes(log) ==>
         (DecodeMessage(p) == Ok(FilledMessage(log, t0)) <==> log.header.opCode <= 15 && log.header.rCode <= 15 && Within(log, t0)))
  }

  lemma FinishedRun(log: Message, t0: Table, p: bytes)
    requires EncodeAs(EncodeTyped, log, HeaderNumber(log.header), t0) == Ok(p) && (t0 == None || t0 == EMPTY_TABLE)
    ensures Built(log, t0, p)
  {
    if AllTyped(log) {
      TypedContent(log, t0);
      if AllOwnTypes(log) {
        RoundTrip(p, log, t0);
      }
    }
  }

  // ---------- Pointers of a clean run ----------

  /** Entries that are sound behind the header point in front of what comes next. */
  lemma SoundIsBelow(c: bytes, t: Table)
    requires SoundBehindHeader(c, t)
    ensures Below(t, HEADER_LEN + |c|)
  {
    var m := seq(HEADER_LEN, _ => 0) + c;
    assert TableSound(m, t);
    if t.Some? {
      forall k | k in t.value ensures t.value[k] < |m| {
        assert EntrySound(m, k, t.value[k]);
      }
    }
  }

  /** As long as no failed append has left entries, every name goes out with pointers that go strictly backward. */
  lemma CleanQuestionBackward(c: bytes, t: Table, q: Question)
    requires SoundBehindHeader(c, t) && EncodeQuestion(q, HEADER_LEN + |c|, t).out.Ok?
    ensures QuestionBackward(q, HEADER_LEN + |c|, t)
  {
    SoundIsBelow(c, t);
    QuestionGoesBackward(q, HEADER_LEN + |c|, t);
  }

  lemma CleanRecordBackward(c: bytes, t: Table, h: ResourceHeader, b: Body)
    requires SoundBehindHeader(c, t) && EncodeRecord(h, h.typ, b, HEADER_LEN + |c|, t).out.Ok?
    ensures RecordBackward(h, b, HEADER_LEN + |c|, t)
  {
    SoundIsBelow(c, t);
    RecordGoesBackward(h, h.typ, b, HEADER_LEN + |c|, t);
  }

  /** What an append is worth: the invariant behind it if it is kept, and pointers that go backward if the run is clean. */
  ghost predicate Worthy(r: History, log: Message, s: Section, h: WireHeader, c: bytes, e: Encoded, backward: bool)
    requires SECTION_QUESTIONS <= s <= SECTION_ADDITIONALS
  {
    WhyRefused(e.out, h, s).None? ==>
      Consistent(r.(log := log), s, Incremented(h, s), c + e.out.value, e.table) && (r.clean ==> backward)
  }

  lemma QuestionWorthy(r: History, h: WireHeader, c: bytes, t: Table, q: Question, at: nat, e: Encoded)
    requires Consistent(r, SECTION_QUESTIONS, h, c, t) && at == HEADER_LEN + |c| && e == EncodeQuestion(q, at, t)
    ensures Worthy(r, r.log.(questions := r.log.questions + [q]), SECTION_QUESTIONS, h, c, e, QuestionBackward(q, at, t))
  {
    if WhyRefused(e.out, h, SECTION_QUESTIONS).None? {
      QuestionConsistent(r, h, c, t, q, e.out.value, e.table);
      if r.clean {
        CleanQuestionBackward(c, t, q);
      }
    }
  }

  lemma ResourceWorthy(r: History, s: Section, h: WireHeader, c: bytes, t: Table, x: Resource, at: nat, e: Encoded)
    requires ResourceSection(s) && Consistent(r, s, h, c, t) && at == HEADER_LEN + |c| && e == EncodeTyped(x, at, t)
    ensures Worthy(r, WithResource(r.log, s, x), s, h, c, e, ResourceBackward(x, at, t))
  {
    if WhyRefused(e.out, h, s).None? {
      ResourceConsistent(r, s, h, c, t, x, e.out.value, e.table);
      if r.clean {
        CleanRecordBackward(c, t, x.header, x.body);
      }
    }
  }

  /** Why an append behind `log` fails, in numbers: the item's own fault, or a section of 65535 items. */
  function Refusal(fault: Option<Error>, log: Message, s: Section): Option<Error> {
    if fault.Some? then fault
    else if s == 2 && |log.questions| == 65535 then Some(TooManyQuestions)
    else if s == 3 && |log.answers| == 65535 then Some(TooManyAnswers)
    else if s == 4 && |log.authorities| == 65535 then Some(TooManyAuthorities)
    else if s == 5 && |log.additionals| == 65535 then Some(TooManyAdditionals)
    else None
  }

  lemma RefusedExactly(log: Message, s: Section, h: WireHeader, out: Result<bytes>, fault: Option<Error>)
    requires 2 <= s <= 5 && Countable(log) && h == WireHeaderOf(log, HeaderNumber(log.header)) && Meets(out, fault)
    ensures WhyRefused(out, h, s) == Refusal(fault, log, s)
  {
  }

  lemma CleanFits(c: bytes, t: Table)
    requires SoundBehindHeader(c, t)
    ensures TableFits(t)
  {
    var m := seq(HEADER_LEN, _ => 0) + c;
    assert TableSound(m, t);
    SoundFits(m, t);
  }

  /** In a clean run, what was appended before does not decide whether an item can be written. */
  lemma CleanQuestionRefused(r: History, h: WireHeader, c: bytes, t: Table, q: Question, at: nat)
    requires Consistent(r, SECTION_QUESTIONS, h, c, t) && r.clean
    ensures WhyRefused(EncodeQuestion(q, at, t).out, h, SECTION_QUESTIONS) == Refusal(QuestionFault(q), r.log, SECTION_QUESTIONS)
  {
    CleanFits(c, t);
    QuestionMeets(q, at, t);
    RefusedExactly(r.log, SECTION_QUESTIONS, h, EncodeQuestion(q, at, t).out, QuestionFault(q));
  }

  lemma CleanRecordRefused(r: History, s: Section, h: WireHeader, c: bytes, t: Table, x: Resource, at: nat)
    requires ResourceSection(s) && Consistent(r, s, h, c, t) && r.clean
    ensures WhyRefused(EncodeTyped(x, at, t).out, h, s) == Refusal(RecordFault(x.header, x.body), r.log, s)
  {
    CleanFits(c, t);
    RecordMeets(x.header, x.header.typ, x.body, at, t);
    RefusedExactly(r.log, s, h, EncodeTyped(x, at, t).out, RecordFault(x.header, x.body));
  }

  lemma PartsGrow(msg: bytes, w: bytes, start: nat, from: nat)
    requires start <= from <= |msg|
    ensures (msg + w)[..start] == msg[..start] && (msg + w)[from..] == msg[from..] + w
  {
  }

  // ---------- The builder's methods ----------

  /** The builder's fields. */
  datatype State = State(msg: bytes, section: Section, header: WireHeader, compression: Table, run: History)

  /** After an append that encodes as `e` and, if it succeeds, turns the log into `log`. */
  ghost function AfterAppend(b: State, e: Encoded, log: Message): State
    requires SECTION_QUESTIONS <= b.section <= SECTION_ADDITIONALS
  {
    if WhyRefused(e.out, b.header, b.section).Some? then
      b.(compression := e.table, run := Failed(b.run, b.compression, e.table))
    else
      b.(msg := b.msg + e.out.value, header := Incremented(b.header, b.section), compression := e.table,
         run := b.run.(log := log))
  }

  /** The outcome of an append that encodes as `e`: the whole new state; and, in a clean run, pointers that go backward if
      it succeeds, and a table that stays sound exactly if it stays as it was if it fails. */
  ghost predicate Appended(b: State, b': State, err: Option<Error>, e: Encoded, log: Message, backward: bool, sound: bool) {
    && SECTION_QUESTIONS <= b.section <= SECTION_ADDITIONALS
    && err == WhyRefused(e.out, b.header, b.section) && b' == AfterAppend(b, e, log)
    && (b.run.clean ==> if err.None? then backward else (b'.run.clean <==> sound))
  }

  ghost predicate ResourceAppended(b: State, b': State, err: Option<Error>, r: Resource, at: nat, sound: bool)
    requires ResourceSection(b.section)
  {
    Appended(b, b', err, EncodeTyped(r, at, b.compression), WithResource(b.run.log, b.section, r),
             ResourceBackward(r, at, b.compression), sound)
  }

  class Builder {
    var msg: bytes
    var section: Section
    var header: WireHeader
    var start: nat
    var compression: Table

    /** What the caller's buffer held, and what was done since. */
    ghost var before: bytes
    ghost var run: History

    ghost predicate Valid()
      reads this
    {
      section >= SECTION_HEADER ==> Laid() && Consistent(run, section, header, Body(), compression)
    }

    ghost predicate Laid()
      reads this
    {
      start + HEADER_LEN <= |msg| && start == |before| && msg[..start] == before
    }

    /** What was appended so far, behind the twelve bytes left for the header. */
    ghost function Body(): bytes
      requires Laid()
      reads this
    {
      msg[start + HEADER_LEN..]
    }

    constructor (buf: bytes, h: Header)
      ensures Valid() && section == SECTION_HEADER && before == buf && compression == None
      ensures header == WireHeader(h.id, HeaderNumber(h), 0, 0, 0, 0)
      ensures run == History(Message(h, [], [], [], []), None, true, true)
    {
      msg := buf + seq(HEADER_LEN, _ => 0);
      start := |buf|;
      header := WireHeader(h.id, HeaderNumber(h), 0, 0, 0, 0);
      section := SECTION_HEADER;
      compression := None;
      before := buf;
      run := History(Message(h, [], [], [], []), None, true, true);
      new;
      NoContent(run.log, None);
      NoEntriesSound([], None);
      assert Body() == [];
    }

    /** A builder that was not started. */
    constructor Unstarted()
      ensures Valid() && section == SECTION_NOT_STARTED
    {
      msg, start, section, compression := [], 0, SECTION_NOT_STARTED, None;
      header := WireHeader(0, 0, 0, 0, 0, 0);
    }

    /** Compression starts with an empty table, which also forgets what failed appends left in it. */
    method EnableCompression()
      requires Valid()
      modifies this`compression, this`run
      ensures Valid() && compression == EMPTY_TABLE
      ensures NoItems(run.log) ==> run == History(old(run).log, EMPTY_TABLE, true, true)
      ensures !NoItems(run.log) ==> run == History(old(run).log, old(run).t0, true, false)
    {
      compression := EMPTY_TABLE;
      run := if NoItems(run.log) then History(run.log, EMPTY_TABLE, true, true) else History(run.log, run.t0, true, false);
      if section >= SECTION_HEADER {
        NoEntriesSound(Body(), EMPTY_TABLE);
        if NoItems(run.log) {
          NoContent(run.log, EMPTY_TABLE);
        }
      }
    }

    /** StartQuestions, StartAnswers, StartAuthorities and StartAdditionals: sections only move forward. */
    method StartSection(s: Section) returns (err: Option<Error>)
      requires Valid() && SECTION_QUESTIONS <= s <= SECTION_ADDITIONALS
      modifies this`section
      ensures Valid()
      ensures err == if old(section) < 1 then Some(NotStarted) else if old(section) > s then Some(SectionDone) else None
      ensures section == if err.None? then s else old(section)
    {
      if section <= SECTION_NOT_STARTED {
        return Some(NotStarted);
      }
      if section > s {
        return Some(SectionDone);
      }
      section := s;
      return None;
    }

    method IncrementSectionCount() returns (err: Option<Error>)
      requires SECTION_QUESTIONS <= section <= SECTION_ADDITIONALS
      modifies this`header
      ensures err == if CountOf(old(header), section) == MAX_UINT16 then Some(TooMany(section)) else None
      ensures err.Some? ==> header == old(header)
      ensures err.None? ==> header == Incremented(old(header), section)
    {
      if CountOf(header, section) == MAX_UINT16 {
        return Some(TooMany(section));
      }
      if section == SECTION_QUESTIONS {
        header := header.(questions := header.questions + 1);
      } else if section == SECTION_ANSWERS {
        header := header.(answers := header.answers + 1);
      } else if section == SECTION_AUTHORITIES {
        header := header.(authorities := header.authorities + 1);
      } else {
        header := header.(additionals := header.additionals + 1);
      }
      return None;
    }

    ghost function Now(): State
      reads this
    {
      State(msg, section, header, compression, run)
    }

    /** What every append does once its item is packed: count it and keep the bytes, or drop them. A failure keeps
        the message but perhaps not the table, and then the table stays sound exactly if it stays as it was. */
    method Commit(packed: Result<bytes>, table: Table, ghost e: Encoded, ghost log: Message, ghost backward: bool)
      returns (err: Option<Error>)
      requires SECTION_QUESTIONS <= section <= SECTION_ADDITIONALS && Valid()
      requires Encoded(packed, table) == Prefixed(msg, e) && Extends(compression, table, HEADER_LEN + |Body()|)
      requires Worthy(run, log, section, header, Body(), e, backward)
      modifies this`msg, this`header, this`compression, this`run
      ensures Valid()
      ensures Appended(old(Now()), Now(), err, e, log, backward, SoundBehindHeader(Body(), compression))
    {
      ghost var c, t := Body(), compression;
      compression := table;
      if packed.Err? {
        err := Some(packed.error);
      } else {
        err := IncrementSectionCount();
      }
      if err.Some? {
        FailedConsistent(run, section, header, c, t, table);
        run := Failed(run, t, table);
        return;
      }
      PartsGrow(msg, e.out.value, start, start + HEADER_LEN);
      msg := packed.value;
      run := run.(log := log);
    }

    method AddQuestion(q: Question) returns (err: Option<Error>)
      requires Valid()
      modifies this`msg, this`header, this`compression, this`run
      ensures Valid()
      ensures var wrong := WrongSection(section, SECTION_QUESTIONS, SECTION_QUESTIONS);
        if wrong.Some? then err == wrong && Now() == old(Now())
        else
          var at, t := old(|msg|) - start, old(compression);
          Appended(old(Now()), Now(), err, EncodeQuestion(q, at, t), old(run).log.(questions := old(run).log.questions + [q]),
                   QuestionBackward(q, at, t), SoundBehindHeader(Body(), compression))
      ensures old(section) < 2 ==> err == Some(NotStarted)
      ensures old(section) > 2 ==> err == Some(SectionDone)
      ensures old(section) == 2 && old(run).clean ==> err == Refusal(QuestionFault(q), old(run).log, 2)
    {
      if section < SECTION_QUESTIONS {
        return Some(NotStarted);
      }
      if section > SECTION_QUESTIONS {
        return Some(SectionDone);
      }
      ghost var at := |msg| - start;
      var packed, table, e := PackNextQuestion(q, at);
      err := Commit(packed, table, e, run.log.(questions := run.log.questions + [q]), QuestionBackward(q, at, compression));
    }

    /** The packed question, and what Commit wants to know of it. */
    method PackNextQuestion(q: Question, ghost at: nat) returns (packed: Result<bytes>, table: Table, ghost e: Encoded)
      requires Valid() && section == SECTION_QUESTIONS && at == |msg| - start
      ensures e == EncodeQuestion(q, at, compression) && Encoded(packed, table) == Prefixed(msg, e)
      ensures Extends(compression, table, HEADER_LEN + |Body()|)
      ensures Worthy(run, run.log.(questions := run.log.questions + [q]), section, header, Body(), e,
                     QuestionBackward(q, at, compression))
      ensures run.clean ==> WhyRefused(e.out, header, section) == Refusal(QuestionFault(q), run.log, section)
    {
      if run.clean {
        CleanQuestionRefused(run, header, Body(), compression, q, at);
      }
      packed, table := PackQuestion(q, msg, compression, start);
      e := EncodeQuestion(q, at, compression);
      QuestionExtends(q, at, compression);
      QuestionWorthy(run, header, Body(), compression, q, at, e);
    }

    /** Adds a record with its header as given (Resource). */
    method AddResource(h: ResourceHeader, b: Body) returns (err: Option<Error>)
      requires Valid() && !b.NilBody?
      modifies this`msg, this`header, this`compression, this`run
      ensures Valid()
      ensures var wrong := WrongSection(section, SECTION_ANSWERS, SECTION_ADDITIONALS);
        if wrong.Some? then err == wrong && Now() == old(Now())
        else
          ResourceAppended(old(Now()), Now(), err, Resource(h, b), old(|msg|) - start, SoundBehindHeader(Body(), compression))
      ensures old(section) < 3 ==> err == Some(NotStarted)
      ensures old(section) > 5 ==> err == Some(SectionDone)
      ensures 3 <= old(section) <= 5 && old(run).clean ==> err == Refusal(RecordFault(h, b), old(run).log, old(section))
    {
      if section < SECTION_ANSWERS {
        return Some(NotStarted);
      }
      if section > SECTION_ADDITIONALS {
        return Some(SectionDone);
      }
      err := AppendRecord(Resource(h, b));
    }

    /** The packed record, and what Commit wants to know of it. */
    method PackNext(r: Resource, ghost at: nat) returns (packed: Result<bytes>, table: Table, ghost e: Encoded)
      requires Valid() && ResourceSection(section) && at == |msg| - start
      ensures e == EncodeTyped(r, at, compression) && Encoded(packed, table) == Prefixed(msg, e)
      ensures Extends(compression, table, HEADER_LEN + |Body()|)
      ensures Worthy(run, WithResource(run.log, section, r), section, header, Body(), e, ResourceBackward(r, at, compression))
      ensures run.clean ==> WhyRefused(e.out, header, section) == Refusal(RecordFault(r.header, r.body), run.log, section)
    {
      if run.clean {
        CleanRecordRefused(run, section, header, Body(), compression, r, at);
      }
      packed, table := PackRecord(r.header, r.body, msg, compression, start);
      e := EncodeTyped(r, at, compression);
      RecordExtends(r.header, r.header.typ, r.body, at, compression);
      ResourceWorthy(run, section, header, Body(), compression, r, at, e);
    }

    method AppendRecord(r: Resource) returns (err: Option<Error>)
      requires Valid() && ResourceSection(section)
      modifies this`msg, this`header, this`compression, this`run
      ensures Valid() && ResourceAppended(old(Now()), Now(), err, r, old(|msg|) - start, SoundBehindHeader(Body(), compression))
      ensures old(run).clean ==> err == Refusal(RecordFault(r.header, r.body), old(run).log, old(section))
    {
      ghost var at := |msg| - start;
      var packed, table, e := PackNext(r, at);
      err := Commit(packed, table, e, WithResource(run.log, section, r), ResourceBackward(r, at, compression));
    }

    /** The typed variants (AResource, CNAMEResource, ...): the header gets the type of the body first. */
    method AddTypedResource(h: ResourceHeader, b: Body) returns (err: Option<Error>)
      requires Valid() && !b.NilBody?
      modifies this`msg, this`header, this`compression, this`run
      ensures Valid()
      ensures var wrong := WrongSection(section, SECTION_ANSWERS, SECTION_ADDITIONALS);
        if wrong.Some? then err == wrong && Now() == old(Now())
        else
          ResourceAppended(old(Now()), Now(), err, Resource(h.(typ := RealType(b)), b), old(|msg|) - start,
                           SoundBehindHeader(Body(), compression))
      ensures old(section) < 3 ==> err == Some(NotStarted)
      ensures old(section) > 5 ==> err == Some(SectionDone)
      ensures 3 <= old(section) <= 5 && old(run).clean ==> err == Refusal(RecordFault(h, b), old(run).log, old(section))
    {
      err := AddResource(h.(typ := RealType(b)), b);
    }

    /** The header goes into the twelve bytes left for it. */
    method Finish() returns (r: Result<bytes>)
      requires Valid()
      modifies this`msg, this`section
      ensures Valid()
      ensures old(section) < SECTION_HEADER ==> r == Err(NotStarted) && msg == old(msg) && section == old(section)
      ensures old(section) >= SECTION_HEADER ==>
        && section == SECTION_DONE && r == Ok(msg)
        && msg == before + (EncodeHeader(WireHeaderOf(run.log, HeaderNumber(run.log.header))) + old(Body()))
        && (run.clean ==> TableSound(msg[start..], compression))
        && (run.faithful ==> Built(run.log, run.t0, msg[start..]))
    {
      if section < SECTION_HEADER {
        return Err(NotStarted);
      }
      ghost var c := Body();
      section := SECTION_DONE;
      msg := msg[..start] + EncodeHeader(header) + msg[start + HEADER_LEN..];
      assert Body() == c;
      assert msg == before + (EncodeHeader(header) + c);
      assert msg[start..] == EncodeHeader(header) + c;
      if run.faithful {
        FinishedRun(run.log, run.t0, msg[start..]);
      }
      return Ok(msg);
    }
  }
}
