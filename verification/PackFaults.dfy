/** When packing succeeds, and why it fails otherwise: told from the message alone, in numbers
    (internal/dnsmessage/message.go). */
module PackFaults {
  import opened Wire
  import opened Names
  import opened Compression
  import opened TableSoundness
  import opened Records
  import opened Sequences
  import opened Messages

  // ---------- Names ----------

  /** The first segment that does not fit, seen character by character: `run` characters of it have passed. */
  function SegmentFault(n: bytes, i: nat, run: nat): Option<Error>
    requires i <= |n|
    decreases |n| - i
  {
    if i == |n| then None
    else if n[i] != 46 then SegmentFault(n, i + 1, run + 1)
    else if run == 0 then Some(ZeroSegLen)
    else if run > 63 then Some(SegTooLong)
    else SegmentFault(n, i + 1, 0)
  }

  /** At most 254 bytes that end in a dot: the root alone, or segments of 1 to 63 characters. */
  function NameFault(n: bytes): Option<Error> {
    if |n| > 254 then Some(NameTooLong)
    else if n == [] || n[|n| - 1] != 46 then Some(NonCanonicalName)
    else if n == [46] then None
    else SegmentFault(n, 0, 0)
  }

  /** From inside a segment to its dot. */
  lemma {:induction false} FaultAtDot(n: bytes, i: nat, dot: nat, run: nat)
    requires i <= dot < |n| && n[dot] == 46 && forall k :: i <= k < dot ==> n[k] != 46
    ensures SegmentFault(n, i, run) == SegmentFault(n, dot, run + (dot - i))
    decreases dot - i
  {
    if i < dot {
      FaultAtDot(n, i + 1, dot, run + 1);
    }
  }

  /** What is in front of a suffix does not matter to it. */
  lemma {:induction false} FaultBehind(n: bytes, cut: nat, i: nat, run: nat)
    requires cut + i <= |n|
    ensures SegmentFault(n[cut..], i, run) == SegmentFault(n, cut + i, run)
    decreases |n| - cut - i
  {
    if cut + i < |n| {
      FaultBehind(n, cut, i + 1, if n[cut + i] != 46 then run + 1 else 0);
    }
  }

  /** The first segment, and the rest. */
  lemma FaultOf(s: bytes)
    requires s != [] && Canonical(s)
    ensures SegmentFault(s, 0, 0) == if FirstDot(s) == 0 then Some(ZeroSegLen)
                                     else if FirstDot(s) > 63 then Some(SegTooLong)
                                     else SegmentFault(Tail(s), 0, 0)
  {
    NoDotBefore(s, 0);
    FaultAtDot(s, 0, FirstDot(s), 0);
    FaultBehind(s, FirstDot(s) + 1, 0, 0);
  }

  /** Entries for suffixes no longer than `size` have no fault. */
  ghost predicate FitsUpTo(t: Table, size: nat) {
    t.Some? ==> forall k {:trigger k in t.value} :: k in t.value && |k| <= size ==> SuffixFits(k)
  }

  ghost predicate TableFits(t: Table) {
    t.Some? ==> forall k {:trigger k in t.value} :: k in t.value ==> SuffixFits(k)
  }

  ghost predicate SuffixFits(k: bytes) {
    k != [] && Canonical(k) && SegmentFault(k, 0, 0).None?
  }

  /** `r` fails with the fault, or succeeds without one. */
  predicate Meets(r: Result<bytes>, fault: Option<Error>) {
    match fault
    case Some(e) => r == Err(e)
    case None => r.Ok?
  }

  lemma {:induction false} SuffixMeets(s: bytes, pos: nat, t: Table)
    requires Canonical(s) && FitsUpTo(t, |s|)
    ensures Meets(EncodeSuffix(s, pos, t).out, SegmentFault(s, 0, 0))
    decreases |s|
  {
    if s != [] {
      FaultOf(s);
      if s[0] == DOT {
        assert FirstDot(s) == 0;
      } else if t.Some? && s in t.value {
        assert SuffixFits(s);
      } else if FirstDot(s) < SEGMENT_LIMIT {
        NoDotAtStart(s);
        SuffixMeets(Tail(s), pos + |Segment(s)|, Register(t, s, pos));
      }
    }
  }

  lemma NoDotAtStart(s: bytes)
    requires s != [] && Canonical(s) && s[0] != DOT
    ensures FirstDot(s) > 0
  {
  }

  lemma {:induction false} SuffixKeepsFits(s: bytes, pos: nat, t: Table)
    requires Canonical(s) && TableFits(t) && SegmentFault(s, 0, 0).None?
    ensures TableFits(EncodeSuffix(s, pos, t).table)
    decreases |s|
  {
    if s != [] && s[0] != DOT && (t.None? || s !in t.value) && FirstDot(s) < SEGMENT_LIMIT {
      FaultOf(s);
      NoDotAtStart(s);
      var t1 := Register(t, s, pos);
      assert TableFits(t1);
      SuffixKeepsFits(Tail(s), pos + |Segment(s)|, t1);
    } else if s != [] && s[0] != DOT && (t.None? || s !in t.value) {
      FaultOf(s);
      assert false;
    }
  }

  /** An encoding as its fault says, which leaves a table of suffixes without faults if it succeeds. */
  ghost predicate Faultless(e: Encoded, fault: Option<Error>) {
    Meets(e.out, fault) && (fault.None? ==> TableFits(e.table))
  }

  lemma NameMeets(n: bytes, pos: nat, t: Table)
    requires TableFits(t)
    ensures Faultless(EncodeName(n, pos, t), NameFault(n))
  {
    if 0 < |n| <= NAME_MAX && n[|n| - 1] == DOT && n != [DOT] {
      SuffixMeets(n, pos, t);
      if SegmentFault(n, 0, 0).None? {
        SuffixKeepsFits(n, pos, t);
      }
    }
  }

  /** A name takes at most 255 bytes. */
  lemma {:induction false} SuffixLength(s: bytes, pos: nat, t: Table)
    requires Canonical(s) && EncodeSuffix(s, pos, t).out.Ok?
    ensures |EncodeSuffix(s, pos, t).out.value| <= |s| + 1
    ensures t.None? ==> |EncodeSuffix(s, pos, t).out.value| == |s| + 1
    decreases |s|
  {
    if s != [] && (t.None? || s !in t.value) {
      SuffixLength(Tail(s), pos + |Segment(s)|, Register(t, s, pos));
    }
  }

  /** The bytes of a name that takes no part in compression. */
  function PlainLength(n: bytes): nat {
    if n == [46] then 1 else |n| + 1
  }

  lemma NameLength(n: bytes, pos: nat, t: Table)
    requires EncodeName(n, pos, t).out.Ok?
    ensures |EncodeName(n, pos, t).out.value| <= 255
    ensures t.None? ==> |EncodeName(n, pos, t).out.value| == PlainLength(n)
  {
    if n != [DOT] {
      SuffixLength(n, pos, t);
    }
  }

  // ---------- Bodies ----------

  function TextsFault(texts: seq<bytes>): Option<Error> {
    if texts == [] then None else if |texts[0]| > 255 then Some(StringTooLong) else TextsFault(texts[1..])
  }

  function TextsLength(texts: seq<bytes>): nat {
    if texts == [] then 0 else 1 + |texts[0]| + TextsLength(texts[1..])
  }

  function OptionsLength(options: seq<EdnsOption>): nat {
    if options == [] then 0 else 4 + |options[0].data| + OptionsLength(options[1..])
  }

  function ParamsLength(params: seq<Param>): nat {
    if params == [] then 0 else 4 + |params[0].value| + ParamsLength(params[1..])
  }

  /** Why the bytes of a body cannot be written. */
  function BodyFault(b: Body): Option<Error> {
    match b
    case NilBody => Some(NilResourceBody)
    case A(_) => None
    case NS(n) => NameFault(n)
    case CNAME(n) => NameFault(n)
    case SOA(ns, mbox, _, _, _, _, _) => if NameFault(ns).Some? then NameFault(ns) else NameFault(mbox)
    case PTR(n) => NameFault(n)
    case MX(_, n) => NameFault(n)
    case TXT(texts) => TextsFault(texts)
    case AAAA(_) => None
    case SRV(_, _, _, n) => NameFault(n)
    case OPT(_) => None
    case SVCB(_, n, _) => NameFault(n)
    case HTTPS(_, n, _) => NameFault(n)
    case Unknown(_, _) => None
  }

  /** Whether they are too many for the length field. Bodies of names and numbers never are. */
  predicate TooLong(b: Body) {
    match b
    case TXT(texts) => TextsLength(texts) > 65535
    case OPT(options) => OptionsLength(options) > 65535
    case SVCB(_, n, params) => 2 + PlainLength(n) + ParamsLength(params) > 65535
    case HTTPS(_, n, params) => 2 + PlainLength(n) + ParamsLength(params) > 65535
    case Unknown(_, data) => |data| > 65535
    case _ => false
  }

  lemma {:induction false} TextsMeet(texts: seq<bytes>)
    ensures Meets(EncodeTexts(texts), TextsFault(texts))
    ensures EncodeTexts(texts).Ok? ==> |EncodeTexts(texts).value| == TextsLength(texts)
    decreases |texts|
  {
    if texts != [] {
      TextsMeet(texts[1..]);
    }
  }

  lemma {:induction false} OptionsHaveLength(options: seq<EdnsOption>)
    ensures |EncodeOptions(options)| == OptionsLength(options)
    decreases |options|
  {
    if options != [] {
      OptionsHaveLength(options[1..]);
    }
  }

  lemma {:induction false} ParamsAsOptions(params: seq<Param>)
    ensures OptionsLength(AsOptions(params)) == ParamsLength(params)
    decreases |params|
  {
    if params != [] {
      ParamsAsOptions(params[1..]);
      assert AsOptions(params)[1..] == AsOptions(params[1..]);
    }
  }

  lemma {:induction false} InsertedLength(p: Param, sorted: seq<Param>)
    ensures ParamsLength(Insert(p, sorted)) == 4 + |p.value| + ParamsLength(sorted)
    decreases |sorted|
  {
    if sorted == [] || p.key <= sorted[0].key {
      assert ([p] + sorted)[1..] == sorted;
    } else {
      InsertedLength(p, sorted[1..]);
      assert ([sorted[0]] + Insert(p, sorted[1..]))[1..] == Insert(p, sorted[1..]);
    }
  }

  lemma {:induction false} SortedLength(params: seq<Param>)
    ensures ParamsLength(Sorted(params)) == ParamsLength(params)
    decreases |params|
  {
    if params != [] {
      SortedLength(params[1..]);
      InsertedLength(params[0], Sorted(params[1..]));
    }
  }

  lemma ServiceMeets(priority: uint16, n: bytes, params: seq<Param>, pos: nat)
    ensures Meets(EncodeService(priority, n, params, pos), NameFault(n))
    ensures EncodeService(priority, n, params, pos).Ok? ==>
      |EncodeService(priority, n, params, pos).value| == 2 + PlainLength(n) + ParamsLength(params)
  {
    NameMeets(n, pos + 2, None);
    if EncodePlainName(n, pos + 2).Ok? {
      NameLength(n, pos + 2, None);
      OptionsHaveLength(AsOptions(Sorted(params)));
      ParamsAsOptions(Sorted(params));
      SortedLength(params);
    }
  }

  /** A body that can be written has as many bytes as its parts, and too many exactly if TooLong says so. */
  ghost predicate FitsAs(b: Body, e: Encoded) {
    Faultless(e, BodyFault(b)) && (e.out.Ok? ==> (|e.out.value| > 65535 <==> TooLong(b)))
  }

  lemma SoaMeets(b: Body, pos: nat, t: Table)
    requires b.SOA? && TableFits(t)
    ensures FitsAs(b, EncodeBody(b, pos, t))
  {
    var first := EncodeName(b.soaNs, pos, t);
    NameMeets(b.soaNs, pos, t);
    if first.out.Ok? {
      var at := pos + |first.out.value|;
      NameLength(b.soaNs, pos, t);
      NameMeets(b.mbox, at, first.table);
      if EncodeName(b.mbox, at, first.table).out.Ok? {
        NameLength(b.mbox, at, first.table);
      }
    }
  }

  lemma NameBodyMeets(b: Body, n: bytes, pos: nat, t: Table)
    requires (b == NS(n) || b == CNAME(n) || b == PTR(n)) && TableFits(t)
    ensures FitsAs(b, EncodeBody(b, pos, t))
  {
    NameMeets(n, pos, t);
    if EncodeName(n, pos, t).out.Ok? {
      NameLength(n, pos, t);
    }
  }

  lemma MxMeets(b: Body, pos: nat, t: Table)
    requires b.MX? && TableFits(t)
    ensures FitsAs(b, EncodeBody(b, pos, t))
  {
    NameMeets(b.mx, pos + 2, t);
    if EncodeName(b.mx, pos + 2, t).out.Ok? {
      NameLength(b.mx, pos + 2, t);
    }
  }

  lemma SrvMeets(b: Body, pos: nat, t: Table)
    requires b.SRV? && TableFits(t)
    ensures FitsAs(b, EncodeBody(b, pos, t))
  {
    NameMeets(b.srvTarget, pos + 6, None);
    if EncodePlainName(b.srvTarget, pos + 6).Ok? {
      NameLength(b.srvTarget, pos + 6, None);
    }
  }

  lemma PlainBodyMeets(b: Body, pos: nat, t: Table)
    requires (b.A? || b.AAAA? || b.TXT? || b.OPT? || b.SVCB? || b.HTTPS? || b.Unknown? || b.NilBody?) && TableFits(t)
    ensures FitsAs(b, EncodeBody(b, pos, t))
  {
    if b.TXT? {
      TextsMeet(b.texts);
    } else if b.OPT? {
      OptionsHaveLength(b.options);
    } else if b.SVCB? || b.HTTPS? {
      ServiceMeets(b.priority, b.target, b.params, pos);
    }
  }

  lemma BodyMeets(b: Body, pos: nat, t: Table)
    requires TableFits(t)
    ensures FitsAs(b, EncodeBody(b, pos, t))
  {
    match b {
      case NS(n) => NameBodyMeets(b, n, pos, t);
      case CNAME(n) => NameBodyMeets(b, n, pos, t);
      case PTR(n) => NameBodyMeets(b, n, pos, t);
      case MX(_, _) => MxMeets(b, pos, t);
      case SOA(_, _, _, _, _, _, _) => SoaMeets(b, pos, t);
      case SRV(_, _, _, _) => SrvMeets(b, pos, t);
      case _ => PlainBodyMeets(b, pos, t);
    }
  }

  // ---------- Records and questions ----------

  /** Why a record cannot be written whose header goes out as it is. */
  function RecordFault(h: ResourceHeader, b: Body): Option<Error> {
    if NameFault(h.name).Some? then NameFault(h.name)
    else if BodyFault(b).Some? then BodyFault(b)
    else if TooLong(b) then Some(ResTooLong)
    else None
  }

  /** In a message a missing body is noticed first. */
  function ResourceFault(r: Resource): Option<Error> {
    if r.body.NilBody? then Some(NilResourceBody) else RecordFault(r.header, r.body)
  }

  function QuestionFault(q: Question): Option<Error> {
    NameFault(q.name)
  }

  /** The parts of a record, and their faults. */
  lemma RecordFrom(h: ResourceHeader, typ: uint16, b: Body, pos: nat, t: Table, name: Encoded, body: Encoded)
    requires name == EncodeName(h.name, pos, t) && (name.out.Ok? ==> body == EncodeBody(b, pos + |name.out.value| + 10, name.table))
    requires Faultless(name, NameFault(h.name)) && (name.out.Ok? ==> FitsAs(b, body))
    ensures Faultless(EncodeRecord(h, typ, b, pos, t), RecordFault(h, b))
  {
  }

  lemma RecordMeets(h: ResourceHeader, typ: uint16, b: Body, pos: nat, t: Table)
    requires TableFits(t)
    ensures Faultless(EncodeRecord(h, typ, b, pos, t), RecordFault(h, b))
  {
    var name := EncodeName(h.name, pos, t);
    NameMeets(h.name, pos, t);
    var body := name;
    if name.out.Ok? {
      body := EncodeBody(b, pos + |name.out.value| + 10, name.table);
      BodyMeets(b, pos + |name.out.value| + 10, name.table);
    }
    RecordFrom(h, typ, b, pos, t, name, body);
  }

  lemma ResourceMeets(r: Resource, pos: nat, t: Table)
    requires TableFits(t)
    ensures Faultless(EncodeResource(r, pos, t), ResourceFault(r))
  {
    if !r.body.NilBody? {
      RecordMeets(r.header, RealType(r.body), r.body, pos, t);
    }
  }

  lemma QuestionMeets(q: Question, pos: nat, t: Table)
    requires TableFits(t)
    ensures Faultless(EncodeQuestion(q, pos, t), QuestionFault(q))
  {
    NameMeets(q.name, pos, t);
  }

  // ---------- Sections ----------

  function FirstFault<T>(fault: T -> Option<Error>, xs: seq<T>): Option<Error> {
    if xs == [] then None else if fault(xs[0]).Some? then fault(xs[0]) else FirstFault(fault, xs[1..])
  }

  ghost predicate Faults<T>(enc: Encoder<T>, fault: T -> Option<Error>, x: T, pos: nat, t: Table) {
    TableFits(t) ==> Faultless(enc(x, pos, t), fault(x))
  }

  ghost predicate AllFault<T(!new)>(enc: Encoder<T>, fault: T -> Option<Error>) {
    forall x, pos, t {:trigger Faults(enc, fault, x, pos, t)} :: Faults(enc, fault, x, pos, t)
  }

  lemma {:induction false} ItemsMeet<T(!new)>(enc: Encoder<T>, fault: T -> Option<Error>, xs: seq<T>, pos: nat, t: Table)
    requires AllFault(enc, fault) && TableFits(t)
    ensures Faultless(EncodeItems(enc, xs, pos, t), FirstFault(fault, xs))
    decreases |xs|
  {
    if xs != [] {
      var e := enc(xs[0], pos, t);
      assert Faults(enc, fault, xs[0], pos, t);
      if e.out.Ok? {
        ItemsMeet(enc, fault, xs[1..], pos + |e.out.value|, e.table);
      }
    }
  }

  lemma QuestionsFault()
    ensures AllFault(EncodeQuestion, QuestionFault)
  {
    forall q, pos, t ensures Faults(EncodeQuestion, QuestionFault, q, pos, t) {
      if TableFits(t) {
        QuestionMeets(q, pos, t);
      }
    }
  }

  lemma ResourcesFault()
    ensures AllFault(EncodeResource, ResourceFault)
  {
    forall r, pos, t ensures Faults(EncodeResource, ResourceFault, r, pos, t) {
      if TableFits(t) {
        ResourceMeets(r, pos, t);
      }
    }
  }

  // ---------- Messages ----------

  /** The first of two faults. */
  function Or(first: Option<Error>, second: Option<Error>): Option<Error> {
    if first.Some? then first else second
  }

  lemma ThenMeets(enc: Encoder<Resource>, fault: Resource -> Option<Error>, e: Encoded, before: Option<Error>, rs: seq<Resource>)
    requires AllFault(enc, fault) && Faultless(e, before)
    ensures Faultless(Then(enc, e, HEADER_LEN, rs), Or(before, FirstFault(fault, rs)))
  {
    if e.out.Ok? {
      ItemsMeet(enc, fault, rs, HEADER_LEN + |e.out.value|, e.table);
    }
  }

  function ContentFault(m: Message): Option<Error> {
    Or(Or(Or(FirstFault(QuestionFault, m.questions), FirstFault(ResourceFault, m.answers)),
          FirstFault(ResourceFault, m.authorities)),
       FirstFault(ResourceFault, m.additionals))
  }

  /** Why a message cannot be packed. Full sections are noticed first. */
  function MessageFault(m: Message): Option<Error> {
    if |m.questions| > 65535 then Some(TooManyQuestions)
    else if |m.answers| > 65535 then Some(TooManyAnswers)
    else if |m.authorities| > 65535 then Some(TooManyAuthorities)
    else if |m.additionals| > 65535 then Some(TooManyAdditionals)
    else ContentFault(m)
  }

  lemma ContentMeets(m: Message, t: Table)
    requires TableFits(t)
    ensures Faultless(Content(m, t), ContentFault(m))
  {
    QuestionsFault();
    ResourcesFault();
    var qs := EncodeItems(EncodeQuestion, m.questions, HEADER_LEN, t);
    ItemsMeet(EncodeQuestion, QuestionFault, m.questions, HEADER_LEN, t);
    var f1 := FirstFault(QuestionFault, m.questions);
    ThenMeets(EncodeResource, ResourceFault, qs, f1, m.answers);
    var an, f2 := Then(EncodeResource, qs, HEADER_LEN, m.answers), Or(f1, FirstFault(ResourceFault, m.answers));
    ThenMeets(EncodeResource, ResourceFault, an, f2, m.authorities);
    var ns, f3 := Then(EncodeResource, an, HEADER_LEN, m.authorities), Or(f2, FirstFault(ResourceFault, m.authorities));
    ThenMeets(EncodeResource, ResourceFault, ns, f3, m.additionals);
  }

  /** Packing a message succeeds exactly if it has no fault, and fails with its fault otherwise. */
  lemma PacksExactly(m: Message, bits: uint16, t: Table)
    requires TableFits(t)
    ensures Meets(EncodeWith(m, bits, t), MessageFault(m))
  {
    ContentMeets(m, t);
  }

  // ---------- The same, without an order of noticing ----------

  /** A name that fits, position by position: from every start of a segment, the next dot is 1 to 63 characters away. */
  ghost predicate NameFits(n: bytes) {
    n == [46] || (0 < |n| <= 254 && n[|n| - 1] == 46 && forall i :: SegmentStart(n, i) ==> SegmentEnds(n, i))
  }

  predicate SegmentStart(n: bytes, i: nat) {
    i < |n| && (i == 0 || n[i - 1] == 46)
  }

  ghost predicate SegmentEnds(n: bytes, i: nat) {
    exists j: nat :: i < j <= i + 63 && j < |n| && n[j] == 46 && forall k: nat :: i <= k < j ==> n[k] != 46
  }

  lemma {:induction false} FaultFrom(n: bytes, i: nat, start: nat)
    requires start <= i <= |n| && SegmentStartsAt(n, start) && (forall k :: start <= k < i ==> n[k] != 46)
    requires n != [] && n[|n| - 1] == 46 && (i == |n| ==> start == i)
    ensures SegmentFault(n, i, i - start).None? <==> forall s :: start <= s && SegmentStart(n, s) ==> SegmentEnds(n, s)
    decreases |n| - i
  {
    if i < |n| {
      if n[i] != 46 {
        FaultFrom(n, i + 1, start);
      } else {
        assert SegmentStart(n, start);
        StartOrBehind(n, start, i);
        FirstEnd(n, start, i);
        FaultFrom(n, i + 1, i + 1);
      }
    }
  }

  predicate SegmentStartsAt(n: bytes, i: nat) {
    i <= |n| && (i == 0 || n[i - 1] == 46)
  }

  lemma StartOrBehind(n: bytes, start: nat, dot: nat)
    requires start <= dot < |n| && n[dot] == 46 && forall k :: start <= k < dot ==> n[k] != 46
    ensures forall s :: start < s && SegmentStart(n, s) ==> s >= dot + 1
  {
  }

  lemma FirstEnd(n: bytes, start: nat, dot: nat)
    requires start <= dot < |n| && n[dot] == 46 && forall k :: start <= k < dot ==> n[k] != 46
    ensures SegmentEnds(n, start) <==> 1 <= dot - start <= 63
  {
    if SegmentEnds(n, start) {
      var j: nat :| start < j <= start + 63 && j < |n| && n[j] == 46 && forall k: nat :: start <= k < j ==> n[k] != 46;
      assert j == dot;
    }
  }

  lemma NameFitsExactly(n: bytes)
    ensures NameFault(n).None? <==> NameFits(n)
  {
    if 0 < |n| <= 254 && n[|n| - 1] == 46 {
      FaultFrom(n, 0, 0);
    }
  }

  ghost predicate BodyPackable(b: Body) {
    match b
    case NilBody => false
    case A(_) => true
    case AAAA(_) => true
    case NS(n) => NameFits(n)
    case CNAME(n) => NameFits(n)
    case PTR(n) => NameFits(n)
    case MX(_, n) => NameFits(n)
    case SRV(_, _, _, n) => NameFits(n)
    case SOA(ns, mbox, _, _, _, _, _) => NameFits(ns) && NameFits(mbox)
    case TXT(texts) => (forall text :: text in texts ==> |text| <= 255) && TextsLength(texts) <= 65535
    case OPT(options) => OptionsLength(options) <= 65535
    case SVCB(_, n, params) => NameFits(n) && 2 + PlainLength(n) + ParamsLength(params) <= 65535
    case HTTPS(_, n, params) => NameFits(n) && 2 + PlainLength(n) + ParamsLength(params) <= 65535
    case Unknown(_, data) => |data| <= 65535
  }

  ghost predicate ResourcesPackable(rs: seq<Resource>) {
    |rs| <= 65535 && forall r :: r in rs ==> NameFits(r.header.name) && BodyPackable(r.body)
  }

  /** At most 65535 items a section, and every one of them within its limits. */
  ghost predicate Packable(m: Message) {
    && |m.questions| <= 65535 && (forall q :: q in m.questions ==> NameFits(q.name))
    && ResourcesPackable(m.answers) && ResourcesPackable(m.authorities) && ResourcesPackable(m.additionals)
  }

  lemma {:induction false} ShortTexts(texts: seq<bytes>)
    ensures TextsFault(texts).None? <==> forall text :: text in texts ==> |text| <= 255
    decreases |texts|
  {
    if texts != [] {
      ShortTexts(texts[1..]);
      assert texts == [texts[0]] + texts[1..];
    }
  }

  lemma BodyPackableExactly(b: Body)
    ensures BodyFault(b).None? && !TooLong(b) <==> BodyPackable(b)
  {
    match b {
      case NS(n) => NameFitsExactly(n);
      case CNAME(n) => NameFitsExactly(n);
      case PTR(n) => NameFitsExactly(n);
      case MX(_, n) => NameFitsExactly(n);
      case SRV(_, _, _, n) => NameFitsExactly(n);
      case SOA(ns, mbox, _, _, _, _, _) =>
        NameFitsExactly(ns);
        NameFitsExactly(mbox);
      case TXT(texts) => ShortTexts(texts);
      case SVCB(_, n, _) => NameFitsExactly(n);
      case HTTPS(_, n, _) => NameFitsExactly(n);
      case _ =>
    }
  }

  lemma {:induction false} NoFault<T>(fault: T -> Option<Error>, xs: seq<T>)
    ensures FirstFault(fault, xs).None? <==> forall x :: x in xs ==> fault(x).None?
    decreases |xs|
  {
    if xs != [] {
      NoFault(fault, xs[1..]);
      assert xs == [xs[0]] + xs[1..];
    }
  }

  lemma ResourcesPackableExactly(rs: seq<Resource>)
    requires |rs| <= 65535
    ensures FirstFault(ResourceFault, rs).None? <==> ResourcesPackable(rs)
  {
    NoFault(ResourceFault, rs);
    forall r | r in rs ensures ResourceFault(r).None? <==> NameFits(r.header.name) && BodyPackable(r.body) {
      NameFitsExactly(r.header.name);
      BodyPackableExactly(r.body);
    }
  }

  lemma QuestionsPackableExactly(qs: seq<Question>)
    ensures FirstFault(QuestionFault, qs).None? <==> forall q :: q in qs ==> NameFits(q.name)
  {
    NoFault(QuestionFault, qs);
    forall q | q in qs ensures QuestionFault(q).None? <==> NameFits(q.name) {
      NameFitsExactly(q.name);
    }
  }

  /** Packing a whole message succeeds exactly if it is within its limits. */
  lemma PackableExactly(m: Message)
    ensures EncodeMessage(m).Ok? <==> Packable(m)
  {
    PacksExactly(m, HeaderNumber(m.header), EMPTY_TABLE);
    if Countable(m) {
      QuestionsPackableExactly(m.questions);
      ResourcesPackableExactly(m.answers);
      ResourcesPackableExactly(m.authorities);
      ResourcesPackableExactly(m.additionals);
    }
  }

  // ---------- Sound tables ----------

  /** A name that was read has segments that fit. */
  lemma {:induction false} ReadNameFits(m: bytes, off: nat, budget: nat)
    requires ReadName(m, off, budget).Ok?
    ensures SegmentFault(ReadName(m, off, budget).value.name, 0, 0).None?
    decreases budget, |m| - off
  {
    if 0 < m[off] < SEGMENT_LIMIT {
      var text, rest := Slice(m, off + 1, m[off]), ReadName(m, off + 1 + m[off], budget).value.name;
      ReadNameFits(m, off + 1 + m[off], budget);
      assert forall k :: 0 <= k < |text| ==> text[k] != 46;
      OneSegmentMore(text, rest);
    } else if m[off] >= POINTER_TAG {
      ReadNameFits(m, PointerAt(m, off), budget - 1);
    }
  }

  lemma OneSegmentMore(text: bytes, rest: bytes)
    requires 1 <= |text| <= 63 && (forall k :: 0 <= k < |text| ==> text[k] != 46) && SegmentFault(rest, 0, 0).None?
    ensures SegmentFault(text + [DOT] + rest, 0, 0).None?
  {
    var n := text + [DOT] + rest;
    FaultAtDot(n, 0, |text|, 0);
    FaultBehind(n, |text| + 1, 0, 0);
    assert n[|text| + 1..] == rest;
  }

  /** Sound entries have no fault. */
  lemma SoundFits(m: bytes, t: Table)
    requires TableSound(m, t)
    ensures TableFits(t)
  {
    if t.Some? {
      forall k | k in t.value ensures SuffixFits(k) {
        assert EntrySound(m, k, t.value[k]);
        ReadNameFits(m, t.value[k], Labels(k) - 1);
      }
    }
  }
}
