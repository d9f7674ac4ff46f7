/** How many pointers the reader will follow, counted while the message is written and without reading anything back
    (internal/dnsmessage/message.go). */
module Reach {
  import opened Wire
  import opened Names
  import opened Compression
  import opened TableSoundness
  import opened Records
  import opened RecordRoundTrip
  import opened Sequences
  import opened Messages
  import opened MessageRoundTrip

  /** Beside the table: the pointers behind each registered suffix. */
  type Depths = map<bytes, nat>

  function DepthOf(d: Depths, s: bytes): nat {
    if s in d then d[s] else 0
  }

  // ---------- Names ----------

  /** The pointers of a suffix: one to its first known suffix, and those behind that one. */
  function Cost(s: bytes, t: Table, d: Depths): nat
    requires Canonical(s)
    decreases |s|
  {
    if s == [] || t.None? then 0
    else if s in t.value then 1 + DepthOf(d, s)
    else Cost(Tail(s), t, d)
  }

  function WithDepth(t: Table, d: Depths, s: bytes, pos: nat): Depths
    requires s != [] && Canonical(s)
  {
    if t.Some? && pos < POINTER_LIMIT then d[s := Cost(Tail(s), t, d)] else d
  }

  /** The depths behind a suffix: every suffix that is registered on the way gets its own. */
  function SuffixDepths(s: bytes, pos: nat, t: Table, d: Depths): Depths
    requires Canonical(s)
    decreases |s|
  {
    if s == [] || s[0] == DOT || (t.Some? && s in t.value) then d
    else if FirstDot(s) >= SEGMENT_LIMIT then WithDepth(t, d, s, pos)
    else SuffixDepths(Tail(s), pos + |Segment(s)|, Register(t, s, pos), WithDepth(t, d, s, pos))
  }

  function NameCost(n: bytes, t: Table, d: Depths): nat {
    if !Canonical(n) || n == [DOT] then 0 else Cost(n, t, d)
  }

  function NameDepths(n: bytes, pos: nat, t: Table, d: Depths): Depths {
    if |n| > NAME_MAX || n == [] || n[|n| - 1] != DOT || n == [DOT] then d else SuffixDepths(n, pos, t, d)
  }

  // ---------- Bodies, records, questions ----------

  predicate NameWithin(n: bytes, t: Table, d: Depths) {
    NameCost(n, t, d) <= MAX_POINTERS
  }

  /** The reader's ten pointers are enough for every name of the body. */
  predicate BodyWithin(b: Body, pos: nat, t: Table, d: Depths) {
    match b
    case NS(n) => NameWithin(n, t, d)
    case CNAME(n) => NameWithin(n, t, d)
    case PTR(n) => NameWithin(n, t, d)
    case MX(_, n) => NameWithin(n, t, d)
    case SOA(ns, mbox, _, _, _, _, _) =>
      NameWithin(ns, t, d) && NameWithin(mbox, EncodeName(ns, pos, t).table, NameDepths(ns, pos, t, d))
    case _ => true
  }

  function BodyDepths(b: Body, pos: nat, t: Table, d: Depths): Depths {
    match b
    case NS(n) => NameDepths(n, pos, t, d)
    case CNAME(n) => NameDepths(n, pos, t, d)
    case PTR(n) => NameDepths(n, pos, t, d)
    case MX(_, n) => NameDepths(n, pos + 2, t, d)
    case SOA(ns, mbox, _, _, _, _, _) => SoaDepths(ns, mbox, pos, t, d)
    case _ => d
  }

  function SoaDepths(ns: bytes, mbox: bytes, pos: nat, t: Table, d: Depths): Depths {
    var first := EncodeName(ns, pos, t);
    var d1 := NameDepths(ns, pos, t, d);
    if first.out.Err? then d1 else NameDepths(mbox, pos + |first.out.value|, first.table, d1)
  }

  predicate ResourceWithin(r: Resource, pos: nat, t: Table, d: Depths) {
    var name := EncodeName(r.header.name, pos, t);
    && NameWithin(r.header.name, t, d)
    && (name.out.Ok? ==>
         BodyWithin(r.body, pos + |name.out.value| + 10, name.table, NameDepths(r.header.name, pos, t, d)))
  }

  function ResourceDepths(r: Resource, pos: nat, t: Table, d: Depths): Depths {
    var name := EncodeName(r.header.name, pos, t);
    var d1 := NameDepths(r.header.name, pos, t, d);
    if name.out.Err? then d1 else BodyDepths(r.body, pos + |name.out.value| + 10, name.table, d1)
  }

  predicate QuestionWithin(q: Question, pos: nat, t: Table, d: Depths) {
    NameWithin(q.name, t, d)
  }

  function QuestionDepths(q: Question, pos: nat, t: Table, d: Depths): Depths {
    NameDepths(q.name, pos, t, d)
  }

  // ---------- Sections and messages ----------

  /** How the items of one kind are measured. */
  datatype Meter<!T> = Meter(
    enc: Encoder<T>, within: (T, nat, Table, Depths) -> bool, deepened: (T, nat, Table, Depths) -> Depths)

  predicate AllWithin<T>(g: Meter<T>, xs: seq<T>, pos: nat, t: Table, d: Depths) {
    xs == [] ||
    var e := g.enc(xs[0], pos, t);
    && g.within(xs[0], pos, t, d)
    && (e.out.Ok? ==> AllWithin(g, xs[1..], pos + |e.out.value|, e.table, g.deepened(xs[0], pos, t, d)))
  }

  function AllDepths<T>(g: Meter<T>, xs: seq<T>, pos: nat, t: Table, d: Depths): Depths {
    if xs == [] then d
    else
      var e := g.enc(xs[0], pos, t);
      var d1 := g.deepened(xs[0], pos, t, d);
      if e.out.Err? then d1 else AllDepths(g, xs[1..], pos + |e.out.value|, e.table, d1)
  }

  const QUESTIONS := Meter(EncodeQuestion, QuestionWithin, QuestionDepths)
  const RESOURCES := Meter(EncodeResource, ResourceWithin, ResourceDepths)

  /** Three sections, each at its place with its table, one behind the other. */
  predicate ThreeWithin<T>(g: Meter<T>, xs: seq<T>, p1: nat, t1: Table, ys: seq<T>, p2: nat, t2: Table, zs: seq<T>, p3: nat, t3: Table,
                           d1: Depths)
  {
    var d2 := AllDepths(g, xs, p1, t1, d1);
    var d3 := AllDepths(g, ys, p2, t2, d2);
    AllWithin(g, xs, p1, t1, d1) && AllWithin(g, ys, p2, t2, d2) && AllWithin(g, zs, p3, t3, d3)
  }

  /** The condition of the round trip, on the message alone: none of its names will cost more than ten pointers when it
      is packed from a table without entries. */
  predicate Within(m: Message, t: Table) {
    WithinAt(QUESTIONS, RESOURCES, m, t, LayoutOf(m, t))
  }

  predicate WithinAt(gq: Meter<Question>, gr: Meter<Resource>, m: Message, t: Table, l: Layout) {
    && AllWithin(gq, m.questions, HEADER_LEN, t, map[])
    && ThreeWithin(gr, m.answers, Next(l.qs), l.qs.table, m.authorities, Next(l.an), l.an.table,
                   m.additionals, Next(l.ns), l.ns.table, AllDepths(gq, m.questions, HEADER_LEN, t, map[]))
  }

  // ---------- The depths are those of the written bytes ----------

  /** Reading the registered suffix follows exactly `depth` pointers. */
  ghost predicate DepthRight(m: bytes, s: bytes, p: nat, depth: nat) {
    s != [] && Canonical(s) && HopsAt(m, p, Labels(s) - 1) == depth
  }

  ghost predicate RightUpTo(m: bytes, t: Table, d: Depths, size: nat) {
    t.Some? ==> forall s {:trigger DepthRight(m, s, t.value[s], DepthOf(d, s))} :: s in t.value && |s| <= size ==> DepthRight(m, s, t.value[s], DepthOf(d, s))
  }

  ghost predicate DepthsRight(m: bytes, t: Table, d: Depths) {
    t.Some? ==> forall s {:trigger DepthRight(m, s, t.value[s], DepthOf(d, s))} :: s in t.value ==> DepthRight(m, s, t.value[s], DepthOf(d, s))
  }

  lemma {:induction false} CostIsPointers(m: bytes, s: bytes, t: Table, d: Depths)
    requires Canonical(s) && RightUpTo(m, t, d, |s|)
    ensures Cost(s, t, d) == PointersOf(m, s, t)
    decreases |s|
  {
    if s != [] && t.Some? {
      if s in t.value {
        assert DepthRight(m, s, t.value[s], DepthOf(d, s));
      } else {
        CostIsPointers(m, Tail(s), t, d);
      }
    }
  }

  lemma RegisterKeepsRight(m: bytes, t: Table, d: Depths, s: bytes, pos: nat)
    requires s != [] && Canonical(s) && RightUpTo(m, t, d, |s|)
    ensures RightUpTo(m, Register(t, s, pos), WithDepth(t, d, s, pos), |Tail(s)|)
  {
    var t1, d1 := Register(t, s, pos), WithDepth(t, d, s, pos);
    if t.Some? {
      forall k | k in t1.value && |k| <= |Tail(s)| ensures DepthRight(m, k, t1.value[k], DepthOf(d1, k)) {
        assert DepthRight(m, k, t.value[k], DepthOf(d, k));
      }
    }
  }

  /** A suffix that was not in the table has become an entry of the depth noted for it. */
  lemma NewDepthRight(m: bytes, pos: nat, s: bytes, t: Table, d: Depths, w: bytes)
    requires s != [] && Canonical(s) && SoundUpTo(m, t, |s|) && RightUpTo(m, t, d, |s|) && (t.None? || s !in t.value)
    requires EncodeSuffix(s, pos, t).out == Ok(w) && At(m, pos, w)
    ensures DepthRight(m, s, pos, Cost(Tail(s), t, d))
  {
    SuffixReadsBack(m, pos, s, t, w, pos + |w|);
    ChainIsShort(m, s, t);
    CostIsPointers(m, s, t, d);
    BudgetIsExact(m, pos, PointersOf(m, s, t), Labels(s) - 1);
  }

  /** Every entry of the table after a suffix was written: an old one of the same depth, or one of the right depth. */
  lemma {:induction false} DepthAfterSuffix(m: bytes, pos: nat, s: bytes, t: Table, d: Depths, w: bytes, k: bytes)
    requires Canonical(s) && SoundUpTo(m, t, |s|) && RightUpTo(m, t, d, |s|) && t.Some?
    requires EncodeSuffix(s, pos, t).out == Ok(w) && At(m, pos, w)
    requires EncodeSuffix(s, pos, t).table.Some? && k in EncodeSuffix(s, pos, t).table.value
    ensures var p, depth := EncodeSuffix(s, pos, t).table.value[k], DepthOf(SuffixDepths(s, pos, t, d), k);
      (k in t.value && t.value[k] == p && DepthOf(d, k) == depth) || DepthRight(m, k, p, depth)
    decreases |s|
  {
    if s != [] && s !in t.value {
      var rest := MissWrites(m, pos, s, t, w);
      RegisterKeepsShorter(m, t, s, pos);
      RegisterKeepsRight(m, t, d, s, pos);
      NewDepthRight(m, pos, s, t, d, w);
      DepthAfterSuffix(m, pos + |Segment(s)|, Tail(s), Register(t, s, pos), WithDepth(t, d, s, pos), rest, k);
    }
  }

  /** Depths stay right, and a name is within reach exactly if its cost says so. */
  lemma NameMeasured(m: bytes, pos: nat, n: bytes, t: Table, d: Depths, w: bytes)
    requires TableSound(m, t) && DepthsRight(m, t, d) && EncodeName(n, pos, t).out == Ok(w) && At(m, pos, w)
    ensures DepthsRight(m, EncodeName(n, pos, t).table, NameDepths(n, pos, t, d))
    ensures NameWithin(n, t, d) <==> PointersUsed(m, n, t) <= MAX_POINTERS
  {
    if n != [DOT] {
      CostIsPointers(m, n, t, d);
      TableStaysSome(n, pos, t);
      var t', d' := EncodeName(n, pos, t).table, NameDepths(n, pos, t, d);
      if t.Some? {
        forall k | k in t'.value ensures DepthRight(m, k, t'.value[k], DepthOf(d', k)) {
          DepthAfterSuffix(m, pos, n, t, d, w, k);
          assert k in t.value ==> DepthRight(m, k, t.value[k], DepthOf(d, k));
        }
      }
    }
  }

  lemma SoaMeasured(m: bytes, pos: nat, ns: bytes, mbox: bytes, tail: bytes, t: Table, d: Depths, w: bytes)
    requires TableSound(m, t) && DepthsRight(m, t, d) && Written(m, pos, EncodeSoa(ns, mbox, tail, pos, t), w)
    ensures DepthsRight(m, EncodeSoa(ns, mbox, tail, pos, t).table, SoaDepths(ns, mbox, pos, t, d))
    ensures SoaReadable(m, ns, mbox, pos, t)
       <==> NameWithin(ns, t, d) && NameWithin(mbox, EncodeName(ns, pos, t).table, NameDepths(ns, pos, t, d))
  {
    var n1, t1, at, n2 := SoaParts(m, pos, ns, mbox, tail, t, w);
    var d1 := NameDepths(ns, pos, t, d);
    PackedNameKeepsTable(m, pos, ns, t, n1);
    NameMeasured(m, pos, ns, t, d, n1);
    NameMeasured(m, at, mbox, t1, d1, n2);
  }

  lemma MxMeasured(m: bytes, pos: nat, b: Body, t: Table, d: Depths, w: bytes)
    requires b.MX? && TableSound(m, t) && DepthsRight(m, t, d) && Written(m, pos, EncodeBody(b, pos, t), w)
    ensures DepthsRight(m, EncodeBody(b, pos, t).table, BodyDepths(b, pos, t, d))
    ensures BodyReadable(m, b, pos, t) <==> BodyWithin(b, pos, t, d)
  {
    var name := EncodeName(b.mx, pos + 2, t).out.value;
    AtParts(m, pos, U16(b.pref), name);
    NameMeasured(m, pos + 2, b.mx, t, d, name);
  }

  lemma BodyMeasured(m: bytes, pos: nat, b: Body, t: Table, d: Depths, w: bytes)
    requires TableSound(m, t) && DepthsRight(m, t, d) && Written(m, pos, EncodeBody(b, pos, t), w)
    ensures DepthsRight(m, EncodeBody(b, pos, t).table, BodyDepths(b, pos, t, d))
    ensures BodyReadable(m, b, pos, t) <==> BodyWithin(b, pos, t, d)
  {
    match b {
      case NS(n) => NameMeasured(m, pos, n, t, d, w);
      case CNAME(n) => NameMeasured(m, pos, n, t, d, w);
      case PTR(n) => NameMeasured(m, pos, n, t, d, w);
      case MX(_, _) => MxMeasured(m, pos, b, t, d, w);
      case SOA(ns, mbox, _, _, _, _, _) => SoaMeasured(m, pos, ns, mbox, SoaTail(b), t, d, w);
      case _ =>
    }
  }

  // ---------- Items ----------

  /** The law of one item: depths stay right, and it is within reach exactly if its meter says so. */
  ghost predicate Measures<T>(k: Kind<T>, g: Meter<T>, m: bytes, x: T, pos: nat, t: Table, d: Depths, w: bytes) {
    TableSound(m, t) && DepthsRight(m, t, d) && Written(m, pos, k.enc(x, pos, t), w) ==>
      && DepthsRight(m, k.enc(x, pos, t).table, g.deepened(x, pos, t, d))
      && (k.readable(m, x, pos, t) <==> g.within(x, pos, t, d))
  }

  ghost predicate AllMeasured<T(!new)>(k: Kind<T>, g: Meter<T>, m: bytes, xs: seq<T>) {
    k.enc == g.enc &&
    forall x, pos, t, d, w {:trigger Measures(k, g, m, x, pos, t, d, w)} :: x in xs ==> Measures(k, g, m, x, pos, t, d, w)
  }

  lemma {:induction false} ItemsMeasured<T(!new)>(k: Kind<T>, g: Meter<T>, m: bytes, pos: nat, xs: seq<T>, t: Table, d: Depths, w: bytes)
    requires TableSound(m, t) && DepthsRight(m, t, d) && Lawful(k, m, xs) && AllMeasured(k, g, m, xs)
    requires Written(m, pos, EncodeItems(k.enc, xs, pos, t), w)
    ensures DepthsRight(m, EncodeItems(k.enc, xs, pos, t).table, AllDepths(g, xs, pos, t, d))
    ensures AllReadable(k, m, xs, pos, t) <==> AllWithin(g, xs, pos, t, d)
    decreases |xs|
  {
    if xs != [] {
      var first, t1, rest := FirstItem(k.enc, m, pos, xs, t, w);
      assert ItemLaw(k, m, xs[0], pos, t, first) && Measures(k, g, m, xs[0], pos, t, d, first);
      ItemsMeasured(k, g, m, pos + |first|, xs[1..], t1, g.deepened(xs[0], pos, t, d), rest);
    }
  }

  /** A section that stands in the message, with its table and its depths. */
  lemma SectionMeasured<T(!new)>(k: Kind<T>, g: Meter<T>, m: bytes, pos: nat, xs: seq<T>, t: Table, d: Depths, end: nat)
    requires SectionAt(k, m, pos, xs, t, end) && DepthsRight(m, t, d) && Lawful(k, m, xs) && AllMeasured(k, g, m, xs)
    ensures DepthsRight(m, EncodeItems(k.enc, xs, pos, t).table, AllDepths(g, xs, pos, t, d))
    ensures AllReadable(k, m, xs, pos, t) <==> AllWithin(g, xs, pos, t, d)
  {
    ItemsMeasured(k, g, m, pos, xs, t, d, EncodeItems(k.enc, xs, pos, t).out.value);
  }

  lemma QuestionsMeasured(m: bytes, qs: seq<Question>)
    ensures AllMeasured(QuestionKind(), QUESTIONS, m, qs)
  {
    forall q, pos, t, d, w ensures Measures(QuestionKind(), QUESTIONS, m, q, pos, t, d, w) {
      if TableSound(m, t) && DepthsRight(m, t, d) && Written(m, pos, EncodeQuestion(q, pos, t), w) {
        var name := EncodeName(q.name, pos, t).out.value;
        AtParts(m, pos, name, U16(q.typ) + U16(q.cls));
        NameMeasured(m, pos, q.name, t, d, name);
      }
    }
  }

  lemma WithinParts(pos: nat, at: nat, r: Resource, t: Table, d: Depths, name: bytes, t1: Table, d1: Depths)
    requires EncodeName(r.header.name, pos, t) == Encoded(Ok(name), t1) && at == pos + |name| + 10
    requires d1 == NameDepths(r.header.name, pos, t, d)
    ensures ResourceWithin(r, pos, t, d) <==> NameWithin(r.header.name, t, d) && BodyWithin(r.body, at, t1, d1)
    ensures ResourceDepths(r, pos, t, d) == BodyDepths(r.body, at, t1, d1)
  {
  }

  lemma ResourceMeasured(m: bytes, r: Resource, pos: nat, t: Table, d: Depths, w: bytes)
    requires TableSound(m, t) && DepthsRight(m, t, d) && Written(m, pos, EncodeResource(r, pos, t), w)
    ensures DepthsRight(m, EncodeResource(r, pos, t).table, ResourceDepths(r, pos, t, d))
    ensures RecordReadable(m, r.header, r.body, pos, t) <==> ResourceWithin(r, pos, t, d)
  {
    var name, t1, body := RecordParts(m, pos, r.header, RealType(r.body), r.body, t, w);
    NameMeasured(m, pos, r.header.name, t, d, name);
    PackedNameKeepsTable(m, pos, r.header.name, t, name);
    var at, d1 := pos + |name| + 10, NameDepths(r.header.name, pos, t, d);
    BodyMeasured(m, at, r.body, t1, d1, body);
    ReadableParts(m, pos, r.header, r.body, t, name, t1);
    WithinParts(pos, at, r, t, d, name, t1, d1);
  }

  lemma ResourcesMeasured(m: bytes, rs: seq<Resource>)
    ensures AllMeasured(ResourceKind(), RESOURCES, m, rs)
  {
    forall r, pos, t, d, w ensures Measures(ResourceKind(), RESOURCES, m, r, pos, t, d, w) {
      if TableSound(m, t) && DepthsRight(m, t, d) && Written(m, pos, EncodeResource(r, pos, t), w) {
        ResourceMeasured(m, r, pos, t, d, w);
      }
    }
  }

  // ---------- Messages ----------

  /** The table behind a section of records is the one the next section starts with. */
  lemma TableBehind(e: Encoded, rs: seq<Resource>)
    requires e.out.Ok?
    ensures Then(EncodeResource, e, HEADER_LEN, rs).table == EncodeItems(EncodeResource, rs, Next(e), e.table).table
  {
  }

  lemma SectionsMeasured(p: bytes, m: Message, t: Table, l: Layout, end: nat)
    requires SectionsAt(p, m, t, l, end) && AllOwnTypes(m) && l == LayoutOf(m, t) && (t == None || t == EMPTY_TABLE)
    requires l.qs.out.Ok? && l.an.out.Ok? && l.ns.out.Ok?
    ensures Readable(p, m, t) <==> Within(m, t)
  {
    QuestionsLawful(p, m.questions);
    ResourcesLawful(p, m.answers);
    ResourcesLawful(p, m.authorities);
    ResourcesLawful(p, m.additionals);
    QuestionsMeasured(p, m.questions);
    ResourcesMeasured(p, m.answers);
    ResourcesMeasured(p, m.authorities);
    ResourcesMeasured(p, m.additionals);
    TableBehind(l.qs, m.answers);
    TableBehind(l.an, m.authorities);
    SectionMeasured(QuestionKind(), QUESTIONS, p, HEADER_LEN, m.questions, t, map[], Next(l.qs));
    var d1 := AllDepths(QUESTIONS, m.questions, HEADER_LEN, t, map[]);
    SectionMeasured(ResourceKind(), RESOURCES, p, Next(l.qs), m.answers, l.qs.table, d1, Next(l.an));
    var d2 := AllDepths(RESOURCES, m.answers, Next(l.qs), l.qs.table, d1);
    SectionMeasured(ResourceKind(), RESOURCES, p, Next(l.an), m.authorities, l.an.table, d2, Next(l.ns));
    var d3 := AllDepths(RESOURCES, m.authorities, Next(l.an), l.an.table, d2);
    SectionMeasured(ResourceKind(), RESOURCES, p, Next(l.ns), m.additionals, l.ns.table, d3, end);
  }

  /** For a packed message the condition on the message is the one on its bytes. */
  lemma WithinIsReadable(p: bytes, m: Message, bits: uint16, t: Table)
    requires EncodeWith(m, bits, t) == Ok(p) && AllOwnTypes(m) && (t == None || t == EMPTY_TABLE)
    ensures Readable(p, m, t) <==> Within(m, t)
  {
    var l := LayoutOf(m, t);
    var w := MessageParts(p, m, bits, t);
    SectionsWritten(p, m, t, l, w);
    SectionsMeasured(p, m, t, l, HEADER_LEN + |w|);
  }

  /** Whole-message round trip under compression. A packed message is read as itself, up to the fields that packing
      fills in, exactly when its two header codes fit four bits and none of its names costs more than ten pointers;
      both can be told before packing. */
  lemma RoundTrip(p: bytes, m: Message, t: Table)
    requires EncodeWith(m, HeaderNumber(m.header), t) == Ok(p) && AllOwnTypes(m) && (t == None || t == EMPTY_TABLE)
    ensures DecodeMessage(p) == Ok(FilledMessage(m, t)) <==> m.header.opCode <= 15 && m.header.rCode <= 15 && Within(m, t)
  {
    ReadableRoundTrip(p, m, t);
    WithinIsReadable(p, m, HeaderNumber(m.header), t);
  }

  /** And the reader's only complaint about packed bytes is the pointer limit. */
  lemma BeyondReach(p: bytes, m: Message, t: Table)
    requires EncodeWith(m, HeaderNumber(m.header), t) == Ok(p) && AllOwnTypes(m) && (t == None || t == EMPTY_TABLE)
    ensures DecodeMessage(p) == Err(TooManyPtr) <==> !Within(m, t)
  {
    UnpackPacked(p, m, HeaderNumber(m.header), t);
    WithinIsReadable(p, m, HeaderNumber(m.header), t);
  }
}
