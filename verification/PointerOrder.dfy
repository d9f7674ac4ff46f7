/** Every pointer that packing emits goes strictly backward, over whole messages (internal/dnsmessage/message.go). */
module PointerOrder {
  import opened Wire
  import opened Names
  import opened Compression
  import opened Records
  import opened Sequences
  import opened Messages
  import opened MessageRoundTrip

  // ---------- Names ----------

  /** The pointer that a suffix written with table `t` ends in: to its first known suffix. */
  ghost function Target(s: bytes, t: Table): Option<Pointer14>
    requires Canonical(s)
    decreases |s|
  {
    if s == [] || t.None? then None else if s in t.value then Some(t.value[s]) else Target(Tail(s), t)
  }

  ghost predicate EndsWith(w: bytes, tail: bytes) {
    |tail| <= |w| && w[|w| - |tail|..] == tail
  }

  lemma EndsWithMore(head: bytes, w: bytes, tail: bytes)
    requires EndsWith(w, tail)
    ensures EndsWith(head + w, tail)
  {
  }

  /** Registering a longer suffix does not matter. */
  lemma {:induction false} TargetIgnoresLonger(s: bytes, t: Table, k: bytes, pos: nat)
    requires Canonical(s) && |s| < |k|
    ensures Target(s, Register(t, k, pos)) == Target(s, t)
    decreases |s|
  {
    if s != [] && t.Some? && s !in t.value {
      TargetIgnoresLonger(Tail(s), t, k, pos);
    }
  }

  lemma {:induction false} SuffixEndsIn(s: bytes, pos: nat, t: Table)
    requires Canonical(s) && EncodeSuffix(s, pos, t).out.Ok?
    ensures EndsWith(EncodeSuffix(s, pos, t).out.value, match Target(s, t) case Some(p) => PointerBytes(p) case None => [0])
    decreases |s|
  {
    if s != [] && (t.None? || s !in t.value) {
      var t1, at := Register(t, s, pos), pos + |Segment(s)|;
      SuffixEndsIn(Tail(s), at, t1);
      TargetIgnoresLonger(Tail(s), t, s, pos);
      EndsWithMore(Segment(s), EncodeSuffix(Tail(s), at, t1).out.value, match Target(s, t) case Some(p) => PointerBytes(p) case None => [0]);
    }
  }

  /** All entries point in front of `pos`. */
  ghost predicate Below(t: Table, pos: nat) {
    t.Some? ==> forall k {:trigger k in t.value} :: k in t.value ==> t.value[k] < pos
  }

  lemma {:induction false} SuffixKeepsBelow(s: bytes, pos: nat, t: Table)
    requires Canonical(s) && Below(t, pos) && EncodeSuffix(s, pos, t).out.Ok?
    ensures Below(EncodeSuffix(s, pos, t).table, pos + |EncodeSuffix(s, pos, t).out.value|)
    decreases |s|
  {
    if s != [] && (t.None? || s !in t.value) {
      SuffixKeepsBelow(Tail(s), pos + |Segment(s)|, Register(t, s, pos));
    }
  }

  lemma {:induction false} TargetBelow(s: bytes, t: Table, pos: nat)
    requires Canonical(s) && Below(t, pos)
    ensures Target(s, t).Some? ==> Target(s, t).value < pos
    decreases |s|
  {
    if s != [] && t.Some? && s !in t.value {
      TargetBelow(Tail(s), t, pos);
    }
  }

  /** The name's bytes end in its final zero or in one pointer, to an offset in front of the name. */
  ghost predicate NameBackward(n: bytes, pos: nat, t: Table) {
    EncodeName(n, pos, t).out.Ok? && n != [DOT] ==>
      var w := EncodeName(n, pos, t).out.value;
      match Target(n, t)
      case Some(p) => p < pos && EndsWith(w, PointerBytes(p))
      case None => EndsWith(w, [0])
  }

  /** Pointers go strictly backward, and the entries a name leaves point in front of what is written next. */
  lemma PointersGoBackward(n: bytes, pos: nat, t: Table, w: bytes)
    requires Below(t, pos) && EncodeName(n, pos, t).out == Ok(w)
    ensures NameBackward(n, pos, t) && Below(EncodeName(n, pos, t).table, pos + |w|)
  {
    if n != [DOT] {
      SuffixEndsIn(n, pos, t);
      TargetBelow(n, t, pos);
      SuffixKeepsBelow(n, pos, t);
    }
  }

  // ---------- Bodies, records, questions ----------

  /** All names of a body, the ones without compression included. */
  ghost predicate BodyBackward(b: Body, pos: nat, t: Table) {
    match b
    case NS(n) => NameBackward(n, pos, t)
    case CNAME(n) => NameBackward(n, pos, t)
    case PTR(n) => NameBackward(n, pos, t)
    case MX(_, n) => NameBackward(n, pos + 2, t)
    case SOA(ns, mbox, _, _, _, _, _) => SoaBackward(ns, mbox, pos, t)
    case SRV(_, _, _, n) => NameBackward(n, pos + 6, None)
    case SVCB(_, n, _) => NameBackward(n, pos + 2, None)
    case HTTPS(_, n, _) => NameBackward(n, pos + 2, None)
    case _ => true
  }

  ghost predicate SoaBackward(ns: bytes, mbox: bytes, pos: nat, t: Table) {
    var first := EncodeName(ns, pos, t);
    NameBackward(ns, pos, t) && (first.out.Ok? ==> NameBackward(mbox, pos + |first.out.value|, first.table))
  }

  ghost predicate RecordBackward(h: ResourceHeader, b: Body, pos: nat, t: Table) {
    var name := EncodeName(h.name, pos, t);
    NameBackward(h.name, pos, t) && (name.out.Ok? ==> BodyBackward(b, pos + |name.out.value| + 10, name.table))
  }

  lemma PlainBackward(n: bytes, pos: nat)
    ensures NameBackward(n, pos, None)
  {
    if EncodeName(n, pos, None).out.Ok? {
      PointersGoBackward(n, pos, None, EncodeName(n, pos, None).out.value);
    }
  }

  lemma BelowLater(t: Table, pos: nat, later: nat)
    requires Below(t, pos) && pos <= later
    ensures Below(t, later)
  {
  }

  lemma SoaGoesBackward(ns: bytes, mbox: bytes, tail: bytes, pos: nat, t: Table)
    requires Below(t, pos) && EncodeSoa(ns, mbox, tail, pos, t).out.Ok?
    ensures SoaBackward(ns, mbox, pos, t)
    ensures var e := EncodeSoa(ns, mbox, tail, pos, t); Below(e.table, pos + |e.out.value|)
  {
    var first := EncodeName(ns, pos, t);
    PointersGoBackward(ns, pos, t, first.out.value);
    var at := pos + |first.out.value|;
    var second := EncodeName(mbox, at, first.table);
    PointersGoBackward(mbox, at, first.table, second.out.value);
    BelowLater(second.table, at + |second.out.value|, at + |second.out.value| + |tail|);
  }

  lemma BodyGoesBackward(b: Body, pos: nat, t: Table)
    requires Below(t, pos) && EncodeBody(b, pos, t).out.Ok?
    ensures BodyBackward(b, pos, t)
    ensures var e := EncodeBody(b, pos, t); Below(e.table, pos + |e.out.value|)
  {
    match b {
      case NS(n) => PointersGoBackward(n, pos, t, EncodeName(n, pos, t).out.value);
      case CNAME(n) => PointersGoBackward(n, pos, t, EncodeName(n, pos, t).out.value);
      case PTR(n) => PointersGoBackward(n, pos, t, EncodeName(n, pos, t).out.value);
      case MX(_, n) =>
        BelowLater(t, pos, pos + 2);
        PointersGoBackward(n, pos + 2, t, EncodeName(n, pos + 2, t).out.value);
      case SOA(ns, mbox, _, _, _, _, _) => SoaGoesBackward(ns, mbox, SoaTail(b), pos, t);
      case SRV(_, _, _, n) => PlainBackward(n, pos + 6);
      case SVCB(_, n, _) => PlainBackward(n, pos + 2);
      case HTTPS(_, n, _) => PlainBackward(n, pos + 2);
      case _ =>
    }
  }

  lemma RecordGoesBackward(h: ResourceHeader, typ: uint16, b: Body, pos: nat, t: Table)
    requires Below(t, pos) && EncodeRecord(h, typ, b, pos, t).out.Ok?
    ensures RecordBackward(h, b, pos, t)
    ensures var e := EncodeRecord(h, typ, b, pos, t); Below(e.table, pos + |e.out.value|)
  {
    var name := EncodeName(h.name, pos, t);
    PointersGoBackward(h.name, pos, t, name.out.value);
    var at := pos + |name.out.value| + 10;
    BelowLater(name.table, at - 10, at);
    BodyGoesBackward(b, at, name.table);
  }

  lemma QuestionGoesBackward(q: Question, pos: nat, t: Table)
    requires Below(t, pos) && EncodeQuestion(q, pos, t).out.Ok?
    ensures NameBackward(q.name, pos, t)
    ensures var e := EncodeQuestion(q, pos, t); Below(e.table, pos + |e.out.value|)
  {
    var name := EncodeName(q.name, pos, t);
    PointersGoBackward(q.name, pos, t, name.out.value);
    BelowLater(name.table, pos + |name.out.value|, pos + |name.out.value| + 4);
  }

  // ---------- Sections ----------

  /** Every item is good at its place. */
  ghost predicate AllPlaced<T>(enc: Encoder<T>, good: (T, nat, Table) -> bool, xs: seq<T>, pos: nat, t: Table) {
    xs == [] ||
    var e := enc(xs[0], pos, t);
    good(xs[0], pos, t) && (e.out.Ok? ==> AllPlaced(enc, good, xs[1..], pos + |e.out.value|, e.table))
  }

  /** The law of one item. */
  ghost predicate Orderly<T>(enc: Encoder<T>, good: (T, nat, Table) -> bool, x: T, pos: nat, t: Table) {
    var e := enc(x, pos, t);
    Below(t, pos) && e.out.Ok? ==> good(x, pos, t) && Below(e.table, pos + |e.out.value|)
  }

  ghost predicate AllOrderly<T(!new)>(enc: Encoder<T>, good: (T, nat, Table) -> bool) {
    forall x, pos, t {:trigger Orderly(enc, good, x, pos, t)} :: Orderly(enc, good, x, pos, t)
  }

  lemma {:induction false} ItemsGoBackward<T(!new)>(enc: Encoder<T>, good: (T, nat, Table) -> bool, xs: seq<T>, pos: nat, t: Table)
    requires AllOrderly(enc, good) && Below(t, pos) && EncodeItems(enc, xs, pos, t).out.Ok?
    ensures AllPlaced(enc, good, xs, pos, t)
    ensures var e := EncodeItems(enc, xs, pos, t); Below(e.table, pos + |e.out.value|)
    decreases |xs|
  {
    if xs != [] {
      var e := enc(xs[0], pos, t);
      assert Orderly(enc, good, xs[0], pos, t);
      ItemsGoBackward(enc, good, xs[1..], pos + |e.out.value|, e.table);
    }
  }

  ghost predicate QuestionBackward(q: Question, pos: nat, t: Table) {
    NameBackward(q.name, pos, t)
  }

  ghost predicate ResourceBackward(r: Resource, pos: nat, t: Table) {
    RecordBackward(r.header, r.body, pos, t)
  }

  lemma QuestionsOrderly()
    ensures AllOrderly(EncodeQuestion, QuestionBackward)
  {
    forall q, pos, t ensures Orderly(EncodeQuestion, QuestionBackward, q, pos, t) {
      if Below(t, pos) && EncodeQuestion(q, pos, t).out.Ok? {
        QuestionGoesBackward(q, pos, t);
      }
    }
  }

  lemma ResourcesOrderly()
    ensures AllOrderly(EncodeResource, ResourceBackward)
  {
    forall r, pos, t ensures Orderly(EncodeResource, ResourceBackward, r, pos, t) {
      if Below(t, pos) && EncodeResource(r, pos, t).out.Ok? {
        RecordGoesBackward(r.header, RealType(r.body), r.body, pos, t);
      }
    }
  }

  // ---------- Messages ----------

  /** Every pointer of the packed message leads in front of the name it ends. */
  ghost predicate MessageBackward(m: Message, t: Table) {
    var l := LayoutOf(m, t);
    && AllPlaced(EncodeQuestion, QuestionBackward, m.questions, HEADER_LEN, t)
    && AllPlaced(EncodeResource, ResourceBackward, m.answers, Next(l.qs), l.qs.table)
    && AllPlaced(EncodeResource, ResourceBackward, m.authorities, Next(l.an), l.an.table)
    && AllPlaced(EncodeResource, ResourceBackward, m.additionals, Next(l.ns), l.ns.table)
  }

  lemma SectionGoesBackward(e: Encoded, rs: seq<Resource>)
    requires Then(EncodeResource, e, HEADER_LEN, rs).out.Ok? && Below(e.table, Next(e))
    ensures AllPlaced(EncodeResource, ResourceBackward, rs, Next(e), e.table)
    ensures var e' := Then(EncodeResource, e, HEADER_LEN, rs); Below(e'.table, Next(e'))
  {
    ResourcesOrderly();
    ItemsGoBackward(EncodeResource, ResourceBackward, rs, Next(e), e.table);
  }

  /** Packing a message, from a table without entries, only emits pointers that go strictly backward. */
  lemma PackedPointersGoBackward(m: Message, bits: uint16, t: Table)
    requires EncodeWith(m, bits, t).Ok? && (t == None || t == EMPTY_TABLE)
    ensures MessageBackward(m, t)
  {
    var l := LayoutOf(m, t);
    QuestionsOrderly();
    ItemsGoBackward(EncodeQuestion, QuestionBackward, m.questions, HEADER_LEN, t);
    SectionGoesBackward(l.qs, m.answers);
    SectionGoesBackward(l.an, m.authorities);
    SectionGoesBackward(l.ns, m.additionals);
  }
}
