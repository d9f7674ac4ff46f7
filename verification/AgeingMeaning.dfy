/** Ageing the bytes of a packed message is packing the aged message (resolver/cache.go, internal/dnsmessage/message.go). */
module AgeingMeaning {
  import opened Wire
  import opened Names
  import opened Compression
  import opened TableSoundness
  import opened Records
  import opened RecordRoundTrip
  import opened Sequences
  import opened Messages
  import opened MessageRoundTrip
  import opened Reach
  import opened TtlAgeing
  import opened TtlProperties

  // ---------- Aged messages ----------

  function AgedTtl(b: Body, ttl: uint32, age: uint32, maxTtl: uint32): uint32 {
    if b.OPT? || (b.Unknown? && b.unknownType == TYPE_OPT) then ttl else Capped(Less(ttl, age), maxTtl)
  }

  function AgedResource(r: Resource, age: uint32, maxTtl: uint32): Resource {
    r.(header := r.header.(ttl := AgedTtl(r.body, r.header.ttl, age, maxTtl)))
  }

  function AgedResources(rs: seq<Resource>, age: uint32, maxTtl: uint32): (r: seq<Resource>)
    ensures |r| == |rs|
  {
    seq(|rs|, i requires 0 <= i < |rs| => AgedResource(rs[i], age, maxTtl))
  }

  function AgedMessage(m: Message, age: uint32, maxTtl: uint32): Message {
    m.(answers := AgedResources(m.answers, age, maxTtl), authorities := AgedResources(m.authorities, age, maxTtl),
       additionals := AgedResources(m.additionals, age, maxTtl))
  }

  // ---------- Skipping what was written ----------

  lemma {:induction false} SuffixSkips(m: bytes, pos: nat, s: bytes, t: Table, w: bytes)
    requires Canonical(s) && EncodeSuffix(s, pos, t).out == Ok(w) && At(m, pos, w)
    ensures SkipEnd(m, pos) == Ok(pos + |w|)
    decreases |s|
  {
    if s == [] {
      assert m[pos] == w[0];
    } else if t.Some? && s in t.value {
      PointerSkips(m, pos, t.value[s]);
    } else {
      var rest := MissWrites(m, pos, s, t, w);
      SuffixSkips(m, pos + |Segment(s)|, Tail(s), Register(t, s, pos), rest);
      SegmentSkips(m, pos, s);
    }
  }

  lemma PointerSkips(m: bytes, pos: nat, p: Pointer14)
    requires At(m, pos, PointerBytes(p))
    ensures SkipEnd(m, pos) == Ok(pos + 2)
  {
    assert m[pos] == PointerBytes(p)[0];
  }

  lemma SegmentSkips(m: bytes, pos: nat, s: bytes)
    requires s != [] && Canonical(s) && 0 < FirstDot(s) < SEGMENT_LIMIT && At(m, pos, Segment(s))
    ensures SkipEnd(m, pos) == SkipEnd(m, pos + |Segment(s)|)
  {
    assert m[pos] == Segment(s)[0];
  }

  lemma NameSkips(m: bytes, pos: nat, n: bytes, t: Table, w: bytes)
    requires EncodeName(n, pos, t).out == Ok(w) && At(m, pos, w)
    ensures SkipEnd(m, pos) == Ok(pos + |w|) && |w| > 0
  {
    NameNotEmpty(n, pos, t);
    if n == [DOT] {
      assert m[pos] == w[0];
    } else {
      SuffixSkips(m, pos, n, t, w);
    }
  }

  /** The law of one question: its name is skipped to four bytes in front of its end. */
  ghost predicate SkipLaw<T>(enc: Encoder<T>, m: bytes, x: T, pos: nat, t: Table, w: bytes) {
    Written(m, pos, enc(x, pos, t), w) ==> SkipEnd(m, pos) == Ok(pos + |w| - 4) && |w| > 4
  }

  lemma {:induction false} ItemsSkipped<T(!new)>(enc: Encoder<T>, m: bytes, pos: nat, xs: seq<T>, t: Table, w: bytes)
    requires forall x, at, u, v {:trigger SkipLaw(enc, m, x, at, u, v)} :: SkipLaw(enc, m, x, at, u, v)
    requires Written(m, pos, EncodeItems(enc, xs, pos, t), w)
    ensures QuestionsEnd(m, pos, |xs|) == Some(pos + |w|)
    decreases |xs|
  {
    if xs != [] {
      var first, t1, rest := FirstItem(enc, m, pos, xs, t, w);
      assert SkipLaw(enc, m, xs[0], pos, t, first);
      ItemsSkipped(enc, m, pos + |first|, xs[1..], t1, rest);
    }
  }

  lemma QuestionsSkipped(m: bytes, pos: nat, qs: seq<Question>, t: Table, w: bytes)
    requires Written(m, pos, EncodeItems(EncodeQuestion, qs, pos, t), w)
    ensures QuestionsEnd(m, pos, |qs|) == Some(pos + |w|)
  {
    forall q, at, u, v ensures SkipLaw(EncodeQuestion, m, q, at, u, v) {
      if Written(m, at, EncodeQuestion(q, at, u), v) {
        QuestionSkips(m, at, q, u, v);
      }
    }
    ItemsSkipped(EncodeQuestion, m, pos, qs, t, w);
  }

  lemma QuestionSkips(m: bytes, pos: nat, q: Question, t: Table, w: bytes)
    requires Written(m, pos, EncodeQuestion(q, pos, t), w)
    ensures SkipEnd(m, pos) == Ok(pos + |w| - 4) && |w| > 4
  {
    var name := EncodeName(q.name, pos, t).out.value;
    AtParts(m, pos, name, U16(q.typ) + U16(q.cls));
    NameSkips(m, pos, q.name, t, name);
  }

  // ---------- One record, before and after ----------

  /** The TTL field in front of `h` holds in `p'` what ageing makes of its value in `p`. */
  ghost predicate AgesTo(p: bytes, p': bytes, h: nat, age: uint32, maxTtl: uint32) {
    && 10 <= h <= |p| == |p'|
    && GetU32(p', h - 6) == if AtOpt(p, h) then GetU32(p, h - 6) else Capped(Less(GetU32(p, h - 6), age), maxTtl)
  }

  ghost predicate AlikeBetween(p: bytes, p': bytes, pos: nat, end: nat, spots: seq<nat>) {
    |p| == |p'| && forall i {:trigger p'[i]} :: pos <= i < end && i < |p| && !InField(spots, i) ==> p'[i] == p[i]
  }

  /** The walk meets a record between `pos` and `next`, and both messages agree on it but for its aged TTL. */
  ghost predicate RecordStep(p: bytes, p': bytes, pos: nat, h: nat, next: nat, age: uint32, maxTtl: uint32) {
    && pos + 11 <= h <= |p| && SkipEnd(p, pos) == Ok(h - 10) && h + GetU16(p, h - 2) == next <= |p|
    && AgesTo(p, p', h, age, maxTtl) && AlikeBetween(p, p', pos, next, [h])
  }

  lemma RecordAges(p: bytes, p': bytes, pos: nat, r: Resource, t: Table, w: bytes, w': bytes, age: uint32, maxTtl: uint32)
    returns (h: nat)
    requires |p| == |p'| && Written(p, pos, EncodeResource(r, pos, t), w)
    requires Written(p', pos, EncodeResource(AgedResource(r, age, maxTtl), pos, t), w')
    ensures |w'| == |w| && EncodeResource(AgedResource(r, age, maxTtl), pos, t).table == EncodeResource(r, pos, t).table
    ensures RecordStep(p, p', pos, h, pos + |w|, age, maxTtl)
  {
    var name, t1, body := RecordParts(p, pos, r.header, RealType(r.body), r.body, t, w);
    AgedParts(p', pos, r, t, w', age, maxTtl, name, t1, body);
    NameSkips(p, pos, r.header.name, t, name);
    h := pos + |name| + 10;
    FieldsAge(p, p', pos, h, name, body, r.body, r.header.cls, r.header.ttl, age, maxTtl);
  }

  /** The parts of the aged record are those of the record, TTL aside. */
  lemma AgedParts(p': bytes, pos: nat, r: Resource, t: Table, w': bytes, age: uint32, maxTtl: uint32, name: bytes, t1: Table, body: bytes)
    requires Written(p', pos, EncodeResource(AgedResource(r, age, maxTtl), pos, t), w')
    requires EncodeName(r.header.name, pos, t) == Encoded(Ok(name), t1)
    requires EncodeBody(r.body, pos + |name| + 10, t1).out == Ok(body) && |body| <= MAX_UINT16 && !r.body.NilBody?
    ensures At(p', pos, name) && At(p', pos + |name| + 10, body) && |w'| == |name| + 10 + |body|
    ensures At(p', pos + |name|, Fixed(RealType(r.body), r.header.cls, AgedTtl(r.body, r.header.ttl, age, maxTtl), |body|))
    ensures EncodeResource(AgedResource(r, age, maxTtl), pos, t).table == EncodeBody(r.body, pos + |name| + 10, t1).table
  {
    var name', t1', body' := RecordParts(p', pos, AgedResource(r, age, maxTtl).header, RealType(r.body), r.body, t, w');
  }

  lemma FieldsAge(p: bytes, p': bytes, pos: nat, h: nat, name: bytes, body: bytes, b: Body, cls: uint16, ttl: uint32,
                  age: uint32, maxTtl: uint32)
    requires |p| == |p'| && h == pos + |name| + 10 && |body| <= MAX_UINT16 && !b.NilBody?
    requires At(p, pos, name) && At(p, h - 10, Fixed(RealType(b), cls, ttl, |body|)) && At(p, h, body)
    requires At(p', pos, name) && At(p', h - 10, Fixed(RealType(b), cls, AgedTtl(b, ttl, age, maxTtl), |body|)) && At(p', h, body)
    ensures GetU16(p, h - 2) == |body| && AgesTo(p, p', h, age, maxTtl) && AlikeBetween(p, p', pos, h + |body|, [h])
  {
    FixedReadsBack(p, h - 10, RealType(b), cls, ttl, |body|);
    FixedReadsBack(p', h - 10, RealType(b), cls, AgedTtl(b, ttl, age, maxTtl), |body|);
    OutsideTtl(p, p', pos, h, name, body, RealType(b), cls, ttl, AgedTtl(b, ttl, age, maxTtl));
  }

  lemma OutsideTtl(p: bytes, p': bytes, pos: nat, h: nat, name: bytes, body: bytes, typ: uint16, cls: uint16, ttl: uint32, ttl': uint32)
    requires |p| == |p'| && h == pos + |name| + 10 && |body| <= MAX_UINT16
    requires At(p, pos, name) && At(p, h - 10, Fixed(typ, cls, ttl, |body|)) && At(p, h, body)
    requires At(p', pos, name) && At(p', h - 10, Fixed(typ, cls, ttl', |body|)) && At(p', h, body)
    ensures AlikeBetween(p, p', pos, h + |body|, [h])
  {
    forall i | pos <= i < h + |body| && !InField([h], i) ensures p'[i] == p[i] {
      assert [h][0] == h;
      if i < h - 10 {
        assert p[i] == name[i - pos] && p'[i] == name[i - pos];
      } else if i < h {
        var f, f' := Fixed(typ, cls, ttl, |body|), Fixed(typ, cls, ttl', |body|);
        assert p[i] == f[i - h + 10] && p'[i] == f'[i - h + 10];
      } else {
        assert p[i] == body[i - h] && p'[i] == body[i - h];
      }
    }
  }

  // ---------- All records ----------

  lemma ClearOfPart(spots: seq<nat>, part: seq<nat>, i: nat)
    requires !InField(spots, i) && (forall j {:trigger part[j]} :: 0 <= j < |part| ==> part[j] in spots)
    ensures !InField(part, i)
  {
    forall j | 0 <= j < |part| ensures !(part[j] <= i + 6 && i + 2 < part[j]) {
      assert part[j] in spots;
      var k :| 0 <= k < |spots| && spots[k] == part[j];
      assert !(spots[k] <= i + 6 && i + 2 < spots[k]);
    }
  }

  lemma AlikeOneMore(p: bytes, p': bytes, pos: nat, next: nat, end: nat, h: nat, rest: seq<nat>)
    requires AlikeBetween(p, p', pos, next, [h]) && AlikeBetween(p, p', next, end, rest)
    ensures AlikeBetween(p, p', pos, end, [h] + rest)
  {
    var spots := [h] + rest;
    forall i | pos <= i < end && i < |p| && !InField(spots, i) ensures p'[i] == p[i] {
      assert spots[0] == h;
      ClearOfPart(spots, [h], i);
      forall j | 0 <= j < |rest| ensures rest[j] in spots {
        assert spots[j + 1] == rest[j];
      }
      ClearOfPart(spots, rest, i);
    }
  }

  /** The walk over `count` records ends at `end`, and both messages agree between but for the aged TTLs. */
  ghost predicate SectionStep(p: bytes, p': bytes, pos: nat, end: nat, count: nat, spots: seq<nat>, age: uint32, maxTtl: uint32) {
    && Walk(p, pos, count) == Trail(spots, Done) && AlikeBetween(p, p', pos, end, spots)
    && forall j {:trigger spots[j]} :: 0 <= j < |spots| ==> AgesTo(p, p', spots[j], age, maxTtl)
  }

  lemma OneMoreStep(p: bytes, p': bytes, pos: nat, h: nat, next: nat, end: nat, count: nat, others: seq<nat>, age: uint32, maxTtl: uint32)
    requires RecordStep(p, p', pos, h, next, age, maxTtl) && SectionStep(p, p', next, end, count, others, age, maxTtl)
    ensures SectionStep(p, p', pos, end, count + 1, [h] + others, age, maxTtl)
  {
    AlikeOneMore(p, p', pos, next, end, h, others);
    WalkStep(p, pos, count + 1, h);
    var w := Walk(p, pos, count + 1);
    assert w.spots == [h] + w.spots[1..];
  }

  /** The law of one item under ageing. */
  ghost predicate AgeLaw<T>(enc: Encoder<T>, p: bytes, p': bytes, x: T, x': T, pos: nat, t: Table, w: bytes, w': bytes,
                            age: uint32, maxTtl: uint32) {
    Written(p, pos, enc(x, pos, t), w) && Written(p', pos, enc(x', pos, t), w') ==>
      && |w'| == |w| && enc(x', pos, t).table == enc(x, pos, t).table
      && SomeStep(p, p', pos, pos + |w|, age, maxTtl)
  }

  ghost predicate SomeStep(p: bytes, p': bytes, pos: nat, next: nat, age: uint32, maxTtl: uint32) {
    exists h :: RecordStep(p, p', pos, h, next, age, maxTtl)
  }

  ghost predicate AgeLawful<T(!new)>(enc: Encoder<T>, p: bytes, p': bytes, xs: seq<T>, xs': seq<T>, age: uint32, maxTtl: uint32) {
    && |xs'| == |xs|
    && forall i, pos, t, w, w' {:trigger AgeLaw(enc, p, p', xs[i], xs'[i], pos, t, w, w', age, maxTtl)} ::
         0 <= i < |xs| ==> AgeLaw(enc, p, p', xs[i], xs'[i], pos, t, w, w', age, maxTtl)
  }

  lemma AgeLawfulTail<T(!new)>(enc: Encoder<T>, p: bytes, p': bytes, xs: seq<T>, xs': seq<T>, age: uint32, maxTtl: uint32)
    requires AgeLawful(enc, p, p', xs, xs', age, maxTtl) && xs != []
    ensures AgeLawful(enc, p, p', xs[1..], xs'[1..], age, maxTtl)
  {
    forall i, pos, t, w, w' | 0 <= i < |xs| - 1
      ensures AgeLaw(enc, p, p', xs[1..][i], xs'[1..][i], pos, t, w, w', age, maxTtl)
    {
      assert AgeLaw(enc, p, p', xs[i + 1], xs'[i + 1], pos, t, w, w', age, maxTtl);
    }
  }

  /** The records of a section: where their TTL fields are, and that both messages agree but for those. */
  lemma {:induction false} ItemsAge<T(!new)>(enc: Encoder<T>, p: bytes, p': bytes, pos: nat, xs: seq<T>, xs': seq<T>,
                                             t: Table, w: bytes, w': bytes, age: uint32, maxTtl: uint32)
    returns (spots: seq<nat>)
    requires |p| == |p'| && AgeLawful(enc, p, p', xs, xs', age, maxTtl)
    requires Written(p, pos, EncodeItems(enc, xs, pos, t), w) && Written(p', pos, EncodeItems(enc, xs', pos, t), w')
    ensures |w'| == |w| && SectionStep(p, p', pos, pos + |w|, |xs|, spots, age, maxTtl)
    decreases |xs|
  {
    spots := [];
    if xs != [] {
      var first, t1, rest := FirstItem(enc, p, pos, xs, t, w);
      var first', t1', rest' := FirstItem(enc, p', pos, xs', t, w');
      assert AgeLaw(enc, p, p', xs[0], xs'[0], pos, t, first, first', age, maxTtl);
      var next := pos + |first|;
      var h :| RecordStep(p, p', pos, h, next, age, maxTtl);
      AgeLawfulTail(enc, p, p', xs, xs', age, maxTtl);
      var others := ItemsAge(enc, p, p', next, xs[1..], xs'[1..], t1, rest, rest', age, maxTtl);
      OneMoreStep(p, p', pos, h, next, pos + |w|, |xs| - 1, others, age, maxTtl);
      spots := [h] + others;
    }
  }

  lemma ResourcesAgeLawful(p: bytes, p': bytes, rs: seq<Resource>, age: uint32, maxTtl: uint32)
    requires |p| == |p'|
    ensures AgeLawful(EncodeResource, p, p', rs, AgedResources(rs, age, maxTtl), age, maxTtl)
  {
    var aged := AgedResources(rs, age, maxTtl);
    forall i, pos, t, w, w' | 0 <= i < |rs|
      ensures AgeLaw(EncodeResource, p, p', rs[i], aged[i], pos, t, w, w', age, maxTtl)
    {
      if Written(p, pos, EncodeResource(rs[i], pos, t), w) && Written(p', pos, EncodeResource(aged[i], pos, t), w') {
        var h := RecordAges(p, p', pos, rs[i], t, w, w', age, maxTtl);
      }
    }
  }

  // ---------- Whole messages ----------

  lemma {:induction false} ItemsAppended<T>(enc: Encoder<T>, xs: seq<T>, ys: seq<T>, pos: nat, t: Table)
    ensures var e := EncodeItems(enc, xs, pos, t);
      EncodeItems(enc, xs + ys, pos, t)
      == if e.out.Err? then e else Prefixed(e.out.value, EncodeItems(enc, ys, pos + |e.out.value|, e.table))
    decreases |xs|
  {
    if xs == [] {
      assert xs + ys == ys;
      var e := EncodeItems(enc, ys, pos, t);
      if e.out.Ok? {
        assert [] + e.out.value == e.out.value;
      }
    } else {
      assert (xs + ys)[0] == xs[0] && (xs + ys)[1..] == xs[1..] + ys;
      var first := enc(xs[0], pos, t);
      if first.out.Ok? {
        var at := pos + |first.out.value|;
        ItemsAppended(enc, xs[1..], ys, at, first.table);
        var others := EncodeItems(enc, xs[1..], at, first.table);
        if others.out.Ok? {
          PrefixedTwice(first.out.value, others.out.value, EncodeItems(enc, ys, at + |others.out.value|, others.table));
        }
      }
    }
  }

  lemma ThenAppended(enc: Encoder<Resource>, e: Encoded, rs: seq<Resource>, rs': seq<Resource>)
    ensures Then(enc, Then(enc, e, HEADER_LEN, rs), HEADER_LEN, rs') == Then(enc, e, HEADER_LEN, rs + rs')
  {
    if e.out.Ok? {
      var at := HEADER_LEN + |e.out.value|;
      ItemsAppended(enc, rs, rs', at, e.table);
      var first := EncodeItems(enc, rs, at, e.table);
      if first.out.Ok? {
        PrefixedTwice(e.out.value, first.out.value, EncodeItems(enc, rs', at + |first.out.value|, first.table));
      }
    }
  }

  function AllRecords(m: Message): seq<Resource> {
    m.answers + m.authorities + m.additionals
  }

  /** Three sections are one list of records. */
  lemma ContentAsOneList(enc: Encoder<Resource>, m: Message, t: Table)
    ensures ContentOf(enc, m, t) == Then(enc, EncodeItems(EncodeQuestion, m.questions, HEADER_LEN, t), HEADER_LEN, AllRecords(m))
  {
    var qs := EncodeItems(EncodeQuestion, m.questions, HEADER_LEN, t);
    ThenAppended(enc, qs, m.answers, m.authorities);
    ThenAppended(enc, qs, m.answers + m.authorities, m.additionals);
  }

  lemma AgedAppended(rs: seq<Resource>, rs': seq<Resource>, age: uint32, maxTtl: uint32)
    ensures AgedResources(rs + rs', age, maxTtl) == AgedResources(rs, age, maxTtl) + AgedResources(rs', age, maxTtl)
  {
  }

  lemma AgedRecordsOf(m: Message, age: uint32, maxTtl: uint32)
    ensures AllRecords(AgedMessage(m, age, maxTtl)) == AgedResources(AllRecords(m), age, maxTtl)
  {
    AgedAppended(m.answers, m.authorities, age, maxTtl);
    AgedAppended(m.answers + m.authorities, m.additionals, age, maxTtl);
  }

  // ---------- The aged message packs alike ----------

  /** Same error or same length, and the same table. */
  ghost predicate SameShape(e: Encoded, e': Encoded) {
    e'.table == e.table && (if e.out.Ok? then e'.out.Ok? && |e'.out.value| == |e.out.value| else e'.out == e.out)
  }

  ghost predicate ShapeLawful<T(!new)>(enc: Encoder<T>, xs: seq<T>, xs': seq<T>) {
    |xs'| == |xs| && forall i, pos, t {:trigger enc(xs[i], pos, t)} :: 0 <= i < |xs| ==> SameShape(enc(xs[i], pos, t), enc(xs'[i], pos, t))
  }

  lemma ShapeLawfulTail<T(!new)>(enc: Encoder<T>, xs: seq<T>, xs': seq<T>)
    requires ShapeLawful(enc, xs, xs') && xs != []
    ensures ShapeLawful(enc, xs[1..], xs'[1..])
  {
    forall i, pos, t | 0 <= i < |xs| - 1 ensures SameShape(enc(xs[1..][i], pos, t), enc(xs'[1..][i], pos, t)) {
      assert SameShape(enc(xs[i + 1], pos, t), enc(xs'[i + 1], pos, t));
    }
  }

  lemma {:induction false} ItemsShape<T(!new)>(enc: Encoder<T>, xs: seq<T>, xs': seq<T>, pos: nat, t: Table)
    requires ShapeLawful(enc, xs, xs')
    ensures SameShape(EncodeItems(enc, xs, pos, t), EncodeItems(enc, xs', pos, t))
    decreases |xs|
  {
    if xs != [] {
      var e := enc(xs[0], pos, t);
      assert SameShape(e, enc(xs'[0], pos, t));
      if e.out.Ok? {
        ShapeLawfulTail(enc, xs, xs');
        ItemsShape(enc, xs[1..], xs'[1..], pos + |e.out.value|, e.table);
      }
    }
  }

  lemma AgedShapeLawful(rs: seq<Resource>, age: uint32, maxTtl: uint32)
    ensures ShapeLawful(EncodeResource, rs, AgedResources(rs, age, maxTtl))
  {
    var aged := AgedResources(rs, age, maxTtl);
    forall i, pos, t | 0 <= i < |rs| ensures SameShape(EncodeResource(rs[i], pos, t), EncodeResource(aged[i], pos, t)) {
      RecordShape(rs[i], pos, t, age, maxTtl);
    }
  }

  lemma RecordShape(r: Resource, pos: nat, t: Table, age: uint32, maxTtl: uint32)
    ensures SameShape(EncodeResource(r, pos, t), EncodeResource(AgedResource(r, age, maxTtl), pos, t))
  {
  }

  lemma ThenShape(enc: Encoder<Resource>, e: Encoded, e': Encoded, rs: seq<Resource>, rs': seq<Resource>)
    requires SameShape(e, e') && ShapeLawful(enc, rs, rs')
    ensures SameShape(Then(enc, e, HEADER_LEN, rs), Then(enc, e', HEADER_LEN, rs'))
  {
    if e.out.Ok? {
      ItemsShape(enc, rs, rs', HEADER_LEN + |e.out.value|, e.table);
    }
  }

  /** Section by section the aged message takes the same places and leaves the same tables. */
  lemma LayoutShape(m: Message, t: Table, age: uint32, maxTtl: uint32, l: Layout, l': Layout)
    requires l == LayoutOf(m, t) && l' == LayoutOf(AgedMessage(m, age, maxTtl), t)
    ensures l'.qs == l.qs && SameShape(l.an, l'.an) && SameShape(l.ns, l'.ns)
  {
    AgedShapeLawful(m.answers, age, maxTtl);
    AgedShapeLawful(m.authorities, age, maxTtl);
    ThenShape(EncodeResource, l.qs, l'.qs, m.answers, AgedResources(m.answers, age, maxTtl));
    ThenShape(EncodeResource, l.an, l'.an, m.authorities, AgedResources(m.authorities, age, maxTtl));
  }

  lemma AgedContentShape(m: Message, t: Table, age: uint32, maxTtl: uint32)
    ensures SameShape(Content(m, t), Content(AgedMessage(m, age, maxTtl), t))
  {
    var l, l' := LayoutOf(m, t), LayoutOf(AgedMessage(m, age, maxTtl), t);
    LayoutShape(m, t, age, maxTtl, l, l');
    AgedShapeLawful(m.additionals, age, maxTtl);
    ThenShape(EncodeResource, l.ns, l'.ns, m.additionals, AgedResources(m.additionals, age, maxTtl));
  }

  // ---------- The aged message reaches as far ----------

  /** Equal measures whatever came before. */
  ghost predicate SameReach<T>(g: Meter<T>, x: T, x': T, pos: nat, t: Table, d: Depths) {
    SameShape(g.enc(x, pos, t), g.enc(x', pos, t)) && g.within(x', pos, t, d) == g.within(x, pos, t, d)
    && g.deepened(x', pos, t, d) == g.deepened(x, pos, t, d)
  }

  ghost predicate ReachLawful<T(!new)>(g: Meter<T>, xs: seq<T>, xs': seq<T>) {
    |xs'| == |xs| && forall i, pos, t, d {:trigger SameReach(g, xs[i], xs'[i], pos, t, d)} :: 0 <= i < |xs| ==> SameReach(g, xs[i], xs'[i], pos, t, d)
  }

  lemma ReachLawfulTail<T(!new)>(g: Meter<T>, xs: seq<T>, xs': seq<T>)
    requires ReachLawful(g, xs, xs') && xs != []
    ensures ReachLawful(g, xs[1..], xs'[1..])
  {
    forall i, pos, t, d | 0 <= i < |xs| - 1 ensures SameReach(g, xs[1..][i], xs'[1..][i], pos, t, d) {
      assert SameReach(g, xs[i + 1], xs'[i + 1], pos, t, d);
    }
  }

  lemma {:induction false} ItemsReach<T(!new)>(g: Meter<T>, xs: seq<T>, xs': seq<T>, pos: nat, t: Table, d: Depths)
    requires ReachLawful(g, xs, xs')
    ensures AllWithin(g, xs', pos, t, d) == AllWithin(g, xs, pos, t, d) && AllDepths(g, xs', pos, t, d) == AllDepths(g, xs, pos, t, d)
    decreases |xs|
  {
    if xs != [] {
      assert SameReach(g, xs[0], xs'[0], pos, t, d);
      var e := g.enc(xs[0], pos, t);
      if e.out.Ok? {
        ReachLawfulTail(g, xs, xs');
        ItemsReach(g, xs[1..], xs'[1..], pos + |e.out.value|, e.table, g.deepened(xs[0], pos, t, d));
      }
    }
  }

  lemma AgedReachLawful(rs: seq<Resource>, age: uint32, maxTtl: uint32)
    ensures ReachLawful(RESOURCES, rs, AgedResources(rs, age, maxTtl))
  {
    var aged := AgedResources(rs, age, maxTtl);
    forall i, pos, t, d | 0 <= i < |rs| ensures SameReach(RESOURCES, rs[i], aged[i], pos, t, d) {
      RecordShape(rs[i], pos, t, age, maxTtl);
      RecordReach(rs[i], pos, t, d, age, maxTtl);
    }
  }

  lemma RecordReach(r: Resource, pos: nat, t: Table, d: Depths, age: uint32, maxTtl: uint32)
    ensures var r' := AgedResource(r, age, maxTtl);
      ResourceWithin(r', pos, t, d) == ResourceWithin(r, pos, t, d) && ResourceDepths(r', pos, t, d) == ResourceDepths(r, pos, t, d)
  {
  }

  lemma ThreeReach<T(!new)>(g: Meter<T>, xs: seq<T>, xs': seq<T>, p1: nat, t1: Table, ys: seq<T>, ys': seq<T>, p2: nat, t2: Table,
                            zs: seq<T>, zs': seq<T>, p3: nat, t3: Table, d1: Depths)
    requires ReachLawful(g, xs, xs') && ReachLawful(g, ys, ys') && ReachLawful(g, zs, zs')
    ensures ThreeWithin(g, xs', p1, t1, ys', p2, t2, zs', p3, t3, d1) == ThreeWithin(g, xs, p1, t1, ys, p2, t2, zs, p3, t3, d1)
  {
    ItemsReach(g, xs, xs', p1, t1, d1);
    var d2 := AllDepths(g, xs, p1, t1, d1);
    ItemsReach(g, ys, ys', p2, t2, d2);
    ItemsReach(g, zs, zs', p3, t3, AllDepths(g, ys, p2, t2, d2));
  }

  lemma SameWithin(gq: Meter<Question>, gr: Meter<Resource>, m: Message, m': Message, t: Table, l: Layout, l': Layout)
    requires m'.questions == m.questions && l'.qs == l.qs && SameShape(l.an, l'.an) && SameShape(l.ns, l'.ns)
    requires ReachLawful(gr, m.answers, m'.answers) && ReachLawful(gr, m.authorities, m'.authorities)
    requires ReachLawful(gr, m.additionals, m'.additionals)
    ensures WithinAt(gq, gr, m', t, l') == WithinAt(gq, gr, m, t, l)
  {
    ThreeReach(gr, m.answers, m'.answers, Next(l.qs), l.qs.table, m.authorities, m'.authorities, Next(l.an), l.an.table,
               m.additionals, m'.additionals, Next(l.ns), l.ns.table, AllDepths(gq, m.questions, HEADER_LEN, t, map[]));
  }

  /** The TTLs of a message do not matter to the reach of its names. */
  lemma AgedWithin(m: Message, t: Table, age: uint32, maxTtl: uint32)
    ensures Within(AgedMessage(m, age, maxTtl), t) <==> Within(m, t)
  {
    var m' := AgedMessage(m, age, maxTtl);
    var l, l' := LayoutOf(m, t), LayoutOf(m', t);
    LayoutShape(m, t, age, maxTtl, l, l');
    AgedReachLawful(m.answers, age, maxTtl);
    AgedReachLawful(m.authorities, age, maxTtl);
    AgedReachLawful(m.additionals, age, maxTtl);
    SameWithin(QUESTIONS, RESOURCES, m, m', t, l, l');
  }

  // ---------- Updating packed bytes ----------

  /** Header and questions, then the records, as they stand in a packed message. */
  lemma PackedParts(p: bytes, m: Message, bits: uint16, t: Table, qs: Encoded) returns (w: bytes, at: nat)
    requires EncodeWith(m, bits, t) == Ok(p) && qs == EncodeItems(EncodeQuestion, m.questions, HEADER_LEN, t)
    ensures Countable(m) && DecodeWireHeader(p) == Ok(WireHeaderOf(m, bits)) && At(p, 0, EncodeHeader(WireHeaderOf(m, bits)))
    ensures qs.out.Ok? && At(p, HEADER_LEN, qs.out.value) && at == HEADER_LEN + |qs.out.value|
    ensures Written(p, at, EncodeItems(EncodeResource, AllRecords(m), at, qs.table), w) && |p| == at + |w|
    ensures QuestionsEnd(p, HEADER_LEN, |m.questions|) == Some(at)
  {
    var all := MessageParts(p, m, bits, t);
    WholeAt(p, EncodeHeader(WireHeaderOf(m, bits)), Content(m, t).out.value);
    ContentAsOneList(EncodeResource, m, t);
    at := HEADER_LEN + |qs.out.value|;
    w := EncodeItems(EncodeResource, AllRecords(m), at, qs.table).out.value;
    AtParts(p, HEADER_LEN, qs.out.value, w);
    QuestionsSkipped(p, HEADER_LEN, m.questions, t, qs.out.value);
  }

  /** Equal in front of the records: header and questions are the same bytes. */
  lemma FrontEqual(p: bytes, p': bytes, head: bytes, qs: bytes)
    requires |p| == |p'| && |head| == HEADER_LEN && At(p, 0, head) && At(p', 0, head)
    requires At(p, HEADER_LEN, qs) && At(p', HEADER_LEN, qs)
    ensures AlikeBetween(p, p', 0, HEADER_LEN + |qs|, [])
  {
    forall i | 0 <= i < HEADER_LEN + |qs| ensures p'[i] == p[i] {
      if i < HEADER_LEN {
        assert p[i] == head[i] && p'[i] == head[i];
      } else {
        assert p[i] == qs[i - HEADER_LEN] && p'[i] == qs[i - HEADER_LEN];
      }
    }
  }

  lemma FrontAndRecords(p: bytes, p': bytes, at: nat, spots: seq<nat>)
    requires AlikeBetween(p, p', 0, at, []) && AlikeBetween(p, p', at, |p|, spots)
    ensures AlikeOutside(p, p', spots, 0)
  {
  }

  /** The bytes in which the TTLs of the records found are aged, and nothing else differs, are the updated ones. */
  lemma OnlyUpdated(p: bytes, p': bytes, spots: seq<nat>, stop: Stop, age: uint32, maxTtl: uint32)
    requires |p| >= HEADER_LEN && RecordsOf(p) == Some(Trail(spots, stop)) && AlikeOutside(p, p', spots, 0)
    requires forall j {:trigger spots[j]} :: 0 <= j < |spots| ==> AgesTo(p, p', spots[j], age, maxTtl)
    ensures p' == Updated(p, age, maxTtl)
  {
    RecordsPlaced(p);
    UpdatedAlike(p, age, maxTtl);
    var u := Updated(p, age, maxTtl);
    forall j | 0 <= j < |spots| ensures GetU32(u, spots[j] - 6) == GetU32(p', spots[j] - 6) {
      AgedField(p, spots, j, age, maxTtl, HEADER_LEN);
      assert AgesTo(p, p', spots[j], age, maxTtl);
    }
    SameMessageBytes(p, u, p', spots);
  }

  /** Ageing the bytes of a packed message gives the packed bytes of the aged message. */
  lemma AgedPacking(m: Message, bits: uint16, t: Table, p: bytes, age: uint32, maxTtl: uint32)
    requires EncodeWith(m, bits, t) == Ok(p) && |p| <= MAX_UINT16
    ensures EncodeWith(AgedMessage(m, age, maxTtl), bits, t) == Ok(Updated(p, age, maxTtl))
  {
    var aged := AgedMessage(m, age, maxTtl);
    AgedContentShape(m, t, age, maxTtl);
    var p' := EncodeWith(aged, bits, t).value;
    var qs := EncodeItems(EncodeQuestion, m.questions, HEADER_LEN, t);
    var w, at := PackedParts(p, m, bits, t, qs);
    var w', at' := PackedParts(p', aged, bits, t, qs);
    FrontEqual(p, p', EncodeHeader(WireHeaderOf(m, bits)), qs.out.value);
    AgedRecordsOf(m, age, maxTtl);
    var n := |AllRecords(m)|;
    ResourcesAgeLawful(p, p', AllRecords(m), age, maxTtl);
    var spots := ItemsAge(EncodeResource, p, p', at, AllRecords(m), AllRecords(aged), qs.table, w, w', age, maxTtl);
    NoWrap(p, at, n);
    FrontAndRecords(p, p', at, spots);
    OnlyUpdated(p, p', spots, Done, age, maxTtl);
  }

  lemma AgedOwnTypes(rs: seq<Resource>, age: uint32, maxTtl: uint32)
    requires OwnTypes(rs)
    ensures OwnTypes(AgedResources(rs, age, maxTtl))
  {
    var aged := AgedResources(rs, age, maxTtl);
    forall r | r in aged ensures OwnType(r.body) {
      var i :| 0 <= i < |aged| && aged[i] == r;
      assert rs[i] in rs;
    }
  }

  /** Unpacking an updated packed message gives the message with its TTLs aged and capped, exactly if unpacking the packed
      message gives the message. */
  lemma UpdatedMessageReadsBack(m: Message, t: Table, p: bytes, age: uint32, maxTtl: uint32)
    requires EncodeWith(m, HeaderNumber(m.header), t) == Ok(p) && |p| <= MAX_UINT16 && (t == None || t == EMPTY_TABLE)
    requires AllOwnTypes(m)
    ensures DecodeMessage(Updated(p, age, maxTtl)) == Ok(FilledMessage(AgedMessage(m, age, maxTtl), t))
       <==> m.header.opCode <= 15 && m.header.rCode <= 15 && Within(m, t)
  {
    AgedPacking(m, HeaderNumber(m.header), t, p, age, maxTtl);
    AgedOwnTypes(m.answers, age, maxTtl);
    AgedOwnTypes(m.authorities, age, maxTtl);
    AgedOwnTypes(m.additionals, age, maxTtl);
    AgedWithin(m, t, age, maxTtl);
    RoundTrip(Updated(p, age, maxTtl), AgedMessage(m, age, maxTtl), t);
  }
}
