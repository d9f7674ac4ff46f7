/** What an append does to the compression table when its bytes are kept, and when they are thrown away
    (internal/dnsmessage/message.go). */
module StaleTable {
  import opened Wire
  import opened Names
  import opened Compression
  import opened TableSoundness
  import opened Records
  import opened RecordRoundTrip
  import opened Messages

  // ---------- New entries point at or behind the place of writing ----------

  /** `t'` is `t` with entries added that point to `pos` or behind. */
  ghost predicate Extends(t: Table, t': Table, pos: nat) {
    && t.Some? == t'.Some?
    && (t.Some? ==>
      && (forall k {:trigger k in t.value} :: k in t.value ==> k in t'.value && t'.value[k] == t.value[k])
      && (forall k {:trigger k in t'.value} :: k in t'.value ==> (k in t.value) || t'.value[k] >= pos))
  }

  lemma ExtendsTwice(t: Table, t': Table, t'': Table, pos: nat, pos': nat)
    requires Extends(t, t', pos) && Extends(t', t'', pos') && pos <= pos'
    ensures Extends(t, t'', pos)
  {
  }

  lemma RegisterExtends(t: Table, s: bytes, pos: nat)
    requires t.None? || s !in t.value
    ensures Extends(t, Register(t, s, pos), pos)
  {
  }

  lemma {:induction false} SuffixExtends(s: bytes, pos: nat, t: Table)
    requires Canonical(s)
    ensures Extends(t, EncodeSuffix(s, pos, t).table, pos)
    decreases |s|
  {
    if s != [] && s[0] != DOT && (t.None? || s !in t.value) {
      RegisterExtends(t, s, pos);
      if FirstDot(s) < SEGMENT_LIMIT {
        var t1 := Register(t, s, pos);
        SuffixExtends(Tail(s), pos + |Segment(s)|, t1);
        ExtendsTwice(t, t1, EncodeSuffix(Tail(s), pos + |Segment(s)|, t1).table, pos, pos + |Segment(s)|);
      }
    }
  }

  lemma NameExtends(n: bytes, pos: nat, t: Table)
    ensures Extends(t, EncodeName(n, pos, t).table, pos)
  {
    if Canonical(n) {
      SuffixExtends(n, pos, t);
    }
  }

  lemma SoaExtends(ns: bytes, mbox: bytes, tail: bytes, pos: nat, t: Table)
    ensures Extends(t, EncodeSoa(ns, mbox, tail, pos, t).table, pos)
  {
    var first := EncodeName(ns, pos, t);
    NameExtends(ns, pos, t);
    if first.out.Ok? {
      var at := pos + |first.out.value|;
      NameExtends(mbox, at, first.table);
      ExtendsTwice(t, first.table, EncodeName(mbox, at, first.table).table, pos, at);
    }
  }

  lemma BodyExtends(b: Body, pos: nat, t: Table)
    ensures Extends(t, EncodeBody(b, pos, t).table, pos)
  {
    match b {
      case NS(n) => NameExtends(n, pos, t);
      case CNAME(n) => NameExtends(n, pos, t);
      case PTR(n) => NameExtends(n, pos, t);
      case MX(_, n) =>
        NameExtends(n, pos + 2, t);
        ExtendsTwice(t, t, EncodeName(n, pos + 2, t).table, pos, pos + 2);
      case SOA(ns, mbox, _, _, _, _, _) => SoaExtends(ns, mbox, SoaTail(b), pos, t);
      case _ =>
    }
  }

  lemma RecordExtends(h: ResourceHeader, typ: uint16, b: Body, pos: nat, t: Table)
    ensures Extends(t, EncodeRecord(h, typ, b, pos, t).table, pos)
  {
    var name := EncodeName(h.name, pos, t);
    NameExtends(h.name, pos, t);
    if name.out.Ok? {
      var at := pos + |name.out.value| + 10;
      BodyExtends(b, at, name.table);
      ExtendsTwice(t, name.table, EncodeBody(b, at, name.table).table, pos, at);
    }
  }

  lemma QuestionExtends(q: Question, pos: nat, t: Table)
    ensures Extends(t, EncodeQuestion(q, pos, t).table, pos)
  {
    NameExtends(q.name, pos, t);
  }

  // ---------- Messages whose header is still to be written ----------

  /** Sound behind any twelve bytes, hence also behind the header that is written last. */
  ghost predicate SoundBehindHeader(c: bytes, t: Table) {
    forall head: bytes {:trigger head + c} :: |head| == HEADER_LEN ==> TableSound(head + c, t)
  }

  lemma NoEntriesSound(c: bytes, t: Table)
    requires t == None || t == EMPTY_TABLE
    ensures SoundBehindHeader(c, t)
  {
  }

  /** A question that was appended keeps the table sound. */
  lemma QuestionGrowsSoundly(c: bytes, t: Table, q: Question, w: bytes, t': Table)
    requires SoundBehindHeader(c, t) && EncodeQuestion(q, HEADER_LEN + |c|, t) == Encoded(Ok(w), t')
    ensures SoundBehindHeader(c + w, t')
  {
    forall head: bytes {:trigger head + (c + w)} | |head| == HEADER_LEN ensures TableSound(head + (c + w), t') {
      Grown(head, c, w, t);
      QuestionReadsBack(head + (c + w), HEADER_LEN + |c|, q, t, w);
    }
  }

  /** A record that was appended keeps the table sound. */
  lemma RecordGrowsSoundly(c: bytes, t: Table, h: ResourceHeader, b: Body, w: bytes, t': Table)
    requires SoundBehindHeader(c, t) && EncodeRecord(h, h.typ, b, HEADER_LEN + |c|, t) == Encoded(Ok(w), t')
    ensures SoundBehindHeader(c + w, t')
  {
    forall head: bytes {:trigger head + (c + w)} | |head| == HEADER_LEN ensures TableSound(head + (c + w), t') {
      Grown(head, c, w, t);
      RecordKeepsTable(head + (c + w), HEADER_LEN + |c|, h, h.typ, b, t, w);
    }
  }

  lemma Grown(head: bytes, c: bytes, w: bytes, t: Table)
    requires TableSound(head + c, t)
    ensures TableSound(head + (c + w), t) && At(head + (c + w), |head| + |c|, w)
  {
    assert head + c + w == head + (c + w);
    TableSurvivesAppend(head + c, head + (c + w), t);
  }

  // ---------- Bytes thrown away ----------

  /** When the bytes of an append are not kept, the table is still sound exactly if it did not change. */
  lemma DroppedAppend(c: bytes, t: Table, t': Table)
    requires SoundBehindHeader(c, t) && Extends(t, t', HEADER_LEN + |c|)
    ensures SoundBehindHeader(c, t') <==> t' == t
  {
    if SoundBehindHeader(c, t') && t'.Some? {
      var head := seq(HEADER_LEN, _ => 0);
      var m := head + c;
      assert TableSound(m, t');
      forall k | k in t'.value ensures k in t.value {
        assert EntrySound(m, k, t'.value[k]);
        assert t'.value[k] < |m|;
      }
      assert t'.value == t.value;
    }
  }

  /** A pointer to itself costs any number of pointers. */
  lemma {:induction false} SelfPointer(m: bytes, pos: Pointer14, budget: nat)
    requires At(m, pos, PointerBytes(pos))
    ensures ReadName(m, pos, budget) == Err(TooManyPtr)
    decreases budget
  {
    var w := PointerBytes(pos);
    assert m[pos] == w[0] && m[pos + 1] == w[1];
    assert PointerAt(m, pos) == pos;
    if budget > 0 {
      SelfPointer(m, pos, budget - 1);
    }
  }

  /** The name of a record whose body failed stays registered at the place where the next record goes. */
  lemma FailedBodyLeavesName(h: ResourceHeader, typ: uint16, b: Body, pos: Pointer14, t: Table)
    requires t.Some? && h.name !in t.value && h.name != [DOT] && EncodeName(h.name, pos, t).out.Ok?
    ensures var t' := EncodeRecord(h, typ, b, pos, t).table;
            t'.Some? && h.name in t'.value && t'.value[h.name] == pos
  {
    var name := EncodeName(h.name, pos, t);
    NameRegistered(h.name, pos, t);
    BodyExtends(b, pos + |name.out.value| + 10, name.table);
  }

  lemma NameRegistered(n: bytes, pos: Pointer14, t: Table)
    requires t.Some? && n !in t.value && n != [DOT] && EncodeName(n, pos, t).out.Ok?
    ensures var t' := EncodeName(n, pos, t).table; t'.Some? && n in t'.value && t'.value[n] == pos
  {
    var t1 := Register(t, n, pos);
    assert n in t1.value && t1.value[n] == pos;
    SuffixExtends(Tail(n), pos + |Segment(n)|, t1);
  }

  /** After a record failed in its body, no record of the same name can be read any more: it is packed
      without an error, as a pointer to itself. */
  lemma NextRecordUnreadable(h: ResourceHeader, b: Body, h': ResourceHeader, b': Body, pos: Pointer14, t: Table, m: bytes, w: bytes)
    requires t.Some? && h.name !in t.value && h.name != [DOT] && EncodeName(h.name, pos, t).out.Ok?
    requires h'.name == h.name
    requires Written(m, pos, EncodeRecord(h', h'.typ, b', pos, EncodeRecord(h, h.typ, b, pos, t).table), w)
    ensures DecodeHeader(m, pos) == Err(TooManyPtr)
  {
    var t' := EncodeRecord(h, h.typ, b, pos, t).table;
    FailedBodyLeavesName(h, h.typ, b, pos, t);
    var name, t1, body := RecordParts(m, pos, h', h'.typ, b', t', w);
    SelfPointer(m, pos, MAX_POINTERS);
  }
}
