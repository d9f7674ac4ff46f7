/** Names that were read can be written, and the bound of ten segments is tight
    (internal/dnsmessage/message.go). */
module NameProperties {
  import opened Wire
  import opened Names
  import opened Compression
  import opened TableSoundness
  import opened Records
  import opened RecordRoundTrip
  import opened Sequences
  import opened Messages
  import opened MessageRoundTrip
  import opened Building

  // ---------- Reader output is writer input ----------

  /** A segment in front of a canonical rest: its length is where the first dot is. */
  lemma {:induction false} DotBehindSegment(segment: bytes, rest: bytes, i: nat)
    requires i <= |segment| && Canonical(rest) && forall k :: 0 <= k < |segment| ==> segment[k] != DOT
    ensures Canonical(segment + [DOT] + rest) && DotFrom(segment + [DOT] + rest, i) == |segment|
    decreases |segment| - i
  {
    var s := segment + [DOT] + rest;
    assert s[|segment|] == DOT && s[|s| - 1] == DOT;
    if i < |segment| {
      DotBehindSegment(segment, rest, i + 1);
    }
  }

  /** The spelling of a name that was read: written without compression it takes one byte more than its text. */
  ghost predicate Writable(s: bytes, pos: nat) {
    && Canonical(s) && (s != [] ==> s[0] != DOT)
    && var e := EncodeSuffix(s, pos, None).out; e.Ok? && |e.value| == |s| + 1
  }

  lemma {:induction false} ReadNameWritable(m: bytes, off: nat, budget: nat, pos: nat)
    requires ReadName(m, off, budget).Ok?
    ensures Writable(ReadName(m, off, budget).value.name, pos)
    decreases budget, |m| - off
  {
    if 0 < m[off] < SEGMENT_LIMIT {
      var segment, rest := Slice(m, off + 1, m[off]), ReadName(m, off + 1 + m[off], budget).value.name;
      ReadNameWritable(m, off + 1 + m[off], budget, pos + 1 + |segment|);
      SegmentHasNoDot(m, off + 1, m[off]);
      SegmentWritable(segment, rest, pos);
    } else if m[off] >= POINTER_TAG {
      ReadNameWritable(m, PointerAt(m, off), budget - 1, pos);
    }
  }

  lemma SegmentHasNoDot(m: bytes, from: nat, n: nat)
    requires from + n <= |m| && !HasDot(m, from, from + n)
    ensures forall k :: 0 <= k < n ==> Slice(m, from, n)[k] != DOT
  {
  }

  lemma SegmentWritable(segment: bytes, rest: bytes, pos: nat)
    requires 0 < |segment| < SEGMENT_LIMIT && (forall k :: 0 <= k < |segment| ==> segment[k] != DOT)
    requires Writable(rest, pos + 1 + |segment|)
    ensures Writable(segment + [DOT] + rest, pos)
  {
    var s := segment + [DOT] + rest;
    DotBehindSegment(segment, rest, 0);
    assert Tail(s) == rest;
  }

  /** Every name the reader reports can be written: uncompressed it takes one byte more than its text, one byte for
      the root, 255 at most (section 2.3.4 of RFC 1035), and it is read back unchanged. */
  lemma ReadNamesWriteBack(m: bytes, off: nat, m': bytes, pos: nat)
    requires DecodeName(m, off).Ok?
    ensures var n := DecodeName(m, off).value.name;
      && EncodePlainName(n, pos).Ok?
      && var w := EncodePlainName(n, pos).value;
         |w| == (if n == [DOT] then 1 else |n| + 1) && |w| <= 255
         && (At(m', pos, w) ==> DecodeName(m', pos) == Ok(NameEnd(n, pos + |w|)))
  {
    var n := DecodeName(m, off).value.name;
    ReadNameWritable(m, off, MAX_POINTERS, pos);
    var w := EncodePlainName(n, pos).value;
    if At(m', pos, w) {
      PlainNameReadsBack(m', pos, n, w);
    }
  }

  // ---------- Ten segments, and not eleven ----------

  const LETTER: byte := 97

  /** "a.", "a.a.", "a.a.a.", ... */
  function Nested(k: nat): (n: bytes)
    ensures |n| == 2 * k
    decreases k
  {
    if k == 0 then [] else [LETTER, DOT] + Nested(k - 1)
  }

  lemma {:induction false} NestedParts(k: nat)
    requires k > 0
    ensures var n := Nested(k);
      Canonical(n) && n[0] != DOT && FirstDot(n) == 1 && Tail(n) == Nested(k - 1) && Segment(n) == [1, LETTER] && n != [DOT]
    decreases k
  {
    var n := Nested(k);
    if k > 1 {
      NestedParts(k - 1);
    }
    assert n[1] == DOT && n[|n| - 1] == DOT;
    assert DotFrom(n, 1) == 1;
    assert n[2..] == Nested(k - 1) && n[..1] == [LETTER];
  }

  function AskFor(n: bytes): Question {
    Question(n, TYPE_A, 1)
  }

  /** One question for each of the first `k` nested names. */
  function Questions(k: nat): (qs: seq<Question>)
    ensures |qs| == k
    decreases k
  {
    if k == 0 then [] else Questions(k - 1) + [AskFor(Nested(k))]
  }

  /** The table behind the first `k` questions: it knows the longest name so far and none longer. */
  ghost predicate Knows(t: Table, k: nat) {
    && t.Some? && (forall n {:trigger n in t.value} :: n in t.value ==> |n| <= 2 * k)
    && (k > 0 ==> Nested(k) in t.value)
  }

  /** A nested name whose tail is known takes four bytes: one segment and a pointer. */
  lemma NestedEncodes(k: nat, pos: nat, t: Table)
    requires k > 0 && Knows(t, k - 1) && pos < POINTER_LIMIT && k <= 127
    ensures var e := EncodeName(Nested(k), pos, t);
      && e.out.Ok? && 3 <= |e.out.value| <= 4 && Knows(e.table, k) && e.table.value[Nested(k)] == pos
  {
    NestedParts(k);
    if k > 1 {
      NestedParts(k - 1);
    }
    var n := Nested(k);
    var t1 := Register(t, n, pos);
    assert n !in t.value && (k > 1 ==> Nested(k - 1) in t1.value);
    TailEncodes(Nested(k - 1), pos + 2, t1);
    assert EncodeName(n, pos, t) == EncodeSuffix(n, pos, t);
  }

  lemma TailEncodes(s: bytes, pos: nat, t: Table)
    requires Canonical(s) && (s != [] ==> s[0] != DOT && t.Some? && s in t.value)
    ensures var e := EncodeSuffix(s, pos, t); e.out.Ok? && e.table == t && 1 <= |e.out.value| <= 2
  {
    if s == [] {
      assert EncodeSuffix(s, pos, t) == Encoded(Ok([0]), t);
    } else {
      assert EncodeSuffix(s, pos, t) == Encoded(Ok(PointerBytes(t.value[s])), t);
    }
  }

  /** Reading the last name back costs one pointer more than the name before. */
  lemma NestedCosts(m: bytes, k: nat, t: Table, pos: nat, w: bytes, hops: nat)
    requires k > 1 && Knows(t, k - 1) && TableSound(m, t) && HopsAt(m, t.value[Nested(k - 1)], k - 2) == hops
    requires EncodeName(Nested(k), pos, t).out == Ok(w) && At(m, pos, w)
    ensures PointersUsed(m, Nested(k), t) == hops + 1
  {
    NestedParts(k);
    NestedLabels(k - 1);
    NestedParts(k - 1);
    assert Nested(k) !in t.value && Nested(k - 1) in t.value;
    assert PointersOf(m, Nested(k), t) == PointersOf(m, Nested(k - 1), t) == 1 + HopsAt(m, t.value[Nested(k - 1)], k - 2);
  }

  lemma {:induction false} NestedLabels(k: nat)
    ensures Canonical(Nested(k)) && Labels(Nested(k)) == k
    decreases k
  {
    if k > 0 {
      NestedParts(k);
      NestedLabels(k - 1);
    }
  }

  lemma {:induction false} ChainEncodes(k: nat)
    requires k <= 127
    ensures var e := EncodeItems(EncodeQuestion, Questions(k), HEADER_LEN, EMPTY_TABLE);
      e.out.Ok? && |e.out.value| <= 8 * k && Knows(e.table, k)
    decreases k
  {
    if k > 0 {
      ChainEncodes(k - 1);
      var e := EncodeItems(EncodeQuestion, Questions(k - 1), HEADER_LEN, EMPTY_TABLE);
      ItemsOneMore(EncodeQuestion, Questions(k - 1), AskFor(Nested(k)), HEADER_LEN, EMPTY_TABLE);
      NestedEncodes(k, HEADER_LEN + |e.out.value|, e.table);
    }
  }

  /** The parts of one question more. */
  lemma LastQuestionParts(m: bytes, qs: seq<Question>, q: Question, e: Encoded, w: bytes) returns (pos: nat, name: bytes)
    requires e == EncodeItems(EncodeQuestion, qs, HEADER_LEN, EMPTY_TABLE) && e.out.Ok?
    requires Written(m, HEADER_LEN, EncodeItems(EncodeQuestion, qs + [q], HEADER_LEN, EMPTY_TABLE), w)
    ensures pos == HEADER_LEN + |e.out.value| && Written(m, HEADER_LEN, e, e.out.value) && TableSound(m, e.table)
    ensures EncodeName(q.name, pos, e.table).out == Ok(name) && At(m, pos, name)
    ensures EncodeItems(EncodeQuestion, qs + [q], HEADER_LEN, EMPTY_TABLE).table == EncodeName(q.name, pos, e.table).table
  {
    ItemsOneMore(EncodeQuestion, qs, q, HEADER_LEN, EMPTY_TABLE);
    pos := HEADER_LEN + |e.out.value|;
    name := EncodeName(q.name, pos, e.table).out.value;
    AtParts(m, HEADER_LEN, e.out.value, name + (U16(q.typ) + U16(q.cls)));
    AtParts(m, pos, name, U16(q.typ) + U16(q.cls));
    QuestionsWritten(m, qs, EMPTY_TABLE, e, e.out.value);
  }

  /** Behind `k` questions, reading the longest name follows `k - 1` pointers. */
  lemma {:induction false} ChainCosts(m: bytes, k: nat, e: Encoded, w: bytes)
    requires 0 < k <= 127 && e == EncodeItems(EncodeQuestion, Questions(k), HEADER_LEN, EMPTY_TABLE) && Written(m, HEADER_LEN, e, w)
    ensures Knows(e.table, k) && HopsAt(m, e.table.value[Nested(k)], k - 1) == k - 1
    decreases k
  {
    ChainEncodes(k);
    ChainEncodes(k - 1);
    var before := EncodeItems(EncodeQuestion, Questions(k - 1), HEADER_LEN, EMPTY_TABLE);
    var pos, name := LastQuestionParts(m, Questions(k - 1), AskFor(Nested(k)), before, w);
    NestedEncodes(k, pos, before.table);
    NestedParts(k);
    if k > 1 {
      ChainCosts(m, k - 1, before, before.out.value);
      NestedCosts(m, k, before.table, pos, name, k - 2);
    } else {
      assert PointersOf(m, Nested(1), before.table) == 0;
    }
    SuffixReadsBack(m, pos, Nested(k), before.table, name, pos + |name|);
  }

  lemma {:induction false} LastReadable<T>(k: Kind<T>, m: bytes, xs: seq<T>, x: T, pos: nat, t: Table)
    requires AllReadable(k, m, xs + [x], pos, t) && EncodeItems(k.enc, xs, pos, t).out.Ok?
    ensures var e := EncodeItems(k.enc, xs, pos, t); k.readable(m, x, pos + |e.out.value|, e.table)
    decreases |xs|
  {
    if xs != [] {
      var e := k.enc(xs[0], pos, t);
      assert (xs + [x])[0] == xs[0] && (xs + [x])[1..] == xs[1..] + [x];
      LastReadable(k, m, xs[1..], x, pos + |e.out.value|, e.table);
    }
  }

  /** A message that asks for `k` nested names, and for the longest of them again. */
  function Crowded(h: Header, k: nat): Message {
    Message(h, Questions(k) + [AskFor(Nested(k))], [], [], [])
  }

  lemma CrowdedEncodes(h: Header, k: nat)
    requires 0 < k <= 127
    ensures EncodeMessage(Crowded(h, k)).Ok?
  {
    var qs, q := Questions(k), AskFor(Nested(k));
    ChainEncodes(k);
    var e := EncodeItems(EncodeQuestion, qs, HEADER_LEN, EMPTY_TABLE);
    ItemsOneMore(EncodeQuestion, qs, q, HEADER_LEN, EMPTY_TABLE);
    NestedParts(k);
    TailEncodes(Nested(k), HEADER_LEN + |e.out.value|, e.table);
    OnlyQuestionsEncode(Crowded(h, k), HeaderNumber(h), EncodeItems(EncodeQuestion, qs + [q], HEADER_LEN, EMPTY_TABLE));
  }

  lemma OnlyQuestionsEncode(m: Message, bits: uint16, e: Encoded)
    requires m.answers == [] && m.authorities == [] && m.additionals == [] && |m.questions| <= MAX_UINT16
    requires e == EncodeItems(EncodeQuestion, m.questions, HEADER_LEN, EMPTY_TABLE) && e.out.Ok?
    ensures EncodeWith(m, bits, EMPTY_TABLE).Ok?
  {
    ThenNothing(EncodeResource, e, HEADER_LEN);
  }

  lemma CrowdedWritten(p: bytes, h: Header, k: nat) returns (w: bytes)
    requires EncodeMessage(Crowded(h, k)) == Ok(p)
    ensures Written(p, HEADER_LEN, EncodeItems(EncodeQuestion, Questions(k) + [AskFor(Nested(k))], HEADER_LEN, EMPTY_TABLE), w)
  {
    var m := Crowded(h, k);
    var all := MessageParts(p, m, HeaderNumber(h), EMPTY_TABLE);
    var l := LayoutOf(m, EMPTY_TABLE);
    ThenParts(p, l.ns, m.additionals, all);
    ThenParts(p, l.an, m.authorities, l.ns.out.value);
    ThenParts(p, l.qs, m.answers, l.an.out.value);
    w := l.qs.out.value;
  }

  lemma AgainCosts(p: bytes, k: nat, w: bytes)
    requires 10 < k <= 127
    requires Written(p, HEADER_LEN, EncodeItems(EncodeQuestion, Questions(k) + [AskFor(Nested(k))], HEADER_LEN, EMPTY_TABLE), w)
    ensures !AllReadable(QuestionKind(), p, Questions(k) + [AskFor(Nested(k))], HEADER_LEN, EMPTY_TABLE)
  {
    ChainEncodes(k);
    var e := EncodeItems(EncodeQuestion, Questions(k), HEADER_LEN, EMPTY_TABLE);
    var pos, name := LastQuestionParts(p, Questions(k), AskFor(Nested(k)), e, w);
    ChainCosts(p, k, e, e.out.value);
    NestedParts(k);
    NestedLabels(k);
    assert PointersUsed(p, Nested(k), e.table) == k;
    if AllReadable(QuestionKind(), p, Questions(k) + [AskFor(Nested(k))], HEADER_LEN, EMPTY_TABLE) {
      LastReadable(QuestionKind(), p, Questions(k), AskFor(Nested(k)), HEADER_LEN, EMPTY_TABLE);
    }
  }

  lemma {:induction false} NestedQuestionsShort(k: nat)
    requires k <= 10
    ensures forall q :: q in Questions(k) ==> ShortName(q.name)
    decreases k
  {
    if k > 0 {
      NestedQuestionsShort(k - 1);
      NestedIsShort(k);
      ShortOneMore(Questions(k - 1), AskFor(Nested(k)));
    }
  }

  lemma NestedIsShort(k: nat)
    requires k <= 10
    ensures ShortName(Nested(k))
  {
    NestedLabels(k);
  }

  lemma ShortOneMore(qs: seq<Question>, q: Question)
    requires (forall x :: x in qs ==> ShortName(x.name)) && ShortName(q.name)
    ensures forall x :: x in qs + [q] ==> ShortName(x.name)
  {
  }

  /** Names of more than 127 one-letter segments are too long to be written. */
  lemma TooNestedFails(h: Header, k: nat)
    requires k > 127
    ensures EncodeMessage(Crowded(h, k)).Err?
  {
    ItemsOneMore(EncodeQuestion, Questions(k), AskFor(Nested(k)), HEADER_LEN, EMPTY_TABLE);
    assert EncodeItems(EncodeQuestion, Questions(k) + [AskFor(Nested(k))], HEADER_LEN, EMPTY_TABLE).out.Err?;
  }

  /** The bound of ten segments is tight. This message is packed exactly if its longest name fits a name. What was packed
      is unpacked exactly if that name has at most ten segments. */
  lemma CrowdedReadable(h: Header, k: nat)
    requires k > 0
    ensures var p := EncodeMessage(Crowded(h, k));
      && (p.Ok? <==> k <= 127)
      && (p.Ok? ==> if k <= 10 then DecodeMessage(p.value).Ok? else DecodeMessage(p.value) == Err(TooManyPtr))
  {
    var m := Crowded(h, k);
    if k > 127 {
      TooNestedFails(h, k);
    } else {
      CrowdedEncodes(h, k);
      var p := EncodeMessage(m).value;
      UnpackPacked(p, m, HeaderNumber(h), EMPTY_TABLE);
      if k <= 10 {
        NestedQuestionsShort(k);
        NestedLabels(k);
        var w := MessageParts(p, m, HeaderNumber(h), EMPTY_TABLE);
        SectionsWritten(p, m, EMPTY_TABLE, LayoutOf(m, EMPTY_TABLE), w);
        ShortNamesReadable(p, m, EMPTY_TABLE, HEADER_LEN + |w|);
      } else {
        var w := CrowdedWritten(p, h, k);
        AgainCosts(p, k, w);
      }
    }
  }
}
