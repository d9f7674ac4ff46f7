/** What a reader makes of any message after its TTLs were aged in place (resolver/cache.go,
    internal/dnsmessage/message.go). */
module AgeingDecoded {
  import opened Wire
  import opened BodyFootprints
  import opened Footprints
  import opened Names
  import opened Records
  import opened Sequences
  import opened Messages
  import opened Parsing
  import opened TtlAgeing
  import opened TtlProperties
  import opened AgeingMeaning

  // ---------- Records ----------

  /** A decoded record with its TTL aged and capped, unless it is OPT. */
  function AgedRecord(r: Resource, age: uint32, maxTtl: uint32): Resource {
    if r.header.typ == TYPE_OPT then r
    else r.(header := r.header.(ttl := Capped(Less(r.header.ttl, age), maxTtl)))
  }

  /** The message `m'` is `m` with the TTLs of the records at `spots` aged. */
  ghost predicate IsAged(m: bytes, m': bytes, spots: seq<nat>, age: uint32, maxTtl: uint32) {
    && Placed(m, spots, HEADER_LEN) && AlikeOutside(m, m', spots, 0)
    && forall j {:trigger spots[j]} :: 0 <= j < |spots| ==> AgesTo(m, m', spots[j], age, maxTtl)
  }

  /** The record at `off` ends inside the message, and none of its names is read from a byte of `hot`. */
  ghost predicate RecordTame(m: bytes, off: nat, hot: iset<nat>) {
    && DecodedNameAvoids(m, off, hot)
    && (DecodeHeader(m, off).Ok? ==>
         var h := DecodeHeader(m, off).value;
         h.end + h.header.length <= |m| && BodyNamesAvoid(m, h.end, h.header.typ, hot))
  }

  /** Nor is the rest of its body. */
  ghost predicate RecordCold(m: bytes, off: nat, hot: iset<nat>) {
    DecodeHeader(m, off).Ok? ==>
      var h := DecodeHeader(m, off).value;
      BodyDataAvoids(m, h.end, h.header.typ, h.header.length, hot)
  }

  /** The fixed fields in front of `h` are the same, but for the aged TTL. */
  ghost predicate FieldsAged(m: bytes, m': bytes, h: nat, age: uint32, maxTtl: uint32) {
    && 10 <= h <= |m| == |m'|
    && GetU16(m', h - 10) == GetU16(m, h - 10) && GetU16(m', h - 8) == GetU16(m, h - 8) && GetU16(m', h - 2) == GetU16(m, h - 2)
    && GetU32(m', h - 6) == if GetU16(m, h - 10) == TYPE_OPT then GetU32(m, h - 6) else Capped(Less(GetU32(m, h - 6), age), maxTtl)
  }

  lemma HeaderFieldsAged(m: bytes, m': bytes, h: nat, spots: seq<nat>, age: uint32, maxTtl: uint32)
    requires IsAged(m, m', spots, age, maxTtl) && h in spots
    ensures FieldsAged(m, m', h, age, maxTtl)
  {
    var j :| 0 <= j < |spots| && spots[j] == h;
    assert AgesTo(m, m', spots[j], age, maxTtl);
    forall i | h - 10 <= i < h && !(h - 6 <= i < h - 2) ensures m'[i] == m[i] {
      assert !InField(spots, i);
    }
  }

  /** What the record at `off` becomes: read as aged exactly if its body is read from no changed byte, and ending where it
      did in any case. */
  ghost predicate RecordLaw(m: bytes, m': bytes, off: nat, spots: seq<nat>, age: uint32, maxTtl: uint32) {
    RecordTame(m, off, Changed(m, m')) && DecodeResource(m, off).Ok? && DecodeHeader(m, off).value.end in spots ==>
      var r, r' := DecodeResource(m, off).value, DecodeResource(m', off);
      && (r' == Ok(ItemEnd(AgedRecord(r.item, age, maxTtl), r.end)) <==> RecordCold(m, off, Changed(m, m')))
      && (r'.Ok? ==> r'.value.end == r.end)
  }

  lemma RecordAged(m: bytes, m': bytes, off: nat, spots: seq<nat>, age: uint32, maxTtl: uint32)
    requires IsAged(m, m', spots, age, maxTtl)
    ensures RecordLaw(m, m', off, spots, age, maxTtl)
  {
    if RecordTame(m, off, Changed(m, m')) && DecodeResource(m, off).Ok? && DecodeHeader(m, off).value.end in spots {
      AlikeButChanged(m, m');
      DecodedNameSame(m, m', off, Changed(m, m'));
      var h := DecodeHeader(m, off).value;
      HeaderFieldsAged(m, m', h.end, spots, age, maxTtl);
      BodyCold(m, m', h.end, h.header.typ, h.header.length);
      RecordPut(m, m', off, h, age, maxTtl, RecordCold(m, off, Changed(m, m')));
    }
  }

  /** A record put together from its parts. */
  lemma RecordPut(m: bytes, m': bytes, off: nat, h: HeaderEnd, age: uint32, maxTtl: uint32, cold: bool)
    requires DecodeHeader(m, off) == Ok(h) && DecodeResource(m, off).Ok? && DecodeName(m', off) == DecodeName(m, off)
    requires FieldsAged(m, m', h.end, age, maxTtl)
    requires DecodeBody(m', h.end, h.header.typ, h.header.length) == DecodeBody(m, h.end, h.header.typ, h.header.length) <==> cold
    ensures var r, r' := DecodeResource(m, off).value, DecodeResource(m', off);
      && (r' == Ok(ItemEnd(AgedRecord(r.item, age, maxTtl), r.end)) <==> cold)
      && (r'.Ok? ==> r'.value.end == r.end)
  {
  }

  ghost predicate RecordsLaw(m: bytes, m': bytes, spots: seq<nat>, age: uint32, maxTtl: uint32) {
    forall off {:trigger RecordLaw(m, m', off, spots, age, maxTtl)} :: RecordLaw(m, m', off, spots, age, maxTtl)
  }

  ghost predicate RecordsTame(m: bytes, off: nat, n: nat, hot: iset<nat>)
    decreases n
  {
    n > 0 ==>
      RecordTame(m, off, hot) && (DecodeResource(m, off).Ok? ==> RecordsTame(m, DecodeResource(m, off).value.end, n - 1, hot))
  }

  ghost predicate RecordsCold(m: bytes, off: nat, n: nat, hot: iset<nat>)
    decreases n
  {
    n > 0 ==>
      RecordCold(m, off, hot) && (DecodeResource(m, off).Ok? ==> RecordsCold(m, DecodeResource(m, off).value.end, n - 1, hot))
  }

  ghost predicate Among(part: seq<nat>, spots: seq<nat>) {
    forall h :: h in part ==> h in spots
  }

  /** Where a record is decoded, the walk meets it too, and goes on behind it. */
  lemma DecodedIsWalked(m: bytes, off: nat, count: nat, hot: iset<nat>, end: nat)
    requires DecodeResource(m, off).Ok? && RecordTame(m, off, hot) && count > 0 && end == DecodeResource(m, off).value.end
    ensures end <= |m| && Walk(m, end, count - 1).stop == Walk(m, off, count).stop
    ensures Walk(m, off, count).spots == [DecodeHeader(m, off).value.end] + Walk(m, end, count - 1).spots
  {
    ReaderAndSkipperAgree(m, off, MAX_POINTERS);
    WalkStep(m, off, count, DecodeHeader(m, off).value.end);
    var spots := Walk(m, off, count).spots;
    assert spots == [spots[0]] + spots[1..];
  }

  lemma AmongTail(h: nat, rest: seq<nat>, spots: seq<nat>)
    requires Among([h] + rest, spots)
    ensures h in spots && Among(rest, spots)
  {
    var all := [h] + rest;
    assert all[0] in all;
    forall x | x in rest ensures x in spots {
      assert x in all;
    }
  }

  /** Item by item, reading `m'` gives `f` of what reading `m` gives, at the same places. */
  ghost predicate Follows<T(!new)>(dec: Decoder<T>, f: T -> T, m: bytes, m': bytes, off: nat, n: nat)
    decreases n
  {
    n > 0 && dec(m, off).Ok? ==>
      var x := dec(m, off).value;
      dec(m', off) == Ok(ItemEnd(f(x.item), x.end)) && Follows(dec, f, m, m', x.end, n - 1)
  }

  function Mapped<T>(f: T -> T, xs: seq<T>): (r: seq<T>)
    ensures |r| == |xs|
  {
    seq(|xs|, i requires 0 <= i < |xs| => f(xs[i]))
  }

  lemma {:induction false} ItemsFollow<T(!new)>(dec: Decoder<T>, f: T -> T, m: bytes, m': bytes, off: nat, n: nat)
    requires Follows(dec, f, m, m', off, n) && ReadItems(dec, m, off, n).Ok?
    ensures var r := ReadItems(dec, m, off, n).value; ReadItems(dec, m', off, n) == Ok(Items(Mapped(f, r.items), r.end))
    decreases n
  {
    if n > 0 {
      var x := dec(m, off).value;
      ItemsFollow(dec, f, m, m', x.end, n - 1);
      var rest := ReadItems(dec, m, x.end, n - 1).value.items;
      assert Mapped(f, [x.item] + rest) == [f(x.item)] + Mapped(f, rest);
    }
  }

  lemma FollowsOneMore<T(!new)>(dec: Decoder<T>, f: T -> T, m: bytes, m': bytes, off: nat, n: nat, item: T, end: nat, first: bool)
    requires n > 0 && dec(m, off) == Ok(ItemEnd(item, end)) && (dec(m', off) == Ok(ItemEnd(f(item), end)) <==> first)
    ensures Follows(dec, f, m, m', off, n) <==> first && Follows(dec, f, m, m', end, n - 1)
  {
  }

  /** Items that are still read end where they ended. */
  ghost predicate EndsKept<T(!new)>(dec: Decoder<T>, m: bytes, m': bytes, off: nat, n: nat)
    decreases n
  {
    n > 0 && dec(m, off).Ok? ==>
      var end := dec(m, off).value.end;
      (dec(m', off).Ok? ==> dec(m', off).value.end == end) && EndsKept(dec, m, m', end, n - 1)
  }

  lemma {:induction false} FollowsBack<T(!new)>(dec: Decoder<T>, f: T -> T, m: bytes, m': bytes, off: nat, n: nat, xs: seq<T>, e: nat, e': nat)
    requires EndsKept(dec, m, m', off, n)
    requires ReadItems(dec, m, off, n) == Ok(Items(xs, e)) && ReadItems(dec, m', off, n) == Ok(Items(Mapped(f, xs), e'))
    ensures Follows(dec, f, m, m', off, n)
    decreases n
  {
    if n > 0 {
      var x, x' := dec(m, off).value, dec(m', off).value;
      var rest, rest' := ReadItems(dec, m, x.end, n - 1).value.items, ReadItems(dec, m', x.end, n - 1).value.items;
      assert xs == [x.item] + rest && Mapped(f, xs) == [x'.item] + rest';
      assert xs[1..] == rest && Mapped(f, xs)[1..] == rest' && Mapped(f, rest) == Mapped(f, xs)[1..];
      assert x'.item == Mapped(f, xs)[0] == f(xs[0]);
      FollowsBack(dec, f, m, m', x.end, n - 1, rest, e, e');
    }
  }

  lemma {:induction false} FollowsSplit<T(!new)>(dec: Decoder<T>, f: T -> T, m: bytes, m': bytes, off: nat, n: nat, k: nat, items: seq<T>, end: nat)
    requires Follows(dec, f, m, m', off, n + k) && ReadItems(dec, m, off, n) == Ok(Items(items, end))
    ensures Follows(dec, f, m, m', off, n) && Follows(dec, f, m, m', end, k)
    decreases n
  {
    if n > 0 {
      var x := dec(m, off).value;
      FollowsSplit(dec, f, m, m', x.end, n - 1, k, items[1..], end);
    }
  }

  lemma {:induction false} ItemsJoined<T>(dec: Decoder<T>, m: bytes, off: nat, a: nat, b: nat, n: nat, xs: seq<T>, mid: nat, ys: seq<T>, end: nat)
    requires ReadItems(dec, m, off, a) == Ok(Items(xs, mid)) && ReadItems(dec, m, mid, b) == Ok(Items(ys, end)) && n == a + b
    ensures ReadItems(dec, m, off, n) == Ok(Items(xs + ys, end))
    decreases a
  {
    if a == 0 {
      assert xs + ys == ys;
    } else {
      var x := dec(m, off).value;
      ItemsJoined(dec, m, x.end, a - 1, b, n - 1, xs[1..], mid, ys, end);
      assert [x.item] + (xs[1..] + ys) == xs + ys;
    }
  }

  /** Three sections read one after the other, as one list. */
  lemma ThreeJoined<T>(dec: Decoder<T>, m: bytes, off: nat, a: nat, xs: seq<T>, e1: nat, b: nat, ys: seq<T>, e2: nat, c: nat, zs: seq<T>, e3: nat, n: nat)
    requires ReadItems(dec, m, off, a) == Ok(Items(xs, e1)) && ReadItems(dec, m, e1, b) == Ok(Items(ys, e2))
    requires ReadItems(dec, m, e2, c) == Ok(Items(zs, e3)) && n == a + (b + c)
    ensures ReadItems(dec, m, off, n) == Ok(Items(xs + (ys + zs), e3))
  {
    var k := b + c;
    ItemsJoined(dec, m, e1, b, c, k, ys, e2, zs, e3);
    ItemsJoined(dec, m, off, a, k, n, xs, e1, ys + zs, e3);
  }

  /** Three sections of a message that follows, section by section. */
  lemma ThreeFollow<T(!new)>(dec: Decoder<T>, f: T -> T, m: bytes, m': bytes, off: nat, a: nat, xs: seq<T>, e1: nat,
                             b: nat, ys: seq<T>, e2: nat, c: nat, zs: seq<T>, e3: nat)
    requires ReadItems(dec, m, off, a) == Ok(Items(xs, e1)) && ReadItems(dec, m, e1, b) == Ok(Items(ys, e2))
    requires ReadItems(dec, m, e2, c) == Ok(Items(zs, e3)) && Follows(dec, f, m, m', off, a + (b + c))
    ensures ReadItems(dec, m', off, a) == Ok(Items(Mapped(f, xs), e1)) && ReadItems(dec, m', e1, b) == Ok(Items(Mapped(f, ys), e2))
    ensures ReadItems(dec, m', e2, c) == Ok(Items(Mapped(f, zs), e3))
  {
    FollowsSplit(dec, f, m, m', off, a, b + c, xs, e1);
    FollowsSplit(dec, f, m, m', e1, b, c, ys, e2);
    ItemsFollow(dec, f, m, m', off, a);
    ItemsFollow(dec, f, m, m', e1, b);
    ItemsFollow(dec, f, m, m', e2, c);
  }

  ghost function AgeBy(age: uint32, maxTtl: uint32): Resource -> Resource {
    (r: Resource) => AgedRecord(r, age, maxTtl)
  }

  lemma TameParts(m: bytes, off: nat, n: nat, hot: iset<nat>, item: Resource, end: nat)
    requires n > 0 && RecordsTame(m, off, n, hot) && DecodeResource(m, off) == Ok(ItemEnd(item, end))
    ensures RecordTame(m, off, hot) && RecordsTame(m, end, n - 1, hot)
    ensures RecordsCold(m, off, n, hot) <==> RecordCold(m, off, hot) && RecordsCold(m, end, n - 1, hot)
  {
  }

  lemma LawGives(m: bytes, m': bytes, off: nat, spots: seq<nat>, age: uint32, maxTtl: uint32, item: Resource, end: nat)
    requires RecordLaw(m, m', off, spots, age, maxTtl) && RecordTame(m, off, Changed(m, m'))
    requires DecodeResource(m, off) == Ok(ItemEnd(item, end)) && DecodeHeader(m, off).value.end in spots
    ensures DecodeResource(m', off) == Ok(ItemEnd(AgedRecord(item, age, maxTtl), end)) <==> RecordCold(m, off, Changed(m, m'))
    ensures DecodeResource(m', off).Ok? ==> DecodeResource(m', off).value.end == end
  {
  }

  /** The first record of a section: how it is read before and after, and what holds of the rest. */
  lemma FirstFollows(m: bytes, m': bytes, off: nat, n: nat, spots: seq<nat>, age: uint32, maxTtl: uint32)
    returns (item: Resource, end: nat)
    requires RecordsLaw(m, m', spots, age, maxTtl) && RecordsTame(m, off, n, Changed(m, m'))
    requires Among(Walk(m, off, n).spots, spots) && n > 0 && ReadItems(DecodeResource, m, off, n).Ok?
    ensures DecodeResource(m, off) == Ok(ItemEnd(item, end))
    ensures DecodeResource(m', off) == Ok(ItemEnd(AgedRecord(item, age, maxTtl), end)) <==> RecordCold(m, off, Changed(m, m'))
    ensures DecodeResource(m', off).Ok? ==> DecodeResource(m', off).value.end == end
    ensures RecordsTame(m, end, n - 1, Changed(m, m')) && Among(Walk(m, end, n - 1).spots, spots)
    ensures ReadItems(DecodeResource, m, end, n - 1).Ok?
  {
    FirstItemRead(DecodeResource, m, off, n);
    item, end := DecodeResource(m, off).value.item, DecodeResource(m, off).value.end;
    TameParts(m, off, n, Changed(m, m'), item, end);
    DecodedIsWalked(m, off, n, Changed(m, m'), end);
    AmongTail(DecodeHeader(m, off).value.end, Walk(m, end, n - 1).spots, spots);
    LawGives(m, m', off, spots, age, maxTtl, item, end);
  }

  /** A list of records, before and after: reading follows exactly if no body is read from a changed byte. */
  lemma {:induction false} RecordsFollow(m: bytes, m': bytes, off: nat, n: nat, spots: seq<nat>, age: uint32, maxTtl: uint32)
    requires RecordsLaw(m, m', spots, age, maxTtl) && RecordsTame(m, off, n, Changed(m, m'))
    requires Among(Walk(m, off, n).spots, spots) && ReadItems(DecodeResource, m, off, n).Ok?
    ensures Follows(DecodeResource, AgeBy(age, maxTtl), m, m', off, n) <==> RecordsCold(m, off, n, Changed(m, m'))
    ensures EndsKept(DecodeResource, m, m', off, n)
    decreases n
  {
    if n > 0 {
      var item, end := FirstFollows(m, m', off, n, spots, age, maxTtl);
      RecordsFollow(m, m', end, n - 1, spots, age, maxTtl);
      TameParts(m, off, n, Changed(m, m'), item, end);
      FollowsOneMore(DecodeResource, AgeBy(age, maxTtl), m, m', off, n, item, end, RecordCold(m, off, Changed(m, m')));
      EndsOneMore(DecodeResource, m, m', off, n, item, end);
    }
  }

  lemma EndsOneMore<T(!new)>(dec: Decoder<T>, m: bytes, m': bytes, off: nat, n: nat, item: T, end: nat)
    requires n > 0 && dec(m, off) == Ok(ItemEnd(item, end)) && (dec(m', off).Ok? ==> dec(m', off).value.end == end)
    requires EndsKept(dec, m, m', end, n - 1)
    ensures EndsKept(dec, m, m', off, n)
  {
  }

  // ---------- Whole messages ----------

  ghost predicate QuestionsTame(m: bytes, off: nat, n: nat, hot: iset<nat>)
    decreases n
  {
    n > 0 ==>
      DecodedNameAvoids(m, off, hot) && (DecodeQuestion(m, off).Ok? ==> QuestionsTame(m, DecodeQuestion(m, off).value.end, n - 1, hot))
  }

  /** The update finds the end of the questions where the reader does. */
  lemma {:induction false} QuestionsWalked(m: bytes, off: nat, n: nat)
    requires ReadItems(DecodeQuestion, m, off, n).Ok?
    ensures QuestionsEnd(m, off, n) == Some(ReadItems(DecodeQuestion, m, off, n).value.end)
    decreases n
  {
    if n > 0 {
      FirstItemRead(DecodeQuestion, m, off, n);
      ReaderAndSkipperAgree(m, off, MAX_POINTERS);
      QuestionsWalked(m, DecodeQuestion(m, off).value.end, n - 1);
    }
  }

  /** A question in front of the records is read alike. */
  lemma QuestionSame(m: bytes, m': bytes, off: nat, start: nat)
    requires |m'| == |m| && DecodedNameAvoids(m, off, Changed(m, m')) && DecodeQuestion(m, off).Ok?
    requires DecodeQuestion(m, off).value.end <= start && forall i {:trigger m'[i]} :: 0 <= i < start && i < |m| ==> m'[i] == m[i]
    ensures DecodeQuestion(m', off) == DecodeQuestion(m, off)
  {
    AlikeButChanged(m, m');
    DecodedNameSame(m, m', off, Changed(m, m'));
    var at := DecodeName(m, off).value.end;
    assert m'[at] == m[at] && m'[at + 1] == m[at + 1] && m'[at + 2] == m[at + 2] && m'[at + 3] == m[at + 3];
  }

  ghost function Unchanged(): Question -> Question {
    (q: Question) => q
  }

  lemma {:induction false} QuestionsFollow(m: bytes, m': bytes, off: nat, n: nat, start: nat)
    requires |m'| == |m| && QuestionsTame(m, off, n, Changed(m, m')) && QuestionsEnd(m, off, n) == Some(start)
    requires forall i {:trigger m'[i]} :: 0 <= i < start && i < |m| ==> m'[i] == m[i]
    requires ReadItems(DecodeQuestion, m, off, n).Ok?
    ensures Follows(DecodeQuestion, Unchanged(), m, m', off, n)
    decreases n
  {
    if n > 0 {
      FirstItemRead(DecodeQuestion, m, off, n);
      ReaderAndSkipperAgree(m, off, MAX_POINTERS);
      var q := DecodeQuestion(m, off).value;
      QuestionSame(m, m', off, start);
      QuestionsFollow(m, m', q.end, n - 1, start);
      FollowsOneMore(DecodeQuestion, Unchanged(), m, m', off, n, q.item, q.end, true);
    }
  }

  /** The walk's next record, if the one at `off` is whole. */
  function NextRecord(m: bytes, off: nat): Option<nat> {
    match SkipResource(m, off)
    case Err(_) => None
    case Ok(end) => Some(end)
  }

  ghost predicate Reaches(m: bytes, off: nat, n: nat, end: nat)
    decreases n
  {
    if n == 0 then end == off
    else NextRecord(m, off).Some? && Reaches(m, NextRecord(m, off).value, n - 1, end)
  }

  lemma {:induction false} WalkReaches(m: bytes, off: nat, n: nat, end: nat)
    requires Reaches(m, off, n, end)
    ensures Walk(m, off, n).stop == Done
    decreases n
  {
    if n > 0 {
      WalkReaches(m, NextRecord(m, off).value, n - 1, end);
    }
  }

  /** Records that end inside the message are walked over one by one. */
  lemma {:induction false} TameReaches(m: bytes, off: nat, n: nat, hot: iset<nat>, end: nat)
    requires RecordsTame(m, off, n, hot)
    requires ReadItems(DecodeResource, m, off, n).Ok? && ReadItems(DecodeResource, m, off, n).value.end == end
    ensures Reaches(m, off, n, end)
    decreases n
  {
    if n > 0 {
      FirstItemRead(DecodeResource, m, off, n);
      var item, next := DecodeResource(m, off).value.item, DecodeResource(m, off).value.end;
      TameParts(m, off, n, hot, item, next);
      RecordOrSkipAt(m, off);
      TameReaches(m, next, n - 1, hot, end);
    }
  }

  /** Where the sections of a decoded message end. */
  datatype Ends = Ends(questions: nat, answers: nat, authorities: nat, additionals: nat)

  ghost predicate DecodedAt(m: bytes, s: Sections, e: Ends) {
    && DecodeWireHeader(m) == Ok(s.header)
    && ReadItems(DecodeQuestion, m, HEADER_LEN, s.header.questions) == Ok(Items(s.questions, e.questions))
    && ReadItems(DecodeResource, m, e.questions, s.header.answers) == Ok(Items(s.answers, e.answers))
    && ReadItems(DecodeResource, m, e.answers, s.header.authorities) == Ok(Items(s.authorities, e.authorities))
    && ReadItems(DecodeResource, m, e.authorities, s.header.additionals) == Ok(Items(s.additionals, e.additionals))
  }

  lemma DecodedSomewhere(m: bytes, s: Sections) returns (e: Ends)
    requires DecodeSections(m) == Ok(s)
    ensures DecodedAt(m, s, e)
  {
    var qs := ReadItems(DecodeQuestion, m, HEADER_LEN, s.header.questions).value;
    var an := ReadItems(DecodeResource, m, qs.end, s.header.answers).value;
    var ns := ReadItems(DecodeResource, m, an.end, s.header.authorities).value;
    var ar := ReadItems(DecodeResource, m, ns.end, s.header.additionals).value;
    e := Ends(qs.end, an.end, ns.end, ar.end);
  }

  /** How many records the header announces. */
  function RecordCount(h: WireHeader): nat {
    h.answers + (h.authorities + h.additionals)
  }

  /** Where the records start. */
  ghost function RecordsStart(m: bytes, h: WireHeader): nat {
    match ReadItems(DecodeQuestion, m, HEADER_LEN, h.questions)
    case Ok(qs) => qs.end
    case Err(_) => 0
  }

  /** No name of the message is read from a byte of `hot`, and every record ends inside it. */
  ghost predicate MessageTame(m: bytes, hot: iset<nat>) {
    DecodeWireHeader(m).Ok? ==>
      var h := DecodeWireHeader(m).value;
      QuestionsTame(m, HEADER_LEN, h.questions, hot) && RecordsTame(m, RecordsStart(m, h), RecordCount(h), hot)
  }

  /** No body of the message is, names aside. */
  ghost predicate BodiesAvoid(m: bytes, hot: iset<nat>) {
    DecodeWireHeader(m).Ok? ==>
      var h := DecodeWireHeader(m).value;
      RecordsCold(m, RecordsStart(m, h), RecordCount(h), hot)
  }

  ghost function AgedSections(s: Sections, age: uint32, maxTtl: uint32): Sections {
    s.(answers := Mapped(AgeBy(age, maxTtl), s.answers), authorities := Mapped(AgeBy(age, maxTtl), s.authorities),
       additionals := Mapped(AgeBy(age, maxTtl), s.additionals))
  }

  ghost function WalkedSpots(m: bytes): seq<nat> {
    if |m| >= HEADER_LEN && RecordsOf(m).Some? then RecordsOf(m).value.spots else []
  }

  /** All records of a tame message are walked over. */
  lemma AllWalked(m: bytes, off: nat, count: nat, hot: iset<nat>)
    requires HEADER_LEN <= |m| <= MAX_UINT16 && QuestionsEnd(m, HEADER_LEN, GetU16(m, 4)) == Some(off)
    requires count == GetU16(m, 6) as int + GetU16(m, 8) + GetU16(m, 10)
    requires RecordsTame(m, off, count, hot) && ReadItems(DecodeResource, m, off, count).Ok?
    ensures RecordsOf(m) == Some(Walk(m, off, count)) && Walk(m, off, count).stop == Done
  {
    TameReaches(m, off, count, hot, ReadItems(DecodeResource, m, off, count).value.end);
    WalkReaches(m, off, count, ReadItems(DecodeResource, m, off, count).value.end);
    NoWrap(m, off, count);
  }

  lemma FrontSame(m: bytes, m': bytes, spots: seq<nat>, start: nat)
    requires AlikeOutside(m, m', spots, 0) && Placed(m, spots, start)
    ensures forall i {:trigger m'[i]} :: 0 <= i < start && i < |m| ==> m'[i] == m[i]
  {
    forall i | 0 <= i < start && i < |m| ensures m'[i] == m[i] {
      ClearBefore(m, spots, start, i);
    }
  }

  lemma WireHeaderSame(m: bytes, m': bytes)
    requires HEADER_LEN <= |m| == |m'| && forall i {:trigger m'[i]} :: 0 <= i < HEADER_LEN ==> m'[i] == m[i]
    ensures DecodeWireHeader(m') == DecodeWireHeader(m)
  {
  }

  lemma QuestionSectionSame(m: bytes, m': bytes, n: nat, items: seq<Question>, start: nat)
    requires |m'| == |m| && QuestionsTame(m, HEADER_LEN, n, Changed(m, m'))
    requires ReadItems(DecodeQuestion, m, HEADER_LEN, n) == Ok(Items(items, start))
    requires forall i {:trigger m'[i]} :: 0 <= i < start && i < |m| ==> m'[i] == m[i]
    ensures ReadItems(DecodeQuestion, m', HEADER_LEN, n) == Ok(Items(items, start))
  {
    QuestionsWalked(m, HEADER_LEN, n);
    QuestionsFollow(m, m', HEADER_LEN, n, start);
    ItemsFollow(DecodeQuestion, Unchanged(), m, m', HEADER_LEN, n);
    assert Mapped(Unchanged(), items) == items;
  }

  lemma UpdatedIsAged(m: bytes, age: uint32, maxTtl: uint32)
    requires |m| >= HEADER_LEN && RecordsOf(m).Some?
    ensures IsAged(m, Updated(m, age, maxTtl), RecordsOf(m).value.spots, age, maxTtl)
  {
    UpdateWritesTtlsOnly(m, age, maxTtl);
  }

  lemma AllRecordsAged(m: bytes, age: uint32, maxTtl: uint32)
    requires |m| >= HEADER_LEN && RecordsOf(m).Some?
    ensures RecordsLaw(m, Updated(m, age, maxTtl), WalkedSpots(m), age, maxTtl)
  {
    UpdatedIsAged(m, age, maxTtl);
    forall off ensures RecordLaw(m, Updated(m, age, maxTtl), off, WalkedSpots(m), age, maxTtl) {
      RecordAged(m, Updated(m, age, maxTtl), off, WalkedSpots(m), age, maxTtl);
    }
  }

  /** All records of the message are one list, which ageing follows exactly if no body is read from a changed byte. */
  lemma AllRecordsFollow(m: bytes, m': bytes, h: WireHeader, start: nat, age: uint32, maxTtl: uint32, count: nat)
    requires |m| <= MAX_UINT16 && DecodeWireHeader(m) == Ok(h) && count == RecordCount(h) && m' == Updated(m, age, maxTtl)
    requires QuestionsEnd(m, HEADER_LEN, h.questions) == Some(start)
    requires RecordsTame(m, start, count, Changed(m, m')) && ReadItems(DecodeResource, m, start, count).Ok?
    ensures Follows(DecodeResource, AgeBy(age, maxTtl), m, m', start, count) <==> RecordsCold(m, start, count, Changed(m, m'))
    ensures EndsKept(DecodeResource, m, m', start, count)
  {
    AllWalked(m, start, count, Changed(m, m'));
    AllRecordsAged(m, age, maxTtl);
    RecordsFollow(m, m', start, count, WalkedSpots(m), age, maxTtl);
  }

  /** Header and questions are read as before. */
  lemma FrontFollows(m: bytes, m': bytes, h: WireHeader, questions: seq<Question>, start: nat, age: uint32, maxTtl: uint32)
    requires DecodeWireHeader(m) == Ok(h) && m' == Updated(m, age, maxTtl) && QuestionsTame(m, HEADER_LEN, h.questions, Changed(m, m'))
    requires ReadItems(DecodeQuestion, m, HEADER_LEN, h.questions) == Ok(Items(questions, start))
    ensures DecodeWireHeader(m') == Ok(h)
    ensures ReadItems(DecodeQuestion, m', HEADER_LEN, h.questions) == Ok(Items(questions, start))
  {
    QuestionsWalked(m, HEADER_LEN, h.questions);
    UpdatedAlike(m, age, maxTtl);
    WalkPlaced(m, start, (GetU16(m, 6) + GetU16(m, 8) + GetU16(m, 10)) % 0x1_0000);
    FrontSame(m, m', WalkedSpots(m), start);
    WireHeaderSame(m, m');
    QuestionSectionSame(m, m', h.questions, questions, start);
  }

  lemma MappedJoined<T>(f: T -> T, xs: seq<T>, ys: seq<T>, zs: seq<T>)
    ensures Mapped(f, xs) + (Mapped(f, ys) + Mapped(f, zs)) == Mapped(f, xs + (ys + zs))
  {
  }

  /** Three sections that are read as `f` of what they were are one list that follows. */
  lemma ThreeFollowBack<T(!new)>(dec: Decoder<T>, f: T -> T, m: bytes, m': bytes, off: nat, a: nat, xs: seq<T>, e1: nat, e1': nat,
                                 b: nat, ys: seq<T>, e2: nat, e2': nat, c: nat, zs: seq<T>, e3: nat, e3': nat, n: nat)
    requires ReadItems(dec, m, off, a) == Ok(Items(xs, e1)) && ReadItems(dec, m, e1, b) == Ok(Items(ys, e2))
    requires ReadItems(dec, m, e2, c) == Ok(Items(zs, e3)) && n == a + (b + c) && EndsKept(dec, m, m', off, n)
    requires ReadItems(dec, m', off, a) == Ok(Items(Mapped(f, xs), e1')) && ReadItems(dec, m', e1', b) == Ok(Items(Mapped(f, ys), e2'))
    requires ReadItems(dec, m', e2', c) == Ok(Items(Mapped(f, zs), e3'))
    ensures Follows(dec, f, m, m', off, n)
  {
    ThreeJoined(dec, m, off, a, xs, e1, b, ys, e2, c, zs, e3, n);
    ThreeJoined(dec, m', off, a, Mapped(f, xs), e1', b, Mapped(f, ys), e2', c, Mapped(f, zs), e3', n);
    MappedJoined(f, xs, ys, zs);
    FollowsBack(dec, f, m, m', off, n, xs + (ys + zs), e3, e3');
  }

  /** The sections of an accepted message, at known places, are read after the update as aged if the records follow. */
  lemma FollowingIsDecoded(m: bytes, m': bytes, s: Sections, e: Ends, age: uint32, maxTtl: uint32)
    requires DecodedAt(m, s, e) && DecodeWireHeader(m') == Ok(s.header)
    requires ReadItems(DecodeQuestion, m', HEADER_LEN, s.header.questions) == Ok(Items(s.questions, e.questions))
    requires Follows(DecodeResource, AgeBy(age, maxTtl), m, m', e.questions, RecordCount(s.header))
    ensures DecodeSections(m') == Ok(AgedSections(s, age, maxTtl))
  {
    ThreeFollow(DecodeResource, AgeBy(age, maxTtl), m, m', e.questions, s.header.answers, s.answers, e.answers,
                s.header.authorities, s.authorities, e.authorities, s.header.additionals, s.additionals, e.additionals);
  }

  /** And only then. */
  lemma DecodedIsFollowing(m: bytes, m': bytes, s: Sections, e: Ends, age: uint32, maxTtl: uint32)
    requires DecodedAt(m, s, e) && EndsKept(DecodeResource, m, m', e.questions, RecordCount(s.header))
    requires ReadItems(DecodeQuestion, m', HEADER_LEN, s.header.questions) == Ok(Items(s.questions, e.questions))
    requires DecodeSections(m') == Ok(AgedSections(s, age, maxTtl))
    ensures Follows(DecodeResource, AgeBy(age, maxTtl), m, m', e.questions, RecordCount(s.header))
  {
    var e' := DecodedSomewhere(m', AgedSections(s, age, maxTtl));
    ThreeFollowBack(DecodeResource, AgeBy(age, maxTtl), m, m', e.questions, s.header.answers, s.answers, e.answers, e'.answers,
                    s.header.authorities, s.authorities, e.authorities, e'.authorities,
                    s.header.additionals, s.additionals, e.additionals, e'.additionals, RecordCount(s.header));
  }

  lemma RecordsReadAsOne(m: bytes, s: Sections, e: Ends)
    requires DecodedAt(m, s, e)
    ensures ReadItems(DecodeResource, m, e.questions, RecordCount(s.header)).Ok?
  {
    ThreeJoined(DecodeResource, m, e.questions, s.header.answers, s.answers, e.answers, s.header.authorities, s.authorities,
                e.authorities, s.header.additionals, s.additionals, e.additionals, RecordCount(s.header));
  }

  lemma AgeingPreservesSections(m: bytes, m': bytes, s: Sections, age: uint32, maxTtl: uint32)
    requires |m| <= MAX_UINT16 && DecodeSections(m) == Ok(s) && m' == Updated(m, age, maxTtl) && MessageTame(m, Changed(m, m'))
    ensures DecodeWireHeader(m') == Ok(s.header)
    ensures DecodeSections(m') == Ok(AgedSections(s, age, maxTtl)) <==> BodiesAvoid(m, Changed(m, m'))
  {
    var e := DecodedSomewhere(m, s);
    RecordsReadAsOne(m, s, e);
    FrontFollows(m, m', s.header, s.questions, e.questions, age, maxTtl);
    QuestionsWalked(m, HEADER_LEN, s.header.questions);
    AllRecordsFollow(m, m', s.header, e.questions, age, maxTtl, RecordCount(s.header));
    if BodiesAvoid(m, Changed(m, m')) {
      FollowingIsDecoded(m, m', s, e, age, maxTtl);
    } else if DecodeSections(m') == Ok(AgedSections(s, age, maxTtl)) {
      DecodedIsFollowing(m, m', s, e, age, maxTtl);
    }
  }

  /** A message as it is read when its TTLs have aged. */
  ghost function AgedAsRead(msg: Message, age: uint32, maxTtl: uint32): Message {
    msg.(answers := Mapped(AgeBy(age, maxTtl), msg.answers), authorities := Mapped(AgeBy(age, maxTtl), msg.authorities),
         additionals := Mapped(AgeBy(age, maxTtl), msg.additionals))
  }

  /** Ageing preserves meaning, and exactly when. A message of at most 65535 bytes that the reader accepts, whose records end
      inside it and whose names are read from no byte that the update changes, is read after the update as before, but for
      the TTLs, which are aged and capped everywhere except on OPT records, if and only if no body is read from a changed
      byte either. */
  lemma AgeingPreservesMeaning(m: bytes, msg: Message, age: uint32, maxTtl: uint32)
    requires |m| <= MAX_UINT16 && DecodeMessage(m) == Ok(msg) && MessageTame(m, Changed(m, Updated(m, age, maxTtl)))
    ensures DecodeMessage(Updated(m, age, maxTtl)) == Ok(AgedAsRead(msg, age, maxTtl))
       <==> BodiesAvoid(m, Changed(m, Updated(m, age, maxTtl)))
  {
    AgeingPreservesSections(m, Updated(m, age, maxTtl), DecodeSections(m).value, age, maxTtl);
  }

  // ---------- A body that is read from a TTL field ----------

  /** Two records of the root: an AAAA record of only four bytes, and an A record behind it that has some TTL left. */
  predicate ShortAddress(m: bytes) {
    && |m| == 42 && GetU16(m, 4) == 0 && GetU16(m, 6) == 2 && GetU16(m, 8) == 0 && GetU16(m, 10) == 0
    && m[12] == 0 && GetU16(m, 13) == TYPE_AAAA && GetU16(m, 21) == 4
    && m[27] == 0 && GetU16(m, 28) == TYPE_A && GetU32(m, 32) > 0 && GetU16(m, 36) == 4
  }

  /** A record of the root with an hour left and four bytes of body. */
  function RootRecord(typ: uint16): (r: bytes)
    ensures |r| == 15 && r[0] == 0 && GetU16(r, 1) == typ && GetU32(r, 5) == 3600 && GetU16(r, 9) == 4
  {
    var r := [0, typ / 0x100, typ % 0x100, 0, 1, 0, 0, 14, 16, 0, 4, 1, 1, 1, 1];
    assert GetU16(r, 1) == typ && GetU16(r, 5) == 0 && GetU16(r, 7) == 3600;
    r
  }

  /** There are such messages. */
  lemma ShortAddressExists() returns (m: bytes)
    ensures ShortAddress(m)
  {
    var head, first, second := [0, 0, 0, 0, 0, 0, 0, 2, 0, 0, 0, 0], RootRecord(TYPE_AAAA), RootRecord(TYPE_A);
    m := head + first + second;
    assert GetU16(m, 4) == GetU16(head, 4) && GetU16(m, 6) == GetU16(head, 6) && GetU16(m, 8) == GetU16(head, 8)
      && GetU16(m, 10) == GetU16(head, 10);
    assert m[12] == first[0] && GetU16(m, 13) == GetU16(first, 1) && GetU16(m, 21) == GetU16(first, 9);
    assert m[27] == second[0] && GetU16(m, 28) == GetU16(second, 1) && GetU32(m, 32) == GetU32(second, 5) && GetU16(m, 36) == GetU16(second, 9);
  }

  lemma RootDecoded(m: bytes, off: nat)
    requires off < |m| && m[off] == 0
    ensures DecodeName(m, off) == Ok(NameEnd([DOT], off + 1)) && SkipEnd(m, off) == Ok(off + 1)
    ensures forall hot: iset<nat> :: off !in hot ==> DecodedNameAvoids(m, off, hot)
  {
  }

  lemma ShortAddressDecoded(m: bytes)
    requires ShortAddress(m)
    ensures DecodeHeader(m, 12).Ok? && DecodeHeader(m, 12).value.end == 23
    ensures DecodeHeader(m, 12).value.header.typ == TYPE_AAAA && DecodeHeader(m, 12).value.header.length == 4
    ensures DecodeHeader(m, 27).Ok? && DecodeHeader(m, 27).value.end == 38
    ensures DecodeHeader(m, 27).value.header.typ == TYPE_A && DecodeHeader(m, 27).value.header.length == 4
    ensures DecodeResource(m, 12).Ok? && DecodeResource(m, 12).value.end == 27
    ensures DecodeResource(m, 27).Ok? && DecodeResource(m, 27).value.end == 42
  {
    RootDecoded(m, 12);
    RootDecoded(m, 27);
  }

  lemma ShortAddressWalked(m: bytes)
    requires ShortAddress(m)
    ensures RecordsOf(m).Some? && RecordsOf(m).value.spots == [23, 38]
  {
    RootDecoded(m, 12);
    RootDecoded(m, 27);
    WalkStep(m, 12, 2, 23);
    WalkStep(m, 27, 1, 38);
    var w, w1 := Walk(m, 12, 2), Walk(m, 27, 1);
    assert w1.spots == [38] + w1.spots[1..] && Walk(m, 42, 0).spots == [];
    assert w.spots == [23] + w.spots[1..];
  }

  lemma ShortAddressUpdated(m: bytes, age: uint32)
    requires ShortAddress(m) && age > 0
    ensures var m' := Updated(m, age, 0);
      GetU32(m', 32) != GetU32(m, 32) && 12 !in Changed(m, m') && 27 !in Changed(m, m')
  {
    ShortAddressWalked(m);
    UpdateWritesTtlsOnly(m, age, 0);
    var spots := RecordsOf(m).value.spots;
    assert spots[1] == 38;
    assert !InField(spots, 12) && !InField(spots, 27);
  }

  lemma ShortAddressTame(m: bytes, hot: iset<nat>)
    requires ShortAddress(m) && 12 !in hot && 27 !in hot
    ensures DecodeMessage(m).Ok? && MessageTame(m, hot) && (BodiesAvoid(m, hot) ==> RangeAvoids(23, 16, hot))
  {
    ShortAddressDecoded(m);
    RootDecoded(m, 12);
    RootDecoded(m, 27);
    assert RecordTame(m, 12, hot) && RecordTame(m, 27, hot);
    assert RecordsTame(m, 27, 1, hot) && RecordsTame(m, 12, 2, hot);
    assert ReadItems(DecodeResource, m, 27, 1).Ok? && ReadItems(DecodeResource, m, 12, 2).Ok?;
    assert ReadItems(DecodeQuestion, m, 12, 0) == Ok(Items([], 12));
  }

  /** Why bodies matter: an address is sixteen bytes whatever its record's length field says. In these messages, which the
      reader accepts and whose names and ends are all in order, it takes in the TTL of the record behind it, and no update
      leaves it as it was. */
  lemma ShortAddressReadsTtl(m: bytes, age: uint32)
    requires ShortAddress(m) && age > 0
    ensures DecodeMessage(m).Ok? && MessageTame(m, Changed(m, Updated(m, age, 0)))
    ensures DecodeMessage(Updated(m, age, 0)) != Ok(AgedAsRead(DecodeMessage(m).value, age, 0))
  {
    var m' := Updated(m, age, 0);
    ShortAddressUpdated(m, age);
    ShortAddressTame(m, Changed(m, m'));
    AgeingPreservesMeaning(m, DecodeMessage(m).value, age, 0);
    if RangeAvoids(23, 16, Changed(m, m')) {
      RangeSplit(23, 9, 7, Changed(m, m'));
      RangeSplit(32, 4, 3, Changed(m, m'));
      U32Cold(m, m', 32);
    }
  }
}
