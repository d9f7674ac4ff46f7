/** The answer cache of the DoH resolver: lookups, stores, last-modified marks and evictions in any order
    (resolver/doh.go). */
module DohCache {
  import opened Wire
  import opened Records
  import opened Messages
  import opened TtlAgeing
  import opened TtlProperties
  import opened ResponseCache

  datatype Query = Query(id: uint16, cls: uint16, typ: uint16, name: bytes)

  /** Who is asked: a plain upstream, or the profile with a url. */
  datatype Source = Plain | Profile(url: string)

  datatype Key = Key(url: string, cls: uint16, typ: uint16, name: bytes)

  // ---------- Keys ----------

  const NO_URL := "https://0.0.0.0"

  function UrlOf(s: Source): string {
    match s
    case Plain => ""
    case Profile(url) => if url == "" then NO_URL else url
  }

  function KeyOf(s: Source, q: Query): Key {
    Key(UrlOf(s), q.cls, q.typ, q.name)
  }

  /** No url stands for the default one. */
  predicate SameSource(s: Source, s': Source) {
    || (s.Plain? && s'.Plain?)
    || (s.Profile? && s'.Profile?
        && (s.url == s'.url || (s.url == "" && s'.url == "https://0.0.0.0") || (s.url == "https://0.0.0.0" && s'.url == "")))
  }

  predicate SameQuestion(q: Query, q': Query) {
    q.cls == q'.cls && q.typ == q'.typ && q.name == q'.name
  }

  lemma UrlsAgree(s: Source, s': Source)
    ensures UrlOf(s) == UrlOf(s') <==> SameSource(s, s')
  {
    assert |NO_URL| > 0;
  }

  /** Two queries share an entry exactly if they ask the same upstream for the same class, type and name. Plain upstreams and
      profiles never share one. */
  lemma KeysAgree(s: Source, q: Query, s': Source, q': Query)
    ensures KeyOf(s, q) == KeyOf(s', q') <==> SameSource(s, s') && SameQuestion(q, q')
  {
    UrlsAgree(s, s');
  }

  // ---------- Reading an answer ----------

  /** One read from the answer's body: some bytes, and perhaps the end or a failure. */
  datatype Ending = More | Eof | Broken
  datatype Chunk<+T> = Chunk(data: T, ending: Ending)
  type Read = Chunk<bytes>

  function AllData(chunks: seq<Read>): bytes {
    if chunks == [] then [] else chunks[0].data + AllData(chunks[1..])
  }

  lemma {:induction false} DataOneMore(chunks: seq<Read>, i: nat)
    requires i < |chunks|
    ensures AllData(chunks[..i + 1]) == AllData(chunks[..i]) + chunks[i].data
    decreases i
  {
    if i > 0 {
      DataOneMore(chunks[1..], i - 1);
      assert chunks[1..][..i - 1] == chunks[..i][1..] && chunks[1..][..i] == chunks[..i + 1][1..];
      assert chunks[0].data + (AllData(chunks[..i][1..]) + chunks[i].data) == chunks[0].data + AllData(chunks[..i][1..]) + chunks[i].data;
    }
  }

  /** A reader never returns more than there is room for, and says when it is over. */
  ghost predicate Obeys(chunks: seq<Read>, room: nat) {
    && chunks != [] && chunks[|chunks| - 1].ending != More
    && (forall i {:trigger chunks[i]} :: 0 <= i < |chunks| - 1 ==> chunks[i].ending == More)
    && forall i :: 0 <= i <= |chunks| && |AllData(chunks[..i])| < room && i < |chunks| ==> |AllData(chunks[..i + 1])| <= room
  }

  /** The buffer is full before the reader says that the body is over. */
  ghost predicate FillsEarly(chunks: seq<Read>, room: nat) {
    exists i {:trigger chunks[..i]} :: 0 < i < |chunks| && |AllData(chunks[..i])| >= room
  }

  /** The whole body arrives before the buffer is full. */
  ghost predicate Complete(chunks: seq<Read>, room: nat) {
    !FillsEarly(chunks, room) && chunks != [] && chunks[|chunks| - 1].ending == Eof
  }

  /** The bytes of a full buffer, with the bit set that says that the answer is truncated. */
  function MarkedTruncated(m: bytes): (r: bytes)
    requires |m| >= 3
    ensures |r| == |m| && forall i :: 0 <= i < |m| && i != 2 ==> r[i] == m[i]
    ensures r[2] / 4 == m[2] / 4 && r[2] % 2 == m[2] % 2 && (r[2] / 2) % 2 == 1
  {
    m[2 := if (m[2] / 2) % 2 == 0 then m[2] + 2 else m[2]]
  }

  lemma {:induction false} DataPrefix(chunks: seq<Read>, i: nat)
    requires i <= |chunks|
    ensures AllData(chunks[..i]) <= AllData(chunks)
    decreases |chunks| - i
  {
    if i == |chunks| {
      assert chunks[..i] == chunks;
    } else {
      DataOneMore(chunks, i);
      DataPrefix(chunks, i + 1);
    }
  }

  /** Marks the answer as truncated. */
  method MarkAnswer(buf: array<byte>)
    requires buf.Length >= 3
    modifies buf
    ensures buf[..] == MarkedTruncated(old(buf[..]))
  {
    buf[2] := if (buf[2] / 2) % 2 == 0 then buf[2] + 2 else buf[2];
  }

  /** Reads until the body is over or the buffer is full. A full buffer counts as truncated, and its answer is marked so. */
  method ReadDnsResponse(chunks: seq<Read>, buf: array<byte>) returns (n: nat, truncated: bool, ok: bool)
    requires buf.Length >= 3 && Obeys(chunks, buf.Length)
    modifies buf
    ensures truncated == FillsEarly(chunks, buf.Length) && ok == (truncated || chunks[|chunks| - 1].ending == Eof)
    ensures truncated <==> exists i {:trigger chunks[..i]} :: 0 < i < |chunks| && |AllData(chunks[..i])| >= buf.Length
    ensures !ok ==> n == 0
    ensures ok && !truncated ==>
      chunks[|chunks| - 1].ending == Eof && n == |AllData(chunks)| <= buf.Length && buf[..n] == AllData(chunks)
    ensures ok && truncated ==> n == buf.Length <= |AllData(chunks)| && buf[..n] == MarkedTruncated(AllData(chunks)[..n])
  {
    n, truncated := 0, false;
    var i := 0;
    assert chunks[..0] == [];
    while true
      invariant 0 <= i < |chunks| && n == |AllData(chunks[..i])| < buf.Length && buf[..n] == AllData(chunks[..i])
      invariant !truncated && forall j {:trigger chunks[..j]} :: 0 <= j <= i ==> |AllData(chunks[..j])| < buf.Length
      decreases |chunks| - i
    {
      var data := chunks[i].data;
      DataOneMore(chunks, i);
      assert |AllData(chunks[..i + 1])| <= buf.Length;
      forall k | 0 <= k < |data| {
        buf[n + k] := data[k];
      }
      assert buf[..n + |data|] == AllData(chunks[..i + 1]);
      n := n + |data|;
      if chunks[i].ending != More {
        assert i == |chunks| - 1 && chunks[..i + 1] == chunks;
        if chunks[i].ending == Eof {
          break;
        }
        return 0, false, false;
      }
      if n >= buf.Length {
        DataPrefix(chunks, i + 1);
        assert buf[..] == AllData(chunks)[..n];
        MarkAnswer(buf);
        return buf.Length, true, true;
      }
      i := i + 1;
    }
    return n, false, true;
  }

  // ---------- The cache as a state machine ----------

  /** What the cache and the marks hold. */
  datatype Cache = Cache(entries: map<Key, CacheValue>, marks: map<string, int>)

  /** Atomic steps of any number of resolve calls, and of the cache's own evictions: an upstream's answer was read into a
      buffer of `room` bytes, a configuration change was reported, an entry was forgotten. */
  datatype Event =
    | Delivered(source: Source, query: Query, time: int, proto: string, chunks: seq<Read>, room: nat)
    | Marked(source: Source, time: int)
    | Evicted(key: Key)

  const EMPTY_CACHE := Cache(map[], map[])

  /** The zero time stands for no mark. */
  function LastMod(c: Cache, s: Source): int {
    if UrlOf(s) in c.marks then c.marks[UrlOf(s)] else 0
  }

  /** Only complete answers that are not empty are stored. */
  ghost predicate Storable(chunks: seq<Read>, room: nat) {
    Complete(chunks, room) && AllData(chunks) != []
  }

  ghost function Apply(c: Cache, e: Event): Cache {
    match e
    case Delivered(s, q, time, proto, chunks, room) =>
      if Storable(chunks, room) then c.(entries := c.entries[KeyOf(s, q) := CacheValue(time, AllData(chunks), proto)]) else c
    case Marked(s, time) => if time > LastMod(c, s) then c.(marks := c.marks[UrlOf(s) := time]) else c
    case Evicted(key) => c.(entries := c.entries - {key})
  }

  ghost function After(c: Cache, events: seq<Event>): Cache
    decreases |events|
  {
    if events == [] then c else Apply(After(c, events[..|events| - 1]), events[|events| - 1])
  }

  /** `v` is, byte for byte, a whole answer that this upstream gave to a query for the same class, type and name. */
  ghost predicate CameWhole(events: seq<Event>, s: Source, q: Query, v: CacheValue) {
    exists s', q', chunks, room {:trigger Delivered(s', q', v.time, v.trans, chunks, room)} ::
      && Delivered(s', q', v.time, v.trans, chunks, room) in events && SameSource(s', s) && SameQuestion(q', q)
      && Storable(chunks, room) && AllData(chunks) == v.msg
  }

  /** Every entry came whole, whatever was evicted. */
  lemma {:induction false} EntriesCameWhole(events: seq<Event>, s: Source, q: Query)
    requires KeyOf(s, q) in After(EMPTY_CACHE, events).entries
    ensures CameWhole(events, s, q, After(EMPTY_CACHE, events).entries[KeyOf(s, q)])
    decreases |events|
  {
    if events != [] {
      var before, e := events[..|events| - 1], events[|events| - 1];
      var was := After(EMPTY_CACHE, before);
      if KeyOf(s, q) in was.entries {
        EntriesCameWhole(before, s, q);
      }
      StepCameWhole(before, was, e, s, q);
      assert before + [e] == events;
    }
  }

  /** One event more: an entry is an old one, or what the event has delivered. */
  lemma StepCameWhole(events: seq<Event>, c: Cache, e: Event, s: Source, q: Query)
    requires KeyOf(s, q) in c.entries ==> CameWhole(events, s, q, c.entries[KeyOf(s, q)])
    requires KeyOf(s, q) in Apply(c, e).entries
    ensures CameWhole(events + [e], s, q, Apply(c, e).entries[KeyOf(s, q)])
  {
    var v := Apply(c, e).entries[KeyOf(s, q)];
    if e.Delivered? && KeyOf(e.source, e.query) == KeyOf(s, q) && Storable(e.chunks, e.room) {
      KeysAgree(e.source, e.query, s, q);
      assert Delivered(e.source, e.query, v.time, v.trans, e.chunks, e.room) in events + [e];
    } else {
      CameEarlier(events, e, s, q, v);
    }
  }

  lemma CameEarlier(events: seq<Event>, e: Event, s: Source, q: Query, v: CacheValue)
    requires CameWhole(events, s, q, v)
    ensures CameWhole(events + [e], s, q, v)
  {
    var s', q', chunks, room :|
      && Delivered(s', q', v.time, v.trans, chunks, room) in events && SameSource(s', s) && SameQuestion(q', q)
      && Storable(chunks, room) && AllData(chunks) == v.msg;
    assert Delivered(s', q', v.time, v.trans, chunks, room) in events + [e];
  }

  /** The mark of an upstream is the latest one recorded for it. */
  lemma {:induction false} MarkIsLatest(events: seq<Event>, s: Source, s': Source, time: int)
    requires Marked(s', time) in events && SameSource(s', s)
    ensures time <= LastMod(After(EMPTY_CACHE, events), s)
    decreases |events|
  {
    var before := events[..|events| - 1];
    UrlsAgree(s', s);
    if events[|events| - 1] != Marked(s', time) {
      MarkIsLatest(before, s, s', time);
    }
  }

  lemma {:induction false} MarkWasRecorded(events: seq<Event>, s: Source)
    ensures var t := LastMod(After(EMPTY_CACHE, events), s);
      t == 0 || exists s' {:trigger Marked(s', t)} :: Marked(s', t) in events && SameSource(s', s)
    decreases |events|
  {
    if events != [] {
      var before, e, t := events[..|events| - 1], events[|events| - 1], LastMod(After(EMPTY_CACHE, events), s);
      MarkWasRecorded(before, s);
      if e.Marked? && UrlOf(e.source) == UrlOf(s) && e.time == t {
        UrlsAgree(e.source, s);
        assert e == Marked(e.source, t);
      } else if t != 0 {
        var s' :| Marked(s', t) in before && SameSource(s', s);
        assert Marked(s', t) in events;
      }
    }
  }

  lemma {:induction false} AfterMore(c: Cache, events: seq<Event>, more: seq<Event>)
    ensures After(c, events + more) == After(After(c, events), more)
    decreases |more|
  {
    if more == [] {
      assert events + more == events;
    } else {
      var k := |more| - 1;
      assert (events + more)[..|events + more| - 1] == events + more[..k];
      AfterMore(c, events, more[..k]);
    }
  }

  /** Marks never go back. */
  lemma {:induction false} MarksOnlyRise(c: Cache, more: seq<Event>, s: Source)
    ensures LastMod(c, s) <= LastMod(After(c, more), s)
    decreases |more|
  {
    if more != [] {
      MarksOnlyRise(c, more[..|more| - 1], s);
    }
  }

  // ---------- Fresh hits ----------

  /** The adjusted answer of an entry has a positive TTL. */
  ghost predicate Unexpired(v: CacheValue, id: uint16, maxAge: uint32, now: int) {
    |v.msg| >= HEADER_LEN && MinTtl(WithId(v.msg, id), AgeOf(now, v.time), maxAge) > 0
  }

  /** An entry found by key is served if it has not expired and was stored after the mark, which is read later than
      the entry. */
  ghost predicate Served(v: CacheValue, mark: int, id: uint16, maxAge: uint32, now: int) {
    Unexpired(v, id, maxAge, now) && mark < v.time
  }

  /** The same in numbers: the message is well-formed and not older than allowed, every answer and authority has seconds left,
      and one of them fewer than the largest number of seconds. */
  ghost predicate StillGood(v: CacheValue, maxAge: uint32, now: int) {
    var m, age := v.msg, AgeOf(now, v.time);
    && |m| >= HEADER_LEN && RecordsOf(m).Some? && RecordsOf(m).value.stop != Malformed && (maxAge == 0 || age <= maxAge)
    && var spots := RecordsOf(m).value.spots;
       && (forall j: nat {:trigger InFront(m, spots, j)} :: InFront(m, spots, j) ==> SecondsLeft(m, spots[j], age) > 0)
       && exists j: nat {:trigger InFront(m, spots, j)} :: InFront(m, spots, j) && SecondsLeft(m, spots[j], age) < 0xFFFF_FFFF
  }

  lemma UnexpiredExactly(v: CacheValue, id: uint16, maxAge: uint32, now: int)
    ensures Unexpired(v, id, maxAge, now) <==> StillGood(v, maxAge, now)
  {
    if |v.msg| >= HEADER_LEN {
      IdIrrelevant(v.msg, id, AgeOf(now, v.time), maxAge);
      MinimumInNumbers(v.msg, AgeOf(now, v.time), maxAge);
    }
  }

  /** Every answer or authority of the stored message, OPT aside, has a TTL above the age. */
  ghost predicate AllFresh(m: bytes, age: uint32) {
    && |m| >= HEADER_LEN && RecordsOf(m).Some? && AllIn(m, RecordsOf(m).value.spots)
    && var spots := RecordsOf(m).value.spots;
       forall j {:trigger spots[j]} :: 0 <= j < |spots| && Counts(m, spots, CountedRecords(m), j) ==> GetU32(m, spots[j] - 6) > age
  }

  /** An update leaves the header alone. */
  lemma FrontKept(m: bytes, age: uint32, maxTtl: uint32, i: nat)
    requires i < |m| && i < HEADER_LEN
    ensures Updated(m, age, maxTtl)[i] == m[i]
  {
    if |m| >= HEADER_LEN && RecordsOf(m).Some? {
      RecordsPlaced(m);
      UpdatedAlike(m, age, maxTtl);
      ClearBefore(m, RecordsOf(m).value.spots, HEADER_LEN, i);
    }
  }

  /** In real time: every answer or authority of the stored message, OPT aside, lives longer than `elapsed` nanoseconds. */
  ghost predicate AllAlive(m: bytes, elapsed: int) {
    && |m| >= HEADER_LEN && RecordsOf(m).Some? && AllIn(m, RecordsOf(m).value.spots)
    && var spots := RecordsOf(m).value.spots;
       forall j {:trigger spots[j]} :: 0 <= j < |spots| && Counts(m, spots, CountedRecords(m), j) ==>
         GetU32(m, spots[j] - 6) * SECOND > elapsed
  }

  lemma FreshIsAlive(m: bytes, now: int, since: int)
    requires AllFresh(m, AgeOf(now, since)) && 0 <= now - since < 0x1_0000_0000 * SECOND
    ensures AllAlive(m, now - since)
  {
    AgeIsElapsed(now, since);
    var spots := RecordsOf(m).value.spots;
    forall j | 0 <= j < |spots| && Counts(m, spots, CountedRecords(m), j) ensures GetU32(m, spots[j] - 6) * SECOND > now - since {
      assert GetU32(m, spots[j] - 6) >= AgeOf(now, since) + 1;
    }
  }

  lemma IdKept(m: bytes, id: uint16, age: uint32, maxTtl: uint32)
    requires |m| >= HEADER_LEN
    ensures GetU16(Updated(WithId(m, id), age, maxTtl), 0) == id
  {
    FrontKept(WithId(m, id), age, maxTtl, 0);
    FrontKept(WithId(m, id), age, maxTtl, 1);
  }

  /** Nothing in the answer has run out, and it is not older than allowed; in real time too, as long as it is younger than
      2^32 seconds. */
  ghost predicate InTime(v: CacheValue, maxAge: uint32, now: int) {
    && AllFresh(v.msg, AgeOf(now, v.time)) && (maxAge > 0 ==> AgeOf(now, v.time) <= maxAge)
    && (0 <= now - v.time < 0x1_0000_0000 * SECOND ==>
         AllAlive(v.msg, now - v.time) && (maxAge > 0 ==> now - v.time < (maxAge + 1) * SECOND))
  }

  lemma UnexpiredInTime(v: CacheValue, id: uint16, maxAge: uint32, now: int)
    requires Unexpired(v, id, maxAge, now)
    ensures InTime(v, maxAge, now)
  {
    var age := AgeOf(now, v.time);
    IdIrrelevant(v.msg, id, age, maxAge);
    PositiveIsFresh(v.msg, age, maxAge);
    InRealTime(v, maxAge, now);
  }

  lemma InRealTime(v: CacheValue, maxAge: uint32, now: int)
    requires AllFresh(v.msg, AgeOf(now, v.time)) && (maxAge > 0 ==> AgeOf(now, v.time) <= maxAge)
    ensures InTime(v, maxAge, now)
  {
    if 0 <= now - v.time < 0x1_0000_0000 * SECOND {
      AgeIsElapsed(now, v.time);
      FreshIsAlive(v.msg, now, v.time);
    }
  }

  /** What a hit promises to an asker: a whole answer of the same upstream to the same question, in time, with the asker's id. */
  ghost predicate GoodHit(events: seq<Event>, s: Source, q: Query, v: CacheValue, maxAge: uint32, maxTtl: uint32, now: int) {
    && CameWhole(events, s, q, v) && InTime(v, maxAge, now)
    && |v.msg| >= HEADER_LEN && GetU16(Updated(WithId(v.msg, q.id), AgeOf(now, v.time), maxTtl), 0) == q.id
  }

  lemma UnexpiredHit(events: seq<Event>, s: Source, q: Query, maxAge: uint32, maxTtl: uint32, now: int)
    requires KeyOf(s, q) in After(EMPTY_CACHE, events).entries
    requires Unexpired(After(EMPTY_CACHE, events).entries[KeyOf(s, q)], q.id, maxAge, now)
    ensures GoodHit(events, s, q, After(EMPTY_CACHE, events).entries[KeyOf(s, q)], maxAge, maxTtl, now)
  {
    var v := After(EMPTY_CACHE, events).entries[KeyOf(s, q)];
    EntriesCameWhole(events, s, q);
    UnexpiredInTime(v, q.id, maxAge, now);
    IdKept(v.msg, q.id, AgeOf(now, v.time), maxTtl);
  }

  /** No configuration change at or after `time` was recorded for the upstream. */
  ghost predicate Unmarked(events: seq<Event>, s: Source, time: int) {
    forall s', t {:trigger Marked(s', t)} :: Marked(s', t) in events && SameSource(s', s) ==> t < time
  }

  /** Safety of a hit, whatever happened before and between its two lookups: besides, no mark at or after the entry's time
      had been recorded for the upstream. */
  lemma FreshHit(events: seq<Event>, between: seq<Event>, s: Source, q: Query, maxAge: uint32, maxTtl: uint32, now: int)
    requires KeyOf(s, q) in After(EMPTY_CACHE, events).entries
    requires var v := After(EMPTY_CACHE, events).entries[KeyOf(s, q)];
             Served(v, LastMod(After(EMPTY_CACHE, events + between), s), q.id, maxAge, now)
    ensures var v := After(EMPTY_CACHE, events).entries[KeyOf(s, q)];
      GoodHit(events, s, q, v, maxAge, maxTtl, now) && Unmarked(events + between, s, v.time)
  {
    UnexpiredHit(events, s, q, maxAge, maxTtl, now);
    var v := After(EMPTY_CACHE, events).entries[KeyOf(s, q)];
    forall s', t | Marked(s', t) in events + between && SameSource(s', s) ensures t < v.time {
      MarkIsLatest(events + between, s, s', t);
    }
  }

  // ---------- The resolver ----------

  /** What the round trip to the upstream yields. The time of the last configuration change is absent when its
      header is missing or malformed. */
  datatype Upstream =
    | NoAnswer
    | Status(code: nat)
    | Answer(chunks: seq<Read>, proto: string, lastMod: Option<int>)

  datatype Failure = RoundTripFailed | ErrorCode(code: nat) | BodyFailed

  datatype Resolution = Resolution(n: nat, transport: string, fromCache: bool, failure: Option<Failure>)

  /** Answers are stored with the TTLs they came with, and handed out capped. */
  ghost function HandedOut(body: bytes, maxTtl: uint32): bytes {
    if maxTtl > 0 then Updated(body, 0, maxTtl) else body
  }

  lemma UnchangedAged(m: bytes)
    ensures FieldsAged(m, m, 0, 0)
  {
    if |m| >= HEADER_LEN && RecordsOf(m).Some? {
      RecordsPlaced(m);
    }
  }

  /** Caps the TTLs of the answer in the first `n` bytes. */
  method Cap(buf: array<byte>, n: nat, maxTtl: uint32)
    requires n <= buf.Length
    modifies buf
    ensures buf[..n] == HandedOut(old(buf[..n]), maxTtl)
    ensures FieldsAged(old(buf[..n]), buf[..n], 0, maxTtl) && (maxTtl > 0 ==> TtlsAtMost(buf[..n], maxTtl))
  {
    ghost var body := buf[..n];
    UnchangedAged(body);
    if maxTtl > 0 {
      UpdatedIsCapped(body, 0, maxTtl);
      UpdatedInNumbers(body, 0, maxTtl);
    }
    if maxTtl > 0 && n > 0 {
      var _ := UpdateTtl(buf, n, 0, 0, maxTtl);
    }
  }

  class Doh {
    const caching: bool
    const cacheMaxAge: uint32
    const maxTtl: uint32
    var entries: map<Key, CacheValue>
    var lastModified: map<string, int>

    /** All that ever happened to the cache and the marks. */
    ghost var events: seq<Event>

    ghost predicate Valid()
      reads this
    {
      Cache(entries, lastModified) == After(EMPTY_CACHE, events)
    }

    constructor (caching: bool, cacheMaxAge: uint32, maxTtl: uint32)
      ensures Valid() && events == [] && this.caching == caching && this.cacheMaxAge == cacheMaxAge && this.maxTtl == maxTtl
    {
      this.caching, this.cacheMaxAge, this.maxTtl := caching, cacheMaxAge, maxTtl;
      entries, lastModified, events := map[], map[], [];
    }

    ghost method Log(e: Event)
      requires Cache(entries, lastModified) == Apply(After(EMPTY_CACHE, events), e)
      modifies this`events
      ensures events == old(events) + [e] && Valid()
    {
      assert (events + [e])[..|events|] == events;
      events := events + [e];
    }

    /** What is added is a whole answer. */
    method Add(key: Key, value: CacheValue, ghost s: Source, ghost q: Query, ghost chunks: seq<Read>, ghost room: nat)
      requires Valid() && Storable(chunks, room) && value.msg == AllData(chunks) && key == KeyOf(s, q)
      modifies this`entries, this`events
      ensures Valid() && events == old(events) + [Delivered(s, q, value.time, value.trans, chunks, room)]
      ensures entries == old(entries)[key := value]
    {
      entries := entries[key := value];
      Log(Delivered(s, q, value.time, value.trans, chunks, room));
    }

    /** The cache may forget any entry at any time. */
    method Evict(key: Key)
      requires Valid()
      modifies this`entries, this`events
      ensures Valid() && events == old(events) + [Evicted(key)]
    {
      entries := entries - {key};
      Log(Evicted(key));
    }

    /** The latest time stands for the url. */
    static function Newer(marks: map<string, int>, url: string, time: Option<int>): map<string, int> {
      if time.Some? && time.value > (if url in marks then marks[url] else 0) then marks[url := time.value] else marks
    }

    method UpdateLastMod(url: string, lastMod: Option<int>, ghost s: Source)
      requires Valid() && url == UrlOf(s)
      modifies this`lastModified, this`events
      ensures Valid()
      ensures events == if lastMod.Some? then old(events) + [Marked(s, lastMod.value)] else old(events)
      ensures lastModified == Newer(old(lastModified), url, lastMod)
    {
      if lastMod.None? {
        return;
      }
      if lastMod.value > (if url in lastModified then lastModified[url] else 0) {
        lastModified := lastModified[url := lastMod.value];
      }
      Log(Marked(s, lastMod.value));
    }

    /** A lookup finds an entry. Answers to inverse queries are never looked up. */
    ghost predicate Found(s: Source, q: Query)
      reads this
    {
      q.typ != TYPE_PTR && caching && KeyOf(s, q) in entries
    }

    /** It is answered from the cache. */
    ghost predicate Hit(s: Source, q: Query, room: nat, now: int)
      reads this
    {
      && Found(s, q) && |entries[KeyOf(s, q)].msg| <= room
      && Served(entries[KeyOf(s, q)], LastMod(Cache(entries, lastModified), s), q.id, cacheMaxAge, now)
    }

    /** The same in numbers, for the entry of this url, class, type and name and the mark of this url. */
    ghost predicate HitInNumbers(url: string, q: Query, room: nat, now: int)
      reads this
    {
      && q.typ != 12 && caching && Key(url, q.cls, q.typ, q.name) in entries
      && var v := entries[Key(url, q.cls, q.typ, q.name)];
         |v.msg| <= room && StillGood(v, cacheMaxAge, now) && (if url in lastModified then lastModified[url] else 0) < v.time
    }

    lemma HitExactly(s: Source, q: Query, room: nat, now: int)
      ensures Hit(s, q, room, now) <==> HitInNumbers(UrlOf(s), q, room, now)
    {
      if Found(s, q) {
        UnexpiredExactly(entries[KeyOf(s, q)], q.id, cacheMaxAge, now);
      }
    }

    method Lookup(key: Key, ghost s: Source, q: Query, buf: array<byte>, now: int)
      returns (n: nat, transport: string, found: bool, hit: bool)
      requires Valid() && key == KeyOf(s, q)
      modifies buf
      ensures found == Found(s, q) && hit == Hit(s, q, buf.Length, now) == HitInNumbers(UrlOf(s), q, buf.Length, now)
      ensures found ==>
        && transport == entries[key].trans
        && n == (if HEADER_LEN <= |entries[key].msg| <= buf.Length then |entries[key].msg| else 0)
        && (n > 0 ==> buf[..n] == Updated(WithId(entries[key].msg, q.id), AgeOf(now, entries[key].time), maxTtl))
      ensures !found ==> n == 0 && transport == "" && buf[..] == old(buf[..])
      ensures n <= buf.Length && (maxTtl > 0 ==> TtlsAtMost(buf[..n], maxTtl))
      ensures hit ==> GoodHit(events, s, q, entries[key], cacheMaxAge, maxTtl, now) && Unmarked(events, s, entries[key].time)
    {
      n, transport, found, hit := 0, "", false, false;
      HitExactly(s, q, buf.Length, now);
      // RFC 1035, section 7.4: the results of an inverse query should not be cached.
      if q.typ != TYPE_PTR && caching && key in entries {
        var v := entries[key];
        var minTtl;
        n, minTtl := AdjustedResponse(v, buf, q.id, cacheMaxAge, maxTtl, now);
        transport, found := v.trans, true;
        var mark := if key.url in lastModified then lastModified[key.url] else 0;
        hit := minTtl > 0 && mark < v.time;
        if n > 0 && maxTtl > 0 {
          UpdatedIsCapped(WithId(v.msg, q.id), AgeOf(now, v.time), maxTtl);
        }
        if hit {
          assert events + [] == events;
          FreshHit(events, [], s, q, cacheMaxAge, maxTtl, now);
        }
      }
    }

    /** The events of a complete answer: it is stored as it came, and its mark is recorded. */
    ghost function Stored(s: Source, q: Query, now: int, up: Upstream, room: nat): seq<Event> {
      if !caching || !up.Answer? || !Storable(up.chunks, room) then []
      else [Delivered(s, q, now, up.proto, up.chunks, room)]
           + if up.lastMod.Some? then [Marked(s, up.lastMod.value)] else []
    }

    /** Keeps a complete answer, and the mark that came with it. */
    method Keep(key: Key, now: int, up: Upstream, msg: bytes, ghost s: Source, ghost q: Query, ghost room: nat)
      requires Valid() && caching && key == KeyOf(s, q) && up.Answer? && Storable(up.chunks, room) && msg == AllData(up.chunks)
      modifies this`entries, this`lastModified, this`events
      ensures Valid() && events == old(events) + Stored(s, q, now, up, room)
      ensures entries == old(entries)[key := CacheValue(now, msg, up.proto)]
      ensures lastModified == Newer(old(lastModified), key.url, up.lastMod)
    {
      ghost var delivered := Delivered(s, q, now, up.proto, up.chunks, room);
      ghost var before := events;
      Add(key, CacheValue(now, msg, up.proto), s, q, up.chunks, room);
      assert events == before + [delivered];
      UpdateLastMod(key.url, up.lastMod, s);
      if up.lastMod.Some? {
        assert events == before + ([delivered] + [Marked(s, up.lastMod.value)]);
      } else {
        assert events == before + ([delivered] + []);
      }
    }

    /** The answer of the upstream: read into the buffer, stored if it is complete, capped for the asker. */
    method Fetch(key: Key, ghost s: Source, ghost q: Query, buf: array<byte>, now: int, up: Upstream)
      returns (n: nat, failure: Option<Failure>)
      requires Valid() && key == KeyOf(s, q) && up.Answer? && buf.Length >= 3 && Obeys(up.chunks, buf.Length)
      modifies this`entries, this`lastModified, this`events, buf
      ensures Valid() && events == old(events) + Stored(s, q, now, up, buf.Length)
      ensures if caching && Complete(up.chunks, buf.Length) && AllData(up.chunks) != [] then
          && entries == old(entries)[key := CacheValue(now, AllData(up.chunks), up.proto)]
          && lastModified == Newer(old(lastModified), key.url, up.lastMod)
        else entries == old(entries) && lastModified == old(lastModified)
      ensures n <= buf.Length && (maxTtl > 0 ==> TtlsAtMost(buf[..n], maxTtl))
      ensures Complete(up.chunks, buf.Length) ==>
        && n == |AllData(up.chunks)| && buf[..n] == HandedOut(AllData(up.chunks), maxTtl)
        && FieldsAged(AllData(up.chunks), buf[..n], 0, maxTtl)
      ensures FillsEarly(up.chunks, buf.Length) ==>
        n == buf.Length <= |AllData(up.chunks)| && buf[..n] == HandedOut(MarkedTruncated(AllData(up.chunks)[..n]), maxTtl)
      ensures failure == if FillsEarly(up.chunks, buf.Length) || Complete(up.chunks, buf.Length) then None else Some(BodyFailed)
      ensures failure.Some? ==> n == 0
    {
      var truncated, ok;
      n, truncated, ok := ReadDnsResponse(up.chunks, buf);
      failure := if ok then None else Some(BodyFailed);
      if n > 0 && !truncated && ok && caching {
        Keep(key, now, up, buf[..n], s, q, buf.Length);
      }
      Cap(buf, n, maxTtl);
    }

    /** A hit leaves everything as it is. Otherwise a complete answer is stored and handed out, and when the upstream
        fails the expired entry that was found, if any, goes out beside the error. No TTL goes out above the limit. */
    method Resolve(q: Query, upstreamUrl: string, buf: array<byte>, time: int, up: Upstream) returns (r: Resolution)
      requires Valid() && buf.Length >= 3 && (up.Answer? ==> Obeys(up.chunks, buf.Length))
      modifies this`entries, this`lastModified, this`events, buf
      ensures Valid() && r.n <= buf.Length && (maxTtl > 0 ==> TtlsAtMost(buf[..r.n], maxTtl))
      ensures old(Hit(Profile(upstreamUrl), q, buf.Length, time)) ==>
        && events == old(events) && r.fromCache && r.failure.None?
        && GoodHit(events, Profile(upstreamUrl), q, old(entries)[KeyOf(Profile(upstreamUrl), q)], cacheMaxAge, maxTtl, time)
        && Unmarked(events, Profile(upstreamUrl), old(entries)[KeyOf(Profile(upstreamUrl), q)].time)
      ensures old(Hit(Profile(upstreamUrl), q, buf.Length, time))
           == old(HitInNumbers(if upstreamUrl == "" then "https://0.0.0.0" else upstreamUrl, q, buf.Length, time))
      ensures old(Hit(Profile(upstreamUrl), q, buf.Length, time)) || (old(Found(Profile(upstreamUrl), q)) && !up.Answer?) ==>
        var v := old(entries)[KeyOf(Profile(upstreamUrl), q)];
        && r.fromCache && r.transport == v.trans
        && r.n == (if HEADER_LEN <= |v.msg| <= buf.Length then |v.msg| else 0)
        && (r.n > 0 ==> buf[..r.n] == Updated(WithId(v.msg, q.id), AgeOf(time, v.time), maxTtl))
      ensures !old(Hit(Profile(upstreamUrl), q, buf.Length, time)) ==>
        var now := if q.typ == TYPE_PTR || !caching then 0 else time;
        && events == old(events) + Stored(Profile(upstreamUrl), q, now, up, buf.Length)
        && (up.NoAnswer? ==> r.failure == Some(RoundTripFailed)) && (up.Status? ==> r.failure == Some(ErrorCode(up.code)))
        && (up.Answer? ==>
              r.failure == if FillsEarly(up.chunks, buf.Length) || Complete(up.chunks, buf.Length) then None else Some(BodyFailed))
        && (up.Answer? ==> !r.fromCache && r.transport == up.proto)
        && (up.Answer? && r.failure.Some? ==> r.n == 0)
        && (up.Answer? && Complete(up.chunks, buf.Length) ==>
              && r.n == |AllData(up.chunks)| && buf[..r.n] == HandedOut(AllData(up.chunks), maxTtl)
              && FieldsAged(AllData(up.chunks), buf[..r.n], 0, maxTtl))
        && (up.Answer? && FillsEarly(up.chunks, buf.Length) ==>
              r.n == buf.Length <= |AllData(up.chunks)| && buf[..r.n] == HandedOut(MarkedTruncated(AllData(up.chunks)[..r.n]), maxTtl))
      ensures var url, now := if upstreamUrl == "" then "https://0.0.0.0" else upstreamUrl, if q.typ == 12 || !caching then 0 else time;
        if !old(Hit(Profile(upstreamUrl), q, buf.Length, time)) && caching && up.Answer? && Complete(up.chunks, buf.Length)
           && AllData(up.chunks) != []
        then
          && entries == old(entries)[Key(url, q.cls, q.typ, q.name) := CacheValue(now, AllData(up.chunks), up.proto)]
          && lastModified == Newer(old(lastModified), url, up.lastMod)
        else entries == old(entries) && lastModified == old(lastModified)
    {
      ghost var s := Profile(upstreamUrl);
      var key := Key(if upstreamUrl == "" then NO_URL else upstreamUrl, q.cls, q.typ, q.name);
      var now := if q.typ != TYPE_PTR && caching then time else 0;
      HitExactly(s, q, buf.Length, time);
      var n, transport, found, hit := Lookup(key, s, q, buf, now);
      if hit {
        return Resolution(n, transport, true, None);
      }
      match up {
        case NoAnswer => r := Resolution(n, transport, found, Some(RoundTripFailed));
        case Status(code) => r := Resolution(n, transport, found, Some(ErrorCode(code)));
        case Answer(_, proto, _) =>
          var failure;
          n, failure := Fetch(key, s, q, buf, now, up);
          r := Resolution(n, proto, false, failure);
      }
    }
  }
}
