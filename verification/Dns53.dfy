/** The resolver for plain DNS upstreams: its cache, and waiting for the answer (resolver/dns53.go). */
module Dns53 {
  import opened Wire
  import opened Records
  import opened Messages
  import opened TtlAgeing
  import opened TtlProperties
  import opened ResponseCache
  import opened DohCache

  const MAX_RETRIES := 5

  /** What one read from the socket yields. A failing read yields no bytes. */
  datatype Packet<+T> = Received(data: T) | ReadFailed

  datatype Wait = Matched(read: nat) | Failed(read: nat) | TooShort | IdMismatch

  predicate Matches(p: Packet<bytes>, id: uint16) {
    p.Received? && |p.data| >= 2 && GetU16(p.data, 0) == id
  }

  /** The first `n` packets were all received and all for somebody else. */
  ghost predicate Mismatched(packets: seq<Packet<bytes>>, n: nat, id: uint16) {
    n <= |packets| && forall i :: 0 <= i < n ==> packets[i].Received? && !Matches(packets[i], id)
  }

  /** The answer is packet `i`: the first one that matches. */
  ghost predicate Answered(packets: seq<Packet<bytes>>, i: nat, id: uint16) {
    i < MAX_RETRIES && Mismatched(packets, i, id) && i < |packets| && Matches(packets[i], id)
  }

  ghost predicate Lost(packets: seq<Packet<bytes>>, i: nat, id: uint16) {
    i < MAX_RETRIES && Mismatched(packets, i, id) && i < |packets| && packets[i].ReadFailed?
  }

  /** A read never returns more than there is room for. */
  ghost predicate Fits(packets: seq<Packet<bytes>>, room: nat) {
    |packets| >= MAX_RETRIES && forall i :: 0 <= i < MAX_RETRIES && packets[i].Received? ==> |packets[i].data| <= room
  }

  /** Packets that are too short or carry another id are skipped, four of them at most: the fifth ends the wait.
      Otherwise the first packet that matches is the answer and stands in the buffer, unless a read fails before it. */
  method AwaitReply(packets: seq<Packet<bytes>>, id: uint16, buf: array<byte>) returns (n: nat, w: Wait)
    requires Fits(packets, buf.Length)
    modifies buf
    ensures w.Matched? <==> exists i: nat :: Answered(packets, i, id)
    ensures w.Failed? <==> exists i: nat :: Lost(packets, i, id)
    ensures w.Matched? ==> Answered(packets, w.read, id) && n == |packets[w.read].data| <= buf.Length && buf[..n] == packets[w.read].data
    ensures w.Failed? ==> Lost(packets, w.read, id) && n == 0
    ensures w.TooShort? || w.IdMismatch? <==> Mismatched(packets, 5, id)
    ensures w.TooShort? ==> n == |packets[4].data| < 2
    ensures w.IdMismatch? ==> n == |packets[4].data| >= 2
    ensures w.Matched? ==> n >= 2 && buf[0] as int * 256 + buf[1] == id
    ensures w.Matched? ==> w.read < 5 && forall i :: 0 <= i < w.read ==>
      packets[i].Received? && var p := packets[i].data; |p| < 2 || p[0] as int * 256 + p[1] != id
  {
    var retries := 0;
    while true
      invariant 0 <= retries < MAX_RETRIES && Mismatched(packets, retries, id)
      decreases MAX_RETRIES - retries
    {
      var packet := packets[retries];
      if packet.ReadFailed? {
        assert Lost(packets, retries, id);
        return 0, Failed(retries);
      }
      n := |packet.data|;
      forall k | 0 <= k < n {
        buf[k] := packet.data[k];
      }
      if n < 2 {
        retries := retries + 1;
        if retries >= MAX_RETRIES {
          return n, TooShort;
        }
        continue;
      }
      if id != buf[0] as int * 0x100 + buf[1] {
        // It may answer an earlier query that timed out.
        retries := retries + 1;
        if retries >= MAX_RETRIES {
          return n, IdMismatch;
        }
        continue;
      }
      assert Answered(packets, retries, id);
      return n, Matched(retries);
    }
  }

  // ---------- The resolver ----------

  /** What talking to the upstream yields. */
  datatype Exchange = DialFailed | WriteFailed | Exchanged(packets: seq<Packet<bytes>>)

  datatype Fault = NotDialed | NotWritten | NotRead | ShortAnswer | OtherAnswer

  datatype Reply = Reply(n: nat, fromCache: bool, fault: Option<Fault>)

  ghost function PacketEvent(q: Query, time: int, data: bytes): Event {
    Delivered(Plain, q, time, "", [Chunk(data, Eof)], |data|)
  }

  lemma OnePiece(data: bytes)
    ensures Complete([Chunk(data, Eof)], |data|) && AllData([Chunk(data, Eof)]) == data
  {
    assert AllData([Chunk(data, Eof)]) == data + AllData([]);
  }

  class PlainDns {
    const caching: bool
    const cacheMaxAge: uint32
    const maxTtl: uint32
    var entries: map<Key, CacheValue>

    /** All that ever happened to the cache. */
    ghost var events: seq<Event>

    ghost predicate Valid()
      reads this
    {
      entries == After(EMPTY_CACHE, events).entries
    }

    constructor (caching: bool, cacheMaxAge: uint32, maxTtl: uint32)
      ensures Valid() && events == [] && this.caching == caching && this.cacheMaxAge == cacheMaxAge && this.maxTtl == maxTtl
    {
      this.caching, this.cacheMaxAge, this.maxTtl := caching, cacheMaxAge, maxTtl;
      entries, events := map[], [];
    }

    /** A packet is an answer in one piece. */
    method Add(key: Key, time: int, data: bytes, ghost q: Query)
      requires Valid() && data != [] && key == KeyOf(Plain, q)
      modifies this
      ensures Valid() && events == old(events) + [PacketEvent(q, time, data)]
      ensures entries == old(entries)[key := CacheValue(time, data, "")]
    {
      entries := entries[key := CacheValue(time, data, "")];
      assert (events + [PacketEvent(q, time, data)])[..|events|] == events;
      OnePiece(data);
      events := events + [PacketEvent(q, time, data)];
    }

    /** The cache may forget any entry at any time. */
    method Evict(key: Key)
      requires Valid()
      modifies this
      ensures Valid() && events == old(events) + [Evicted(key)]
    {
      entries := entries - {key};
      assert (events + [Evicted(key)])[..|events|] == events;
      events := events + [Evicted(key)];
    }

    /** Answers to inverse queries are never looked up. */
    ghost predicate Found(q: Query)
      reads this
    {
      q.typ != TYPE_PTR && caching && KeyOf(Plain, q) in entries
    }

    ghost predicate Hit(q: Query, room: nat, now: int)
      reads this
    {
      Found(q) && |entries[KeyOf(Plain, q)].msg| <= room && Unexpired(entries[KeyOf(Plain, q)], q.id, cacheMaxAge, now)
    }

    /** The same in numbers, for the entry of this class, type and name. */
    ghost predicate HitInNumbers(q: Query, room: nat, now: int)
      reads this
    {
      && q.typ != 12 && caching && Key("", q.cls, q.typ, q.name) in entries
      && var v := entries[Key("", q.cls, q.typ, q.name)];
         |v.msg| <= room && StillGood(v, cacheMaxAge, now)
    }

    lemma HitExactly(q: Query, room: nat, now: int)
      ensures Hit(q, room, now) <==> HitInNumbers(q, room, now)
    {
      if Found(q) {
        UnexpiredExactly(entries[KeyOf(Plain, q)], q.id, cacheMaxAge, now);
      }
    }

    /** A hit was stored whole for the same class, type and name, and is still fresh. */
    method Lookup(q: Query, buf: array<byte>, now: int) returns (n: nat, found: bool, hit: bool)
      requires Valid()
      modifies buf
      ensures found == Found(q) && hit == Hit(q, buf.Length, now) == HitInNumbers(q, buf.Length, now)
      ensures n <= buf.Length && (maxTtl > 0 ==> TtlsAtMost(buf[..n], maxTtl))
      ensures found ==>
        var v := entries[KeyOf(Plain, q)];
        && n == (if HEADER_LEN <= |v.msg| <= buf.Length then |v.msg| else 0)
        && (n > 0 ==> buf[..n] == Updated(WithId(v.msg, q.id), AgeOf(now, v.time), maxTtl))
      ensures !found ==> n == 0
      ensures hit ==> GoodHit(events, Plain, q, entries[KeyOf(Plain, q)], cacheMaxAge, maxTtl, now)
    {
      n, found, hit := 0, false, false;
      HitExactly(q, buf.Length, now);
      var key := Key("", q.cls, q.typ, q.name);
      // RFC 1035, section 7.4: the results of an inverse query should not be cached.
      if q.typ != TYPE_PTR && caching && key in entries {
        var minTtl;
        n, minTtl := AdjustedResponse(entries[key], buf, q.id, cacheMaxAge, maxTtl, now);
        found, hit := true, minTtl > 0;
        if n > 0 && maxTtl > 0 {
          UpdatedIsCapped(WithId(entries[key].msg, q.id), AgeOf(now, entries[key].time), maxTtl);
        }
        if hit {
          UnexpiredHit(events, Plain, q, cacheMaxAge, maxTtl, now);
        }
      }
    }

    /** A hit leaves the cache alone. Otherwise the first matching packet is stored as it came and handed out capped.
        An expired entry that was found goes out beside a failure to dial or to write; a failure to read drops it,
        although the answer still counts as cached. */
    method Resolve(q: Query, buf: array<byte>, time: int, x: Exchange) returns (r: Reply)
      requires Valid() && (x.Exchanged? ==> Fits(x.packets, buf.Length))
      modifies this, buf
      ensures Valid() && r.n <= buf.Length
      ensures maxTtl > 0 && (r.fault.None? || !x.Exchanged?) ==> TtlsAtMost(buf[..r.n], maxTtl)
      ensures old(Hit(q, buf.Length, time)) ==>
        && events == old(events) && r.fromCache && r.fault.None?
        && GoodHit(events, Plain, q, old(entries)[KeyOf(Plain, q)], cacheMaxAge, maxTtl, time)
      ensures old(Hit(q, buf.Length, time)) == old(HitInNumbers(q, buf.Length, time))
      ensures old(Hit(q, buf.Length, time)) || (old(Found(q)) && !x.Exchanged?) ==>
        var v := old(entries)[KeyOf(Plain, q)];
        && r.fromCache && r.n == (if HEADER_LEN <= |v.msg| <= buf.Length then |v.msg| else 0)
        && (r.n > 0 ==> buf[..r.n] == Updated(WithId(v.msg, q.id), AgeOf(time, v.time), maxTtl))
      ensures !old(Hit(q, buf.Length, time)) && !x.Exchanged? ==>
        && events == old(events) && r.fromCache == old(Found(q))
        && r.fault == Some(if x.DialFailed? then NotDialed else NotWritten)
      ensures !old(Hit(q, buf.Length, time)) && x.Exchanged? ==>
        forall i: nat {:trigger Answered(x.packets, i, q.id)} :: Answered(x.packets, i, q.id) ==>
          var now, answer := if q.typ == TYPE_PTR || !caching then 0 else time, x.packets[i].data;
          && r == Reply(|answer|, false, None) && buf[..r.n] == HandedOut(answer, maxTtl) && FieldsAged(answer, buf[..r.n], 0, maxTtl)
          && entries == (if caching then old(entries)[Key("", q.cls, q.typ, q.name) := CacheValue(now, answer, "")] else old(entries))
          && events == old(events) + if caching then [PacketEvent(q, now, answer)] else []
      ensures !old(Hit(q, buf.Length, time)) && x.Exchanged? && !(exists i: nat :: Answered(x.packets, i, q.id)) ==>
        && events == old(events) && r.fromCache == old(Found(q)) && r.fault.Some?
        && (r.fault == Some(NotRead) <==> exists i: nat :: Lost(x.packets, i, q.id))
        && (r.fault == Some(NotRead) ==> r.n == 0)
        && (r.fault == Some(ShortAnswer) <==> Mismatched(x.packets, MAX_RETRIES, q.id) && |x.packets[MAX_RETRIES - 1].data| < 2)
        && (r.fault == Some(OtherAnswer) <==> Mismatched(x.packets, MAX_RETRIES, q.id) && |x.packets[MAX_RETRIES - 1].data| >= 2)
    {
      var now := if q.typ != TYPE_PTR && caching then time else 0;
      HitExactly(q, buf.Length, time);
      var n, found, hit := Lookup(q, buf, now);
      if hit {
        return Reply(n, true, None);
      }
      match x {
        case DialFailed => return Reply(n, found, Some(NotDialed));
        case WriteFailed => return Reply(n, found, Some(NotWritten));
        case Exchanged(packets) =>
          var w;
          n, w := AwaitReply(packets, q.id, buf);
          match w {
            case Failed(_) => return Reply(n, found, Some(NotRead));
            case TooShort => return Reply(n, found, Some(ShortAnswer));
            case IdMismatch => return Reply(n, found, Some(OtherAnswer));
            case Matched(i) =>
              OneAnswer(packets, i, q.id);
              if caching {
                Add(Key("", q.cls, q.typ, q.name), now, buf[..n], q);
              }
              Cap(buf, n, maxTtl);
              return Reply(n, false, None);
          }
      }
    }
  }

  /** There is at most one answer. */
  lemma OneAnswer(packets: seq<Packet<bytes>>, i: nat, id: uint16)
    requires Answered(packets, i, id)
    ensures forall j: nat {:trigger Answered(packets, j, id)} :: Answered(packets, j, id) ==> j == i
  {
  }
}
