/** Cached answers, adjusted to their age (resolver/cache.go). */
module ResponseCache {
  import opened Wire
  import opened Names
  import opened Messages
  import opened TtlAgeing
  import opened TtlProperties

  const SECOND := 1_000_000_000
  const MAX_DURATION := 0x7FFF_FFFF_FFFF_FFFF

  /** A cached answer. Times count nanoseconds from the zero time. */
  datatype CacheValue = CacheValue(time: int, msg: bytes, trans: string)

  // ---------- Age ----------

  /** Differences of times saturate at the largest and smallest duration. */
  function Elapsed(now: int, since: int): int {
    if now - since > MAX_DURATION then MAX_DURATION
    else if now - since < -MAX_DURATION - 1 then -MAX_DURATION - 1
    else now - since
  }

  /** Whole seconds, rounded towards zero, in 32 bits. */
  function AgeOf(now: int, since: int): uint32 {
    var d := Elapsed(now, since);
    (if d >= 0 then d / SECOND else -(-d / SECOND)) % 0x1_0000_0000
  }

  /** Below 2^32 seconds the age is the number of seconds that have passed. */
  lemma AgeIsElapsed(now: int, since: int)
    requires 0 <= now - since < 0x1_0000_0000 * SECOND
    ensures AgeOf(now, since) * SECOND <= now - since < (AgeOf(now, since) + 1) * SECOND
  {
    assert (now - since) / SECOND < 0x1_0000_0000;
  }

  // ---------- The adjusted response ----------

  function WithId(m: bytes, id: uint16): (r: bytes)
    requires |m| >= HEADER_LEN
    ensures |r| == |m| && GetU16(r, 0) == id && forall i {:trigger r[i]} :: 2 <= i < |m| ==> r[i] == m[i]
  {
    m[0 := id / 0x100][1 := id % 0x100]
  }

  /** The code's AdjustedResponse: the answer with the asker's id and aged TTLs, in the first `n` bytes of `buf`. */
  method AdjustedResponse(v: CacheValue, buf: array<byte>, id: uint16, maxAge: uint32, maxTtl: uint32, now: int)
    returns (n: nat, minTtl: uint32)
    modifies buf
    ensures |v.msg| < HEADER_LEN || buf.Length < |v.msg| ==> n == 0 && minTtl == 0 && buf[..] == old(buf[..])
    ensures |v.msg| >= HEADER_LEN && buf.Length >= |v.msg| ==>
      && n == |v.msg| && buf[n..] == old(buf[n..])
      && buf[..n] == Updated(WithId(v.msg, id), AgeOf(now, v.time), maxTtl)
      && minTtl == MinTtl(WithId(v.msg, id), AgeOf(now, v.time), maxAge)
  {
    n := |v.msg|;
    if n < HEADER_LEN || buf.Length < n {
      return 0, 0;
    }
    forall i | 0 <= i < n {
      buf[i] := v.msg[i];
    }
    buf[0] := id / 0x100;
    buf[1] := id % 0x100;
    assert buf[..n] == WithId(v.msg, id);
    minTtl := UpdateTtl(buf, n, AgeOf(now, v.time), maxAge, maxTtl);
  }

  // ---------- The id does not matter to the walk ----------

  lemma {:induction false} QuestionsSame(m: bytes, m': bytes, off: nat, count: nat)
    requires |m'| == |m| && forall i {:trigger m'[i]} :: off <= i < |m| ==> m'[i] == m[i]
    ensures QuestionsEnd(m', off, count) == QuestionsEnd(m, off, count)
    decreases count
  {
    if count > 0 && off < |m| {
      SkipErrAlike(m, m', off);
      if SkipEnd(m, off).Ok? && SkipEnd(m, off).value + 4 <= |m| {
        QuestionsSame(m, m', SkipEnd(m, off).value + 4, count - 1);
      }
    }
  }

  lemma {:induction false} WalkSame(m: bytes, m': bytes, off: nat, count: nat)
    requires |m'| == |m| && forall i {:trigger m'[i]} :: off <= i < |m| ==> m'[i] == m[i]
    ensures Walk(m', off, count) == Walk(m, off, count)
    decreases count
  {
    WalkAlike(m, m', off, count);
  }

  lemma SameRecords(m: bytes, id: uint16)
    requires |m| >= HEADER_LEN
    ensures RecordsOf(WithId(m, id)) == RecordsOf(m) && CountedRecords(WithId(m, id)) == CountedRecords(m)
  {
    var m' := WithId(m, id);
    assert GetU16(m', 4) == GetU16(m, 4) && GetU16(m', 6) == GetU16(m, 6) && GetU16(m', 8) == GetU16(m, 8) && GetU16(m', 10) == GetU16(m, 10);
    QuestionsSame(m, m', HEADER_LEN, GetU16(m, 4));
    if RecordsOf(m).Some? {
      var off := QuestionsEnd(m, HEADER_LEN, GetU16(m, 4)).value;
      WalkSame(m, m', off, (GetU16(m, 6) + GetU16(m, 8) + GetU16(m, 10)) % 0x1_0000);
    }
  }

  /** Another id: the same records, the same TTLs left, the same result. */
  lemma IdIrrelevant(m: bytes, id: uint16, age: uint32, maxAge: uint32)
    requires |m| >= HEADER_LEN
    ensures MinTtl(WithId(m, id), age, maxAge) == MinTtl(m, age, maxAge)
  {
    SameRecords(m, id);
    if RecordsOf(m).Some? {
      RecordsPlaced(m);
      RecordsPlaced(WithId(m, id));
      LeastSame(m, WithId(m, id), RecordsOf(m).value.spots, CountedRecords(m), age, maxAge);
    }
  }

  lemma {:induction false} LeastSame(m: bytes, m': bytes, spots: seq<nat>, counted: nat, age: uint32, maxAge: uint32)
    requires |m'| == |m| && AllIn(m, spots) && (forall i {:trigger m'[i]} :: HEADER_LEN <= i < |m| ==> m'[i] == m[i])
    requires forall j {:trigger spots[j]} :: 0 <= j < |spots| ==> spots[j] >= HEADER_LEN + 11
    ensures Least(m', spots, counted, age, maxAge) == Least(m, spots, counted, age, maxAge)
    decreases |spots|
  {
    if spots != [] {
      LeastSame(m, m', spots[..|spots| - 1], counted, age, maxAge);
    }
  }
}
