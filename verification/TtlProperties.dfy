/** What ageing in place keeps, returns and composes to (resolver/cache.go). */
module TtlProperties {
  import opened Wire
  import opened Names
  import opened Messages
  import opened TtlAgeing

  // ---------- Counting in sixteen bits ----------

  /** On a message of at most 65535 bytes whose records all fit, the sum of the section counts does not wrap. */
  lemma NoWrap(m: bytes, off: nat, count: nat)
    requires HEADER_LEN <= |m| <= MAX_UINT16 && QuestionsEnd(m, HEADER_LEN, GetU16(m, 4)) == Some(off)
    requires count == GetU16(m, 6) as int + GetU16(m, 8) + GetU16(m, 10) && Walk(m, off, count).stop == Done
    ensures RecordsOf(m) == Some(Walk(m, off, count)) && CountedRecords(m) == GetU16(m, 6) as int + GetU16(m, 8)
  {
    WalkFits(m, off, count);
    SmallSum(count);
    SmallSum(GetU16(m, 6) as int + GetU16(m, 8));
  }

  lemma SmallSum(n: nat)
    requires n < 0x1_0000
    ensures n % 0x1_0000 == n
  {
  }

  // ---------- The minimum ----------

  /** The record at spot `j` counts for the minimum: answer or authority, and not OPT. */
  ghost predicate Counts(m: bytes, spots: seq<nat>, counted: nat, j: nat)
    requires AllIn(m, spots)
  {
    j < |spots| && j < counted && !AtOpt(m, spots[j])
  }

  /** The aged TTLs of the records that count. */
  ghost function LeftTtls(m: bytes, spots: seq<nat>, counted: nat, age: uint32): set<uint32>
    requires AllIn(m, spots)
  {
    set j | 0 <= j < |spots| && Counts(m, spots, counted, j) :: Less(GetU32(m, spots[j] - 6), age)
  }

  ghost predicate IsMin(s: set<uint32>, v: uint32) {
    v in s && forall x :: x in s ==> v <= x
  }

  predicate TooOld(age: uint32, maxAge: uint32) {
    maxAge > 0 && age > maxAge
  }

  lemma LeftTtlsOneMore(m: bytes, spots: seq<nat>, counted: nat, age: uint32)
    requires AllIn(m, spots) && spots != []
    ensures var k := |spots| - 1;
            LeftTtls(m, spots, counted, age) ==
            LeftTtls(m, spots[..k], counted, age)
            + if Counts(m, spots, counted, k) then {Less(GetU32(m, spots[k] - 6), age)} else {}
  {
    var k := |spots| - 1;
    var fewer := spots[..k];
    var all := LeftTtls(m, spots, counted, age);
    forall x | x in LeftTtls(m, fewer, counted, age) ensures x in all {
      var j :| 0 <= j < k && Counts(m, fewer, counted, j) && x == Less(GetU32(m, fewer[j] - 6), age);
      assert Counts(m, spots, counted, j) && x == Less(GetU32(m, spots[j] - 6), age);
    }
    forall x | x in all ensures x in LeftTtls(m, fewer, counted, age) || (Counts(m, spots, counted, k) && x == Less(GetU32(m, spots[k] - 6), age)) {
      var j :| 0 <= j < |spots| && Counts(m, spots, counted, j) && x == Less(GetU32(m, spots[j] - 6), age);
      if j < k {
        assert Counts(m, fewer, counted, j) && x == Less(GetU32(m, fewer[j] - 6), age);
      }
    }
  }

  lemma {:induction false} LeastIsLeast(m: bytes, spots: seq<nat>, counted: nat, age: uint32, maxAge: uint32)
    requires AllIn(m, spots)
    ensures var ttls, v := LeftTtls(m, spots, counted, age), Least(m, spots, counted, age, maxAge);
      if ttls == {} then v == MAX_UINT32 else if TooOld(age, maxAge) then v == 0 else IsMin(ttls, v)
    decreases |spots|
  {
    if spots != [] {
      LeastIsLeast(m, spots[..|spots| - 1], counted, age, maxAge);
      LeftTtlsOneMore(m, spots, counted, age);
    }
  }

  /** What the update returns, exactly: the least TTL left among answers and authorities that are not OPT; 0 if there
      are none, if the message is too old, or if that least TTL is the largest number. */
  lemma ExactMinimum(m: bytes, age: uint32, maxAge: uint32)
    requires |m| >= HEADER_LEN && RecordsOf(m).Some? && RecordsOf(m).value.stop != Malformed
    ensures AllIn(m, RecordsOf(m).value.spots)
    ensures var ttls := LeftTtls(m, RecordsOf(m).value.spots, CountedRecords(m), age);
      if ttls == {} || TooOld(age, maxAge) then MinTtl(m, age, maxAge) == 0
      else exists v: uint32 :: IsMin(ttls, v) && MinTtl(m, age, maxAge) == if v == MAX_UINT32 then 0 else v
  {
    RecordsPlaced(m);
    LeastIsLeast(m, RecordsOf(m).value.spots, CountedRecords(m), age, maxAge);
  }

  /** A positive result means fresh: within the maximal age, and no answer or authority has run out. */
  lemma PositiveIsFresh(m: bytes, age: uint32, maxAge: uint32)
    requires MinTtl(m, age, maxAge) > 0
    ensures |m| >= HEADER_LEN && RecordsOf(m).Some? && AllIn(m, RecordsOf(m).value.spots) && !TooOld(age, maxAge)
    ensures var spots := RecordsOf(m).value.spots;
      forall j :: 0 <= j < |spots| && Counts(m, spots, CountedRecords(m), j) ==> GetU32(m, spots[j] - 6) >= age + MinTtl(m, age, maxAge)
  {
    ExactMinimum(m, age, maxAge);
    var spots, v := RecordsOf(m).value.spots, MinTtl(m, age, maxAge);
    var ttls := LeftTtls(m, spots, CountedRecords(m), age);
    var least: uint32 :| IsMin(ttls, least) && v == if least == MAX_UINT32 then 0 else least;
    forall j | 0 <= j < |spots| && Counts(m, spots, CountedRecords(m), j) ensures GetU32(m, spots[j] - 6) >= age + v {
      assert Less(GetU32(m, spots[j] - 6), age) in ttls;
    }
  }

  // ---------- What does not change ----------

  /** `m'` is `m` but for the TTL fields in front of `spots`. */
  ghost predicate AlikeOutside(m: bytes, m': bytes, spots: seq<nat>, off: nat) {
    |m'| == |m| && forall i {:trigger m'[i]} :: off <= i < |m| && !InField(spots, i) ==> m'[i] == m[i]
  }

  /** Bytes between the records stay clear of the fields of later ones. */
  lemma ClearBefore(m: bytes, spots: seq<nat>, off: nat, i: nat)
    requires Placed(m, spots, off) && i < off + 5
    ensures !InField(spots, i)
  {
  }

  lemma {:induction false} SkipEndAlike(m: bytes, m': bytes, off: nat, end: nat)
    requires |m'| == |m| && SkipEnd(m, off) == Ok(end) && forall i {:trigger m'[i]} :: off <= i < end && i < |m| ==> m'[i] == m[i]
    ensures SkipEnd(m', off) == Ok(end)
    decreases |m| - off
  {
    assert m'[off] == m[off];
    if 0 < m[off] < SEGMENT_LIMIT {
      SkipEndAlike(m, m', off + 1 + m[off], end);
    }
  }

  /** One step of the walk over `m'`, when it agrees with `m` in front of the fields and behind them. */
  lemma WalkStepAlike(m: bytes, m': bytes, off: nat, h: nat)
    requires |m'| == |m| && SkipEnd(m, off) == Ok(h - 10) && off + 11 <= h <= |m|
    requires forall i {:trigger m'[i]} :: off <= i < h && !(h - 6 <= i < h - 2) ==> m'[i] == m[i]
    ensures SkipEnd(m', off) == Ok(h - 10) && GetU16(m', h - 2) == GetU16(m, h - 2) && AtOpt(m', h) == AtOpt(m, h)
  {
    SkipEndAlike(m, m', off, h - 10);
  }

  lemma SkipErrAlike(m: bytes, m': bytes, off: nat)
    requires |m'| == |m| && forall i {:trigger m'[i]} :: off <= i < |m| ==> m'[i] == m[i]
    ensures SkipEnd(m', off) == SkipEnd(m, off)
    decreases |m| - off
  {
    if off < |m| && 0 < m[off] < SEGMENT_LIMIT && off + 1 + m[off] <= |m| {
      SkipErrAlike(m, m', off + 1 + m[off]);
    }
  }

  /** The walk never looks at a TTL field: it is the same on every message that differs in those fields only. */
  lemma {:induction false} WalkAlike(m: bytes, m': bytes, off: nat, count: nat)
    requires AlikeOutside(m, m', Walk(m, off, count).spots, off)
    ensures Walk(m', off, count) == Walk(m, off, count)
    decreases count
  {
    if count > 0 && off < |m| {
      var w := Walk(m, off, count);
      if w.spots == [] {
        SkipErrAlike(m, m', off);
      } else {
        var h, next := FirstAlike(m, m', off, count);
        if next <= |m| {
          TailAlike(m, m', w.spots, off, next);
          WalkAlike(m, m', next, count - 1);
        }
        SameStep(w, Walk(m', off, count), h);
      }
    }
  }

  /** The first record of both walks. */
  lemma FirstAlike(m: bytes, m': bytes, off: nat, count: nat) returns (h: nat, next: nat)
    requires count > 0 && off < |m| && Walk(m, off, count).spots != [] && AlikeOutside(m, m', Walk(m, off, count).spots, off)
    ensures FirstRecord(m, off, count, h, next) && FirstRecord(m', off, count, h, next) && h <= next
  {
    var spots := Walk(m, off, count).spots;
    WalkPlaced(m, off, count);
    h := spots[0];
    next := h + GetU16(m, h - 2);
    HeadAlike(m, m', spots, off);
    WalkStepAlike(m, m', off, h);
    WalkStep(m, off, count, h);
    WalkStep(m', off, count, h);
  }

  ghost predicate FirstRecord(m: bytes, off: nat, count: nat, h: nat, next: nat) {
    var w := Walk(m, off, count);
    && count > 0 && w.spots != [] && w.spots[0] == h
    && (if next > |m| then w == Trail([h], Malformed) else Walk(m, next, count - 1) == Trail(w.spots[1..], w.stop))
  }

  lemma SameStep(w: Walked, w': Walked, h: nat)
    requires w.spots != [] && w'.spots != [] && w.spots[0] == w'.spots[0] == h
    requires w == w' || (w.stop == w'.stop && w.spots[1..] == w'.spots[1..])
    ensures w == w'
  {
    assert w.spots == [h] + w.spots[1..] && w'.spots == [h] + w'.spots[1..];
  }

  lemma HeadAlike(m: bytes, m': bytes, spots: seq<nat>, off: nat)
    requires spots != [] && Placed(m, spots, off) && AlikeOutside(m, m', spots, off)
    ensures var h := spots[0]; forall i {:trigger m'[i]} :: off <= i < h && !(h - 6 <= i < h - 2) ==> m'[i] == m[i]
  {
    var h := spots[0];
    forall i | off <= i < h && !(h - 6 <= i < h - 2) ensures m'[i] == m[i] {
      assert !InField(spots, i);
    }
  }

  lemma TailAlike(m: bytes, m': bytes, spots: seq<nat>, off: nat, next: nat)
    requires spots != [] && AlikeOutside(m, m', spots, off) && off <= next && spots[0] <= next
    ensures AlikeOutside(m, m', spots[1..], next)
  {
    forall i | next <= i < |m| && !InField(spots[1..], i) ensures m'[i] == m[i] {
      forall j | 0 <= j < |spots| ensures !(spots[j] <= i + 6 && i + 2 < spots[j]) {
        assert j > 0 ==> spots[j] == spots[1..][j - 1];
      }
    }
  }

  lemma {:induction false} QuestionsAlike(m: bytes, m': bytes, off: nat, count: nat, end: nat)
    requires |m'| == |m| && QuestionsEnd(m, off, count) == Some(end) && forall i {:trigger m'[i]} :: off <= i < end && i < |m| ==> m'[i] == m[i]
    ensures QuestionsEnd(m', off, count) == Some(end)
    decreases count
  {
    if count > 0 {
      var e := SkipEnd(m, off).value;
      SkipEndAlike(m, m', off, e);
      QuestionsAlike(m, m', e + 4, count - 1, end);
    }
  }

  /** A message that differs in TTL fields only has the same records. */
  lemma RecordsAlike(m: bytes, m': bytes)
    requires |m| >= HEADER_LEN && RecordsOf(m).Some? && AlikeOutside(m, m', RecordsOf(m).value.spots, 0)
    ensures RecordsOf(m') == RecordsOf(m) && CountedRecords(m') == CountedRecords(m)
  {
    var off := QuestionsEnd(m, HEADER_LEN, GetU16(m, 4)).value;
    var count := (GetU16(m, 6) + GetU16(m, 8) + GetU16(m, 10)) % 0x1_0000;
    FrontAlike(m, m', off, count);
    CountsAlike(m, m');
    QuestionsAlike(m, m', HEADER_LEN, GetU16(m, 4), off);
    WalkAlike(m, m', off, count);
    RecordsFrom(m', GetU16(m, 4), GetU16(m, 6), GetU16(m, 8), GetU16(m, 10), off);
  }

  lemma RecordsFrom(m: bytes, questions: uint16, answers: uint16, authorities: uint16, additionals: uint16, off: nat)
    requires |m| >= HEADER_LEN && GetU16(m, 4) == questions && GetU16(m, 6) == answers
    requires GetU16(m, 8) == authorities && GetU16(m, 10) == additionals && QuestionsEnd(m, HEADER_LEN, questions) == Some(off)
    ensures RecordsOf(m) == Some(Walk(m, off, (answers + authorities + additionals) % 0x1_0000))
    ensures CountedRecords(m) == (answers + authorities) % 0x1_0000
  {
  }

  lemma CountsAlike(m: bytes, m': bytes)
    requires HEADER_LEN <= |m| == |m'| && forall i {:trigger m'[i]} :: 0 <= i < HEADER_LEN ==> m'[i] == m[i]
    ensures GetU16(m', 4) == GetU16(m, 4) && GetU16(m', 6) == GetU16(m, 6)
    ensures GetU16(m', 8) == GetU16(m, 8) && GetU16(m', 10) == GetU16(m, 10)
  {
  }

  lemma FrontAlike(m: bytes, m': bytes, off: nat, count: nat)
    requires AlikeOutside(m, m', Walk(m, off, count).spots, 0)
    ensures forall i {:trigger m'[i]} :: 0 <= i < off && i < |m| ==> m'[i] == m[i]
  {
    WalkPlaced(m, off, count);
    forall i | 0 <= i < off && i < |m| ensures m'[i] == m[i] {
      ClearBefore(m, Walk(m, off, count).spots, off, i);
    }
  }

  lemma UpdatedAlike(m: bytes, age: uint32, maxTtl: uint32)
    requires |m| >= HEADER_LEN && RecordsOf(m).Some?
    ensures AlikeOutside(m, Updated(m, age, maxTtl), RecordsOf(m).value.spots, 0)
  {
    RecordsPlaced(m);
    var spots := RecordsOf(m).value.spots;
    forall i | 0 <= i < |m| && !InField(spots, i) ensures Updated(m, age, maxTtl)[i] == m[i] {
      AgedFrame(m, spots, age, maxTtl, i);
    }
  }

  // ---------- Updating twice ----------

  /** TTL fields and the bytes outside them make up the message. */
  lemma SameMessageBytes(m: bytes, x: bytes, y: bytes, spots: seq<nat>)
    requires AllIn(m, spots) && AlikeOutside(m, x, spots, 0) && AlikeOutside(m, y, spots, 0)
    requires forall j {:trigger spots[j]} :: 0 <= j < |spots| ==> GetU32(x, spots[j] - 6) == GetU32(y, spots[j] - 6)
    ensures x == y
  {
    forall i | 0 <= i < |m| ensures x[i] == y[i] {
      if InField(spots, i) {
        var j :| 0 <= j < |spots| && spots[j] <= i + 6 && i + 2 < spots[j];
        FieldBytes(x, y, spots[j] - 6, i);
      }
    }
  }

  lemma FieldBytes(x: bytes, y: bytes, at: nat, i: nat)
    requires |x| == |y| && at + 4 <= |x| && GetU32(x, at) == GetU32(y, at) && at <= i < at + 4
    ensures x[i] == y[i]
  {
    assert GetU16(x, at) == GetU16(y, at) && GetU16(x, at + 2) == GetU16(y, at + 2);
  }

  lemma LessTwice(ttl: uint32, a: uint32, b: uint32)
    requires a + b <= MAX_UINT32
    ensures Less(Less(ttl, a), b) == Less(ttl, a + b)
  {
  }

  /** Ageing by `a`, then by `b`, is ageing by `a + b`: the same bytes and the same final result. */
  lemma AgeingComposes(m: bytes, a: uint32, b: uint32)
    requires a + b <= MAX_UINT32
    ensures Updated(Updated(m, a, 0), b, 0) == Updated(m, a + b, 0)
    ensures MinTtl(Updated(m, a, 0), b, 0) == MinTtl(m, a + b, 0)
  {
    if |m| >= HEADER_LEN && RecordsOf(m).Some? {
      var m1 := Updated(m, a, 0);
      var spots := RecordsOf(m).value.spots;
      UpdatedAlike(m, a, 0);
      RecordsAlike(m, m1);
      UpdatedTwice(m, m1, Updated(m1, b, 0), Updated(m, a + b, 0), spots, a, b);
      MinAgain(m, m1, spots, a, b);
    }
  }

  lemma MinAgain(m: bytes, m1: bytes, spots: seq<nat>, a: uint32, b: uint32)
    requires |m| >= HEADER_LEN && RecordsOf(m).Some? && spots == RecordsOf(m).value.spots && a + b <= MAX_UINT32
    requires m1 == Updated(m, a, 0) && RecordsOf(m1) == RecordsOf(m) && CountedRecords(m1) == CountedRecords(m)
    ensures MinTtl(m1, b, 0) == MinTtl(m, a + b, 0)
  {
    RecordsPlaced(m);
    RecordsPlaced(m1);
    UpdatedAlike(m, a, 0);
    forall j | 0 <= j < |spots| ensures OnceAged(m, m1, spots[j], a) {
      SpotType(m, m1, spots, j);
      AgedField(m, spots, j, a, 0, HEADER_LEN);
    }
    LeastAgain(m, m1, spots, CountedRecords(m), a, b);
  }

  ghost predicate OnceAged(m: bytes, m1: bytes, h: nat, a: uint32) {
    && 10 <= h <= |m| == |m1| && AtOpt(m1, h) == AtOpt(m, h)
    && (!AtOpt(m, h) ==> GetU32(m1, h - 6) == Less(GetU32(m, h - 6), a))
  }

  lemma UpdatedTwice(m: bytes, m1: bytes, m2: bytes, m3: bytes, spots: seq<nat>, a: uint32, b: uint32)
    requires |m| >= HEADER_LEN && RecordsOf(m).Some? && spots == RecordsOf(m).value.spots && a + b <= MAX_UINT32
    requires m1 == Updated(m, a, 0) && RecordsOf(m1) == RecordsOf(m)
    requires m2 == Updated(m1, b, 0) && m3 == Updated(m, a + b, 0)
    ensures m2 == m3
  {
    RecordsPlaced(m);
    RecordsPlaced(m1);
    UpdatedAlike(m, a, 0);
    UpdatedAlike(m1, b, 0);
    UpdatedAlike(m, a + b, 0);
    forall j | 0 <= j < |spots| ensures GetU32(m2, spots[j] - 6) == GetU32(m3, spots[j] - 6) {
      SpotType(m, m1, spots, j);
      AgedField(m, spots, j, a, 0, HEADER_LEN);
      AgedField(m1, spots, j, b, 0, HEADER_LEN);
      AgedField(m, spots, j, a + b, 0, HEADER_LEN);
      LessTwice(GetU32(m, spots[j] - 6), a, b);
    }
    SameMessageBytes(m, m2, m3, spots);
  }

  /** The type of a record stands outside every TTL field. */
  lemma SpotType(m: bytes, m': bytes, spots: seq<nat>, j: nat)
    requires Placed(m, spots, HEADER_LEN) && AlikeOutside(m, m', spots, 0) && j < |spots|
    ensures AtOpt(m', spots[j]) == AtOpt(m, spots[j])
  {
    var h := spots[j];
    forall i | h - 10 <= i < h - 8 ensures m'[i] == m[i] {
      assert !InField(spots, i);
    }
  }

  lemma {:induction false} LeastAgain(m: bytes, m1: bytes, spots: seq<nat>, counted: nat, a: uint32, b: uint32)
    requires |m1| == |m| && AllIn(m, spots) && a + b <= MAX_UINT32
    requires forall j {:trigger spots[j]} :: 0 <= j < |spots| ==> OnceAged(m, m1, spots[j], a)
    ensures Least(m1, spots, counted, b, 0) == Least(m, spots, counted, a + b, 0)
    decreases |spots|
  {
    if spots != [] {
      var k := |spots| - 1;
      LeastAgain(m, m1, spots[..k], counted, a, b);
      LessTwice(GetU32(m, spots[k] - 6), a, b);
    }
  }

  lemma CappedTwice(ttl: uint32, cap: uint32)
    ensures Capped(Less(Capped(Less(ttl, 0), cap), 0), cap) == Capped(Less(ttl, 0), cap)
  {
  }

  /** Capping at age 0 a second time changes nothing. */
  lemma CappingIsIdempotent(m: bytes, cap: uint32)
    ensures Updated(Updated(m, 0, cap), 0, cap) == Updated(m, 0, cap)
  {
    if |m| >= HEADER_LEN && RecordsOf(m).Some? {
      var m1 := Updated(m, 0, cap);
      UpdatedAlike(m, 0, cap);
      RecordsAlike(m, m1);
      CappedAgain(m, m1, Updated(m1, 0, cap), RecordsOf(m).value.spots, cap);
    }
  }

  lemma CappedAgain(m: bytes, m1: bytes, m2: bytes, spots: seq<nat>, cap: uint32)
    requires |m| >= HEADER_LEN && RecordsOf(m).Some? && spots == RecordsOf(m).value.spots
    requires m1 == Updated(m, 0, cap) && RecordsOf(m1) == RecordsOf(m) && m2 == Updated(m1, 0, cap)
    ensures m2 == m1
  {
    RecordsPlaced(m);
    RecordsPlaced(m1);
    UpdatedAlike(m, 0, cap);
    UpdatedAlike(m1, 0, cap);
    forall j | 0 <= j < |spots| ensures GetU32(m2, spots[j] - 6) == GetU32(m1, spots[j] - 6) {
      SpotType(m, m1, spots, j);
      AgedField(m, spots, j, 0, cap, HEADER_LEN);
      AgedField(m1, spots, j, 0, cap, HEADER_LEN);
      CappedTwice(GetU32(m, spots[j] - 6), cap);
    }
    SameMessageBytes(m, m2, m1, spots);
  }

  /** An update writes TTL fields of the records it walks over, and nothing else; OPT records keep theirs. */
  lemma UpdateWritesTtlsOnly(m: bytes, age: uint32, maxTtl: uint32)
    requires |m| >= HEADER_LEN && RecordsOf(m).Some?
    ensures var spots, r := RecordsOf(m).value.spots, Updated(m, age, maxTtl);
      && Placed(m, spots, HEADER_LEN) && AlikeOutside(m, r, spots, 0)
      && (forall j {:trigger spots[j]} :: 0 <= j < |spots| ==>
           GetU32(r, spots[j] - 6) == if AtOpt(m, spots[j]) then GetU32(m, spots[j] - 6)
                                      else Capped(Less(GetU32(m, spots[j] - 6), age), maxTtl))
      && RecordsOf(r) == RecordsOf(m)
  {
    RecordsPlaced(m);
    UpdatedAlike(m, age, maxTtl);
    RecordsAlike(m, Updated(m, age, maxTtl));
    var spots := RecordsOf(m).value.spots;
    forall j | 0 <= j < |spots|
      ensures GetU32(Updated(m, age, maxTtl), spots[j] - 6)
           == if AtOpt(m, spots[j]) then GetU32(m, spots[j] - 6) else Capped(Less(GetU32(m, spots[j] - 6), age), maxTtl)
    {
      AgedField(m, spots, j, age, maxTtl, HEADER_LEN);
    }
  }

  // ---------- In numbers ----------

  /** No TTL in the message is above `cap`, those of OPT records aside. */
  ghost predicate TtlsAtMost(m: bytes, cap: uint32) {
    |m| >= HEADER_LEN && RecordsOf(m).Some? ==>
      var spots := RecordsOf(m).value.spots;
      forall j {:trigger spots[j]} :: 0 <= j < |spots| ==>
        10 <= spots[j] <= |m| && (GetU16(m, spots[j] - 10) != 41 ==> GetU32(m, spots[j] - 6) <= cap)
  }

  /** What an update leaves is capped, in the records that a walk over the result finds. */
  lemma UpdatedIsCapped(m: bytes, age: uint32, maxTtl: uint32)
    requires maxTtl > 0
    ensures TtlsAtMost(Updated(m, age, maxTtl), maxTtl)
  {
    if |m| >= HEADER_LEN && RecordsOf(m).Some? {
      var r, spots := Updated(m, age, maxTtl), RecordsOf(m).value.spots;
      UpdateWritesTtlsOnly(m, age, maxTtl);
      UpdatedInNumbers(m, age, maxTtl);
      forall j | 0 <= j < |spots|
        ensures 10 <= spots[j] <= |r| && (GetU16(r, spots[j] - 10) != 41 ==> GetU32(r, spots[j] - 6) <= maxTtl)
      {
        assert FieldAged(m, r, spots[j], age, maxTtl);
        SpotType(m, r, spots, j);
      }
    }
  }

  /** Record `j` of the walk is an answer or an authority, by the counts of the header, and no OPT record. */
  ghost predicate InFront(m: bytes, spots: seq<nat>, j: nat)
    requires |m| >= HEADER_LEN
  {
    && j < |spots| && 10 <= spots[j] <= |m| && j < (GetU16(m, 6) + GetU16(m, 8)) % 0x1_0000
    && GetU16(m, spots[j] - 10) != 41
  }

  /** The seconds that the record at `h` has left. */
  ghost function SecondsLeft(m: bytes, h: nat, age: uint32): nat
    requires 10 <= h <= |m|
  {
    if GetU32(m, h - 6) >= age then GetU32(m, h - 6) - age else 0
  }

  /** The result of an update: nothing if the message is malformed, too old or has no answers or authorities, and otherwise
      the seconds until the first of them runs out. The largest number is taken for nothing. */
  lemma MinimumInNumbers(m: bytes, age: uint32, maxAge: uint32)
    ensures var v := MinTtl(m, age, maxAge);
      if |m| < HEADER_LEN || RecordsOf(m).None? || RecordsOf(m).value.stop == Malformed || (maxAge > 0 && age > maxAge) then v == 0
      else
        var spots := RecordsOf(m).value.spots;
        && (v > 0 ==> forall j: nat {:trigger InFront(m, spots, j)} :: InFront(m, spots, j) ==> v <= SecondsLeft(m, spots[j], age))
        && (v > 0 ==> exists j: nat {:trigger InFront(m, spots, j)} :: InFront(m, spots, j) && SecondsLeft(m, spots[j], age) == v)
        && (v == 0 ==>
             || (exists j: nat {:trigger InFront(m, spots, j)} :: InFront(m, spots, j) && SecondsLeft(m, spots[j], age) == 0)
             || (forall j: nat {:trigger InFront(m, spots, j)} :: InFront(m, spots, j) ==> SecondsLeft(m, spots[j], age) == 0xFFFF_FFFF))
  {
    if |m| >= HEADER_LEN && RecordsOf(m).Some? && RecordsOf(m).value.stop != Malformed {
      ExactMinimum(m, age, maxAge);
      if !TooOld(age, maxAge) {
        MinimumAt(m, age, RecordsOf(m).value.spots, MinTtl(m, age, maxAge));
      }
    }
  }

  lemma MinimumAt(m: bytes, age: uint32, spots: seq<nat>, v: uint32)
    requires |m| >= HEADER_LEN && AllIn(m, spots)
    requires var ttls := LeftTtls(m, spots, CountedRecords(m), age);
      if ttls == {} then v == 0 else exists least: uint32 :: IsMin(ttls, least) && v == if least == MAX_UINT32 then 0 else least
    ensures v > 0 ==> forall j: nat {:trigger InFront(m, spots, j)} :: InFront(m, spots, j) ==> v <= SecondsLeft(m, spots[j], age)
    ensures v > 0 ==> exists j: nat {:trigger InFront(m, spots, j)} :: InFront(m, spots, j) && SecondsLeft(m, spots[j], age) == v
    ensures v == 0 ==>
      || (exists j: nat {:trigger InFront(m, spots, j)} :: InFront(m, spots, j) && SecondsLeft(m, spots[j], age) == 0)
      || (forall j: nat {:trigger InFront(m, spots, j)} :: InFront(m, spots, j) ==> SecondsLeft(m, spots[j], age) == 0xFFFF_FFFF)
  {
    var ttls := LeftTtls(m, spots, CountedRecords(m), age);
    forall j: nat | InFront(m, spots, j) ensures SecondsLeft(m, spots[j], age) as uint32 in ttls {
      assert Counts(m, spots, CountedRecords(m), j) && Less(GetU32(m, spots[j] - 6), age) == SecondsLeft(m, spots[j], age);
    }
    if ttls != {} {
      var least: uint32 :| IsMin(ttls, least) && v == if least == MAX_UINT32 then 0 else least;
      var j :| 0 <= j < |spots| && Counts(m, spots, CountedRecords(m), j) && least == Less(GetU32(m, spots[j] - 6), age);
      assert InFront(m, spots, j) && SecondsLeft(m, spots[j], age) == least;
    }
  }
}
