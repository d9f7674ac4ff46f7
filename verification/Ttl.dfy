/** Ageing the TTLs of a raw message in place (resolver/cache.go). */
module TtlAgeing {
  import opened Wire
  import opened Names
  import opened Records
  import opened Messages

  // ---------- The walk ----------

  /** How a walk over records stops: after the last one, at the end of the bytes, or at a malformed one. */
  datatype Stop = Done | Ended | Malformed

  /** The records met, each by the offset behind its fixed fields, and how the walk stopped. */
  datatype Trail<+T> = Trail(spots: T, stop: Stop)
  type Walked = Trail<seq<nat>>

  /** The offset behind `count` questions. */
  function QuestionsEnd(m: bytes, off: nat, count: nat): (r: Option<nat>)
    ensures r.Some? ==> off <= r.value && (count > 0 ==> r.value <= |m|)
    decreases count
  {
    if count == 0 then Some(off)
    else if off >= |m| then None
    else
      match SkipEnd(m, off)
      case Err(_) => None
      case Ok(e) => if e + 4 > |m| then None else QuestionsEnd(m, e + 4, count - 1)
  }

  /** The walk over at most `count` records. */
  function Walk(m: bytes, off: nat, count: nat): (w: Walked)
    ensures |w.spots| <= count && (w.stop == Done ==> |w.spots| == count)
    decreases count
  {
    if count == 0 then Trail([], Done)
    else if off >= |m| then Trail([], Ended)
    else
      match SkipEnd(m, off)
      case Err(_) => Trail([], Malformed)
      case Ok(e) =>
        if e + 10 > |m| then Trail([], Malformed)
        else if e + 10 + GetU16(m, e + 8) > |m| then Trail([e + 10], Malformed)
        else
          var rest := Walk(m, e + 10 + GetU16(m, e + 8), count - 1);
          Trail([e + 10] + rest.spots, rest.stop)
  }

  /** Spots follow each other with a whole fixed part in between. */
  ghost predicate Placed(m: bytes, spots: seq<nat>, off: nat) {
    && (forall j {:trigger spots[j]} :: 0 <= j < |spots| ==> off + 11 <= spots[j] <= |m|)
    && (forall j, k {:trigger spots[j], spots[k]} :: 0 <= j < k < |spots| ==> spots[j] + 11 <= spots[k])
  }

  lemma {:induction false} WalkPlaced(m: bytes, off: nat, count: nat)
    ensures Placed(m, Walk(m, off, count).spots, off)
    decreases count
  {
    if count > 0 && off < |m| && SkipEnd(m, off).Ok? {
      var h := SkipEnd(m, off).value + 10;
      if h <= |m| && h + GetU16(m, h - 2) <= |m| {
        WalkPlaced(m, h + GetU16(m, h - 2), count - 1);
      }
    }
  }

  /** A record takes at least eleven bytes: a walk that finishes cannot have met more than fit. */
  lemma {:induction false} WalkFits(m: bytes, off: nat, count: nat)
    requires Walk(m, off, count).stop == Done
    ensures off <= |m| ==> off + 11 * count <= |m|
    decreases count
  {
    if count > 0 {
      var h := SkipEnd(m, off).value + 10;
      WalkFits(m, h + GetU16(m, h - 2), count - 1);
    }
  }

  // ---------- Ageing ----------

  function Less(ttl: uint32, age: uint32): uint32 {
    if age > ttl then 0 else ttl - age
  }

  function Capped(ttl: uint32, maxTtl: uint32): uint32 {
    if maxTtl > 0 && ttl > maxTtl then maxTtl else ttl
  }

  predicate AtOpt(m: bytes, h: nat)
    requires 10 <= h <= |m|
  {
    GetU16(m, h - 10) == TYPE_OPT
  }

  /** `v` over the TTL field in front of `h`. */
  function WithTtl(m: bytes, h: nat, v: uint32): (r: bytes)
    requires 10 <= h <= |m|
    ensures |r| == |m| && forall i {:trigger r[i]} :: 0 <= i < |m| && !(h - 6 <= i < h - 2) ==> r[i] == m[i]
    ensures GetU32(r, h - 6) == v
  {
    var w := U32(v);
    m[h - 6 := w[0]][h - 5 := w[1]][h - 4 := w[2]][h - 3 := w[3]]
  }

  function AgeOne(m: bytes, h: nat, age: uint32, maxTtl: uint32): (r: bytes)
    requires 10 <= h <= |m|
    ensures |r| == |m|
  {
    if AtOpt(m, h) then m else WithTtl(m, h, Capped(Less(GetU32(m, h - 6), age), maxTtl))
  }

  ghost predicate AllIn(m: bytes, spots: seq<nat>) {
    forall j {:trigger spots[j]} :: 0 <= j < |spots| ==> 10 <= spots[j] <= |m|
  }

  /** The message after the records at `spots` were aged one after the other. */
  ghost function Aged(m: bytes, spots: seq<nat>, age: uint32, maxTtl: uint32): (r: bytes)
    requires AllIn(m, spots)
    ensures |r| == |m|
    decreases |spots|
  {
    if spots == [] then m
    else
      var k := |spots| - 1;
      AgeOne(Aged(m, spots[..k], age, maxTtl), spots[k], age, maxTtl)
  }

  /** The least TTL once the record at `h` was looked at. */
  function LeastWith(m: bytes, h: nat, counted: bool, least: uint32, age: uint32, maxAge: uint32): uint32
    requires 10 <= h <= |m|
  {
    if AtOpt(m, h) || !counted then least
    else if maxAge > 0 && age > maxAge then 0
    else if least > Less(GetU32(m, h - 6), age) then Less(GetU32(m, h - 6), age)
    else least
  }

  /** The least aged TTL among the first `counted` records, OPT records aside. */
  ghost function Least(m: bytes, spots: seq<nat>, counted: nat, age: uint32, maxAge: uint32): uint32
    requires AllIn(m, spots)
    decreases |spots|
  {
    if spots == [] then MAX_UINT32
    else
      var k := |spots| - 1;
      LeastWith(m, spots[k], k < counted, Least(m, spots[..k], counted, age, maxAge), age, maxAge)
  }

  // ---------- What ageing changes ----------

  /** `i` lies in the TTL field of one of the records. */
  ghost predicate InField(spots: seq<nat>, i: nat) {
    exists j {:trigger spots[j]} :: 0 <= j < |spots| && spots[j] <= i + 6 && i + 2 < spots[j]
  }

  /** Nothing outside the TTL fields. */
  lemma {:induction false} AgedFrame(m: bytes, spots: seq<nat>, age: uint32, maxTtl: uint32, i: nat)
    requires AllIn(m, spots) && i < |m| && !InField(spots, i)
    ensures Aged(m, spots, age, maxTtl)[i] == m[i]
    decreases |spots|
  {
    if spots != [] {
      var k := |spots| - 1;
      var fewer := spots[..k];
      forall j | 0 <= j < |fewer| ensures !(fewer[j] - 6 <= i < fewer[j] - 2) {
        assert fewer[j] == spots[j];
      }
      AgedFrame(m, fewer, age, maxTtl, i);
      assert !(spots[k] - 6 <= i < spots[k] - 2);
    }
  }

  /** The types and TTLs of records that are still to come. */
  lemma SpotUntouched(m: bytes, spots: seq<nat>, k: nat, age: uint32, maxTtl: uint32, off: nat)
    requires Placed(m, spots, off) && k < |spots|
    ensures AllIn(m, spots[..k])
    ensures var r := Aged(m, spots[..k], age, maxTtl);
            AtOpt(r, spots[k]) == AtOpt(m, spots[k]) && GetU32(r, spots[k] - 6) == GetU32(m, spots[k] - 6)
  {
    var fewer, h := spots[..k], spots[k];
    forall i | h - 10 <= i < h ensures Aged(m, fewer, age, maxTtl)[i] == m[i] {
      forall j | 0 <= j < k ensures !(fewer[j] - 6 <= i < fewer[j] - 2) {
        assert fewer[j] == spots[j];
      }
      AgedFrame(m, fewer, age, maxTtl, i);
    }
  }

  /** Every TTL field holds its aged and capped value, those of OPT records what they held before. */
  lemma {:induction false} AgedField(m: bytes, spots: seq<nat>, j: nat, age: uint32, maxTtl: uint32, off: nat)
    requires Placed(m, spots, off) && j < |spots|
    ensures GetU32(Aged(m, spots, age, maxTtl), spots[j] - 6)
         == if AtOpt(m, spots[j]) then GetU32(m, spots[j] - 6) else Capped(Less(GetU32(m, spots[j] - 6), age), maxTtl)
    decreases |spots|
  {
    var k := |spots| - 1;
    if j < k {
      AgedField(m, spots[..k], j, age, maxTtl, off);
      assert spots[j] + 11 <= spots[k];
    } else {
      SpotUntouched(m, spots, k, age, maxTtl, off);
    }
  }

  // ---------- The whole update ----------

  /** The records of a message, as the update counts them: in sixteen bits. */
  function RecordsOf(m: bytes): Option<Walked>
    requires |m| >= HEADER_LEN
  {
    match QuestionsEnd(m, HEADER_LEN, GetU16(m, 4))
    case None => None
    case Some(off) => Some(Walk(m, off, (GetU16(m, 6) + GetU16(m, 8) + GetU16(m, 10)) % 0x1_0000))
  }

  function CountedRecords(m: bytes): uint16
    requires |m| >= HEADER_LEN
  {
    (GetU16(m, 6) + GetU16(m, 8)) % 0x1_0000
  }

  lemma RecordsPlaced(m: bytes)
    requires |m| >= HEADER_LEN && RecordsOf(m).Some?
    ensures Placed(m, RecordsOf(m).value.spots, HEADER_LEN) && AllIn(m, RecordsOf(m).value.spots)
  {
    var off := QuestionsEnd(m, HEADER_LEN, GetU16(m, 4)).value;
    WalkPlaced(m, off, (GetU16(m, 6) + GetU16(m, 8) + GetU16(m, 10)) % 0x1_0000);
  }

  /** The bytes after an update. */
  ghost function Updated(m: bytes, age: uint32, maxTtl: uint32): (r: bytes)
    ensures |r| == |m|
  {
    if |m| < HEADER_LEN || RecordsOf(m).None? then m
    else RecordsPlaced(m); Aged(m, RecordsOf(m).value.spots, age, maxTtl)
  }

  /** What an update returns. */
  ghost function MinTtl(m: bytes, age: uint32, maxAge: uint32): uint32 {
    if |m| < HEADER_LEN || RecordsOf(m).None? || RecordsOf(m).value.stop == Malformed then 0
    else
      RecordsPlaced(m);
      var least := Least(m, RecordsOf(m).value.spots, CountedRecords(m), age, maxAge);
      if least == MAX_UINT32 then 0 else least
  }

  // ---------- In numbers ----------

  /** What becomes of a TTL: the seconds left, and no more than a limit that is not zero. */
  ghost predicate LeftOver(ttl: uint32, age: uint32, maxTtl: uint32, v: uint32) {
    var left := if ttl >= age then ttl - age else 0;
    && (maxTtl > 0 ==> v <= maxTtl)
    && (maxTtl == 0 || left <= maxTtl ==> v == left)
    && (maxTtl > 0 && left > maxTtl ==> v == maxTtl)
  }

  /** The record in front of whose data `h` stands keeps its TTL if its type is 41. */
  ghost predicate FieldAged(m: bytes, r: bytes, h: nat, age: uint32, maxTtl: uint32) {
    && 10 <= h <= |m| == |r|
    && if GetU16(m, h - 10) == 41 then GetU32(r, h - 6) == GetU32(m, h - 6)
       else LeftOver(GetU32(m, h - 6), age, maxTtl, GetU32(r, h - 6))
  }

  ghost predicate FieldsAged(m: bytes, r: bytes, age: uint32, maxTtl: uint32) {
    |m| >= HEADER_LEN && RecordsOf(m).Some? ==>
      var spots := RecordsOf(m).value.spots;
      forall j {:trigger spots[j]} :: 0 <= j < |spots| ==> FieldAged(m, r, spots[j], age, maxTtl)
  }

  /** Every TTL of a walked record after an update. */
  lemma UpdatedInNumbers(m: bytes, age: uint32, maxTtl: uint32)
    ensures FieldsAged(m, Updated(m, age, maxTtl), age, maxTtl)
  {
    if |m| >= HEADER_LEN && RecordsOf(m).Some? {
      RecordsPlaced(m);
      var spots, r := RecordsOf(m).value.spots, Updated(m, age, maxTtl);
      forall j | 0 <= j < |spots| ensures FieldAged(m, r, spots[j], age, maxTtl) {
        AgedField(m, spots, j, age, maxTtl, HEADER_LEN);
      }
    }
  }

  method PackTtl(buf: array<byte>, n: nat, h: nat, v: uint32)
    requires 10 <= h <= n <= buf.Length
    modifies buf
    ensures buf[..n] == WithTtl(old(buf[..n]), h, v) && buf[n..] == old(buf[n..])
  {
    var w := U32(v);
    buf[h - 6] := w[0];
    buf[h - 5] := w[1];
    buf[h - 4] := w[2];
    buf[h - 3] := w[3];
  }

  /** One record: its bytes, and the least TTL so far. */
  method AgeRecord(buf: array<byte>, n: nat, h: nat, counted: bool, least: uint32, age: uint32, maxAge: uint32, maxTtl: uint32)
    returns (least': uint32)
    requires 10 <= h <= n <= buf.Length
    modifies buf
    ensures buf[..n] == AgeOne(old(buf[..n]), h, age, maxTtl) && buf[n..] == old(buf[n..])
    ensures least' == LeastWith(old(buf[..n]), h, counted, least, age, maxAge)
  {
    var msg := buf[..n];
    var typ := GetU16(msg, h - 10);
    least' := least;
    if typ != TYPE_OPT {
      var ttl := GetU32(msg, h - 6);
      if age > ttl {
        ttl := 0;
      } else {
        ttl := ttl - age;
      }
      // Only records of the answer and authority sections count.
      if counted {
        if maxAge > 0 && age > maxAge {
          least' := 0;
        } else if least' > ttl {
          least' := ttl;
        }
      }
      if maxTtl > 0 && ttl > maxTtl {
        ttl := maxTtl;
      }
      PackTtl(buf, n, h, ttl);
    }
  }

  /** One record of the walk. */
  lemma WalkStep(m: bytes, off: nat, count: nat, h: nat)
    requires count > 0 && off < |m| && 10 <= h <= |m| && SkipEnd(m, off) == Ok(h - 10)
    ensures var w, next := Walk(m, off, count), h + GetU16(m, h - 2);
      && w.spots != [] && w.spots[0] == h
      && (if next > |m| then w == Trail([h], Malformed) else Walk(m, next, count - 1) == Trail(w.spots[1..], w.stop))
  {
    var w, next := Walk(m, off, count), h + GetU16(m, h - 2);
    if next <= |m| {
      assert w.spots[1..] == Walk(m, next, count - 1).spots;
    }
  }

  /** Ageing one record more. */
  lemma AgedOneMore(m: bytes, spots: seq<nat>, k: nat, counted: nat, age: uint32, maxAge: uint32, maxTtl: uint32, off: nat)
    requires Placed(m, spots, off) && k < |spots|
    ensures AllIn(m, spots[..k]) && AllIn(m, spots[..k + 1])
    ensures Aged(m, spots[..k + 1], age, maxTtl) == AgeOne(Aged(m, spots[..k], age, maxTtl), spots[k], age, maxTtl)
    ensures Least(m, spots[..k + 1], counted, age, maxAge)
         == LeastWith(Aged(m, spots[..k], age, maxTtl), spots[k], k < counted, Least(m, spots[..k], counted, age, maxAge), age, maxAge)
  {
    assert spots[..k + 1][..k] == spots[..k];
    SpotUntouched(m, spots, k, age, maxTtl, off);
  }

  /** The loop over the questions: the offset behind them, or nothing. */
  method SkipQuestions(buf: array<byte>, n: nat, questions: uint16) returns (r: Option<nat>)
    requires HEADER_LEN <= n <= buf.Length
    ensures r == QuestionsEnd(buf[..n], HEADER_LEN, questions)
  {
    var msg := buf[..n];
    var off: nat := HEADER_LEN;
    var i: nat := questions;
    while i > 0
      invariant off <= n && QuestionsEnd(msg, off, i) == QuestionsEnd(msg, HEADER_LEN, questions)
    {
      if off >= n {
        return None;
      }
      var l := ResolverSkipName(msg[off..]);
      SkippersAgree(msg, off);
      if l == 0 {
        return None;
      }
      off := off + l + 4;
      if off > n {
        return None;
      }
      i := i - 1;
    }
    return Some(off);
  }

  /** The records at `part` are aged, and `least` is what they leave. */
  ghost predicate AgedSoFar(m: bytes, now: bytes, part: seq<nat>, counted: nat, least: uint32, age: uint32, maxAge: uint32, maxTtl: uint32) {
    AllIn(m, part) && now == Aged(m, part, age, maxTtl) && least == Least(m, part, counted, age, maxAge)
  }

  /** What the walk finds from here on. */
  ghost predicate Ahead(m: bytes, all: Walked, i: nat, off: nat, left: nat) {
    off <= |m| && i <= |all.spots| && Walk(m, off, left) == Trail(all.spots[i..], all.stop)
  }

  /** How far the loop over the records has come after `i` of them. */
  ghost predicate Progress(m: bytes, now: bytes, all: Walked, i: nat, off: nat, count: nat, counted: nat, least: uint32,
                           age: uint32, maxAge: uint32, maxTtl: uint32)
  {
    && i <= count && Ahead(m, all, i, off, count - i) && Placed(m, all.spots, HEADER_LEN)
    && AgedSoFar(m, now, all.spots[..i], counted, least, age, maxAge, maxTtl) && now[off..] == m[off..]
  }

  /** What the loop leaves behind. */
  ghost predicate Finished(m: bytes, now: bytes, all: Walked, counted: nat, least: uint32, age: uint32, maxAge: uint32, maxTtl: uint32) {
    && AllIn(m, all.spots) && now == Aged(m, all.spots, age, maxTtl)
    && least == if all.stop == Malformed then 0 else Least(m, all.spots, counted, age, maxAge)
  }

  /** One record more is aged. */
  lemma AgedStep(m: bytes, now: bytes, spots: seq<nat>, i: nat, h: nat, counted: nat, least: uint32, age: uint32, maxAge: uint32,
                 maxTtl: uint32, now': bytes, least': uint32)
    requires i < |spots| && spots[i] == h && Placed(m, spots, HEADER_LEN) && 10 <= h <= |now|
    requires AgedSoFar(m, now, spots[..i], counted, least, age, maxAge, maxTtl)
    requires now' == AgeOne(now, h, age, maxTtl) && least' == LeastWith(now, h, i < counted, least, age, maxAge)
    ensures AgedSoFar(m, now', spots[..i + 1], counted, least', age, maxAge, maxTtl)
  {
    AgedOneMore(m, spots, i, counted, age, maxAge, maxTtl, HEADER_LEN);
  }

  /** The last record ran out of the message. */
  lemma CutOff(m: bytes, now: bytes, all: Walked, i: nat, counted: nat, least: uint32, age: uint32, maxAge: uint32, maxTtl: uint32)
    requires i == |all.spots| && all.stop == Malformed && AgedSoFar(m, now, all.spots[..i], counted, least, age, maxAge, maxTtl)
    ensures Finished(m, now, all, counted, 0, age, maxAge, maxTtl)
  {
    assert all.spots[..i] == all.spots;
  }

  /** From one record to the next. */
  lemma RecordProgress(m: bytes, now: bytes, all: Walked, i: nat, off: nat, count: nat, counted: nat, least: uint32,
                       age: uint32, maxAge: uint32, maxTtl: uint32, h: nat, now': bytes, least': uint32)
    requires Progress(m, now, all, i, off, count, counted, least, age, maxAge, maxTtl)
    requires i < count && off < |m| && SkipEnd(m, off) == Ok(h - 10) && off + 11 <= h <= |m| == |now|
    requires now' == AgeOne(now, h, age, maxTtl) && least' == LeastWith(now, h, i < counted, least, age, maxAge)
    ensures GetU16(now', h - 2) == GetU16(m, h - 2)
    ensures var next := h + GetU16(m, h - 2);
      if next > |m| then Finished(m, now', all, counted, 0, age, maxAge, maxTtl)
      else Progress(m, now', all, i + 1, next, count, counted, least', age, maxAge, maxTtl)
  {
    AgedAt(m, all, i, off, count - i, count - (i + 1), h);
    Untouched(m, now, off, h, age, maxTtl);
    AgedStep(m, now, all.spots, i, h, counted, least, age, maxAge, maxTtl, now', least');
    Progressed(m, now', all, i, off, count, count - i, count - (i + 1), counted, least', age, maxAge, maxTtl, h);
  }

  lemma AgedAt(m: bytes, all: Walked, i: nat, off: nat, more: nat, left: nat, h: nat)
    requires Ahead(m, all, i, off, more) && more == left + 1
    requires off < |m| && SkipEnd(m, off) == Ok(h - 10) && off + 11 <= h <= |m|
    ensures i < |all.spots| && all.spots[i] == h
  {
    WalkGoesOn(m, all, i, off, more, left, h);
  }

  lemma Progressed(m: bytes, now: bytes, all: Walked, i: nat, off: nat, count: nat, more: nat, left: nat, counted: nat, least: uint32,
                   age: uint32, maxAge: uint32, maxTtl: uint32, h: nat)
    requires i < count && more == count - i && left == count - (i + 1) && Ahead(m, all, i, off, more)
    requires off < |m| && SkipEnd(m, off) == Ok(h - 10) && off + 11 <= h <= |m| == |now|
    requires Placed(m, all.spots, HEADER_LEN) && i < |all.spots| && now[h - 2..] == m[h - 2..]
    requires AgedSoFar(m, now, all.spots[..i + 1], counted, least, age, maxAge, maxTtl)
    ensures var next := h + GetU16(m, h - 2);
      if next > |m| then Finished(m, now, all, counted, 0, age, maxAge, maxTtl)
      else Progress(m, now, all, i + 1, next, count, counted, least, age, maxAge, maxTtl)
  {
    var next := h + GetU16(m, h - 2);
    WalkGoesOn(m, all, i, off, more, left, h);
    if next > |m| {
      CutOff(m, now, all, i + 1, counted, least, age, maxAge, maxTtl);
    } else {
      GoesOn(m, now, all, i + 1, next, count, left, h - 2, counted, least, age, maxAge, maxTtl);
    }
  }

  lemma GoesOn(m: bytes, now: bytes, all: Walked, i: nat, off: nat, count: nat, left: nat, from: nat, counted: nat, least: uint32,
               age: uint32, maxAge: uint32, maxTtl: uint32)
    requires i <= count && left == count - i && Ahead(m, all, i, off, left) && Placed(m, all.spots, HEADER_LEN)
    requires AgedSoFar(m, now, all.spots[..i], counted, least, age, maxAge, maxTtl)
    requires from <= off <= |m| == |now| && now[from..] == m[from..]
    ensures Progress(m, now, all, i, off, count, counted, least, age, maxAge, maxTtl)
  {
    SameFurther(m, now, from, off);
  }

  /** What the walk has in front of it, and behind its next record. */
  lemma WalkGoesOn(m: bytes, all: Walked, i: nat, off: nat, more: nat, left: nat, h: nat)
    requires Ahead(m, all, i, off, more) && more == left + 1
    requires off < |m| && SkipEnd(m, off) == Ok(h - 10) && off + 11 <= h <= |m|
    ensures i < |all.spots| && all.spots[i] == h
    ensures var next := h + GetU16(m, h - 2);
      if next > |m| then all.stop == Malformed && |all.spots| == i + 1
      else Ahead(m, all, i + 1, next, left)
  {
    WalkStep(m, off, more, h);
    var rest := all.spots[i..];
    assert rest[0] == all.spots[i] && rest[1..] == all.spots[i + 1..];
  }

  lemma SameFurther(m: bytes, m': bytes, off: nat, later: nat)
    requires off <= later <= |m| == |m'| && m'[off..] == m[off..]
    ensures m'[later..] == m[later..]
  {
    assert m'[later..] == m'[off..][later - off..] && m[later..] == m[off..][later - off..];
  }

  lemma Untouched(m: bytes, now: bytes, off: nat, h: nat, age: uint32, maxTtl: uint32)
    requires |now| == |m| && off + 11 <= h <= |m| && now[off..] == m[off..]
    ensures AgeOne(now, h, age, maxTtl)[h - 2..] == m[h - 2..]
    ensures GetU16(AgeOne(now, h, age, maxTtl), h - 2) == GetU16(m, h - 2)
  {
    var now' := AgeOne(now, h, age, maxTtl);
    forall j | h - 2 <= j < |m| ensures now'[j] == m[j] {
      assert now[j] == now[off..][j - off] == m[off..][j - off] == m[j];
    }
  }

  /** The end of a loop that broke off at the end of the bytes or after the last record. */
  lemma ProgressEnd(m: bytes, now: bytes, all: Walked, i: nat, off: nat, count: nat, counted: nat, least: uint32,
                    age: uint32, maxAge: uint32, maxTtl: uint32)
    requires Progress(m, now, all, i, off, count, counted, least, age, maxAge, maxTtl)
    requires i == count || off >= |m| || SkipEnd(m, off).Err? || SkipEnd(m, off).value + 10 > |m|
    ensures Finished(m, now, all, counted, if i == count || off >= |m| then least else 0, age, maxAge, maxTtl)
  {
    assert all.spots[i..] == [];
    assert all.spots[..i] == all.spots;
  }

  /** The offset behind the fixed fields of the record at `off`, if they are all there. */
  method SkipToData(buf: array<byte>, n: nat, off: nat) returns (h: Option<nat>)
    requires off < n <= buf.Length
    ensures var e := SkipEnd(buf[..n], off);
      if e.Ok? && e.value + 10 <= n then h == Some(e.value + 10) else h.None?
  {
    ghost var msg := buf[..n];
    var l := ResolverSkipName(buf[off..n]);
    assert buf[off..n] == msg[off..];
    SkippersAgree(msg, off);
    if l == 0 || off + l + 10 > n {
      return None;
    }
    return Some(off + l + 10);
  }

  lemma SameSuffixSkips(m: bytes, m': bytes, off: nat)
    requires off <= |m| == |m'| && m'[off..] == m[off..]
    ensures SkipEnd(m', off) == SkipEnd(m, off)
  {
    SkipEndShift(m, off, 0);
    SkipEndShift(m', off, 0);
  }

  /** One turn of the loop over the records: the offset of the next one, or nothing if this one is cut off. */
  method UpdateRecord(buf: array<byte>, n: nat, off: nat, ghost msg: bytes, ghost all: Walked, i: nat, rrCount: uint16, additionalsIdx: uint16,
                      least: uint32, age: uint32, maxAge: uint32, maxTtl: uint32)
    returns (next: Option<nat>, least': uint32)
    requires off < n <= buf.Length && |msg| == n && i < rrCount
    requires Progress(msg, buf[..n], all, i, off, rrCount, additionalsIdx, least, age, maxAge, maxTtl)
    modifies buf
    ensures buf[n..] == old(buf[n..])
    ensures match next
      case Some(off') => Progress(msg, buf[..n], all, i + 1, off', rrCount, additionalsIdx, least', age, maxAge, maxTtl)
      case None => Finished(msg, buf[..n], all, additionalsIdx, 0, age, maxAge, maxTtl)
  {
    ghost var now := buf[..n];
    least' := least;
    var data := SkipToData(buf, n, off);
    SameSuffixSkips(msg, now, off);
    if data.None? {
      ProgressEnd(msg, now, all, i, off, rrCount, additionalsIdx, least, age, maxAge, maxTtl);
      return None, 0;
    }
    var h := data.value;
    least' := AgeRecord(buf, n, h, i < additionalsIdx, least, age, maxAge, maxTtl);
    RecordProgress(msg, now, all, i, off, rrCount, additionalsIdx, least, age, maxAge, maxTtl, h, buf[..n], least');
    var rdlen := GetU16(buf[..n], h - 2);
    return if h + rdlen > n then None else Some(h + rdlen), least';
  }

  /** The loop over the records. */
  method UpdateRecords(buf: array<byte>, n: nat, start: nat, rrCount: uint16, additionalsIdx: uint16,
                       age: uint32, maxAge: uint32, maxTtl: uint32, ghost all: Walked)
    returns (minTtl: uint32)
    requires start <= n <= buf.Length && all == Walk(buf[..n], start, rrCount) && Placed(buf[..n], all.spots, HEADER_LEN)
    modifies buf
    ensures Finished(old(buf[..n]), buf[..n], all, additionalsIdx, minTtl, age, maxAge, maxTtl) && buf[n..] == old(buf[n..])
  {
    ghost var msg := buf[..n];
    var off: nat := start;
    minTtl := MAX_UINT32;
    assert all.spots[0..] == all.spots;
    var i: nat := 0;
    while i < rrCount
      invariant Progress(msg, buf[..n], all, i, off, rrCount, additionalsIdx, minTtl, age, maxAge, maxTtl)
      invariant buf[n..] == old(buf[n..])
    {
      if off >= n {
        break;
      }
      var next;
      next, minTtl := UpdateRecord(buf, n, off, msg, all, i, rrCount, additionalsIdx, minTtl, age, maxAge, maxTtl);
      if next.None? {
        return 0;
      }
      off := next.value;
      i := i + 1;
    }
    ProgressEnd(msg, buf[..n], all, i, off, rrCount, additionalsIdx, minTtl, age, maxAge, maxTtl);
  }

  /** updateTTL on the first `n` bytes of a buffer. */
  method UpdateTtl(buf: array<byte>, n: nat, age: uint32, maxAge: uint32, maxTtl: uint32) returns (minTtl: uint32)
    requires n <= buf.Length
    modifies buf
    ensures buf[..n] == Updated(old(buf[..n]), age, maxTtl) && buf[n..] == old(buf[n..])
    ensures minTtl == MinTtl(old(buf[..n]), age, maxAge)
    ensures FieldsAged(old(buf[..n]), buf[..n], age, maxTtl)
  {
    UpdatedInNumbers(buf[..n], age, maxTtl);
    if n < HEADER_LEN {
      return 0;
    }
    var msg := buf[..n];
    var questions, answers, authorities, additionals := GetU16(msg, 4), GetU16(msg, 6), GetU16(msg, 8), GetU16(msg, 10);
    var start := SkipQuestions(buf, n, questions);
    if start.None? {
      return 0;
    }
    RecordsPlaced(msg);
    // Sums of 16-bit numbers are 16-bit numbers.
    var rrCount: uint16 := (answers as int + authorities + additionals) % 0x1_0000;
    var additionalsIdx: uint16 := (answers as int + authorities) % 0x1_0000;
    minTtl := UpdateRecords(buf, n, start.value, rrCount, additionalsIdx, age, maxAge, maxTtl, RecordsOf(msg).value);
    if minTtl == MAX_UINT32 {
      minTtl := 0;
    }
  }
}
