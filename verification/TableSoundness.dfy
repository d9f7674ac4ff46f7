/** What the reader finds at every offset the compression table records, and at every name written with it.
    All statements are about one message `m`, in which the written bytes stand where they were put. */
module TableSoundness {
  import opened Wire
  import opened Names
  import opened Compression

  /** Reading at `p` spells the suffix `s` and follows fewer pointers than `s` has segments. */
  ghost predicate EntrySound(m: bytes, s: bytes, p: nat) {
    && s != [] && Canonical(s)
    && var r := ReadName(m, p, Labels(s) - 1); r.Ok? && r.value.name == s
  }

  ghost predicate TableSound(m: bytes, t: Table) {
    t.Some? ==> forall s {:trigger EntrySound(m, s, t.value[s])} :: s in t.value ==> EntrySound(m, s, t.value[s])
  }

  // ---------- What a read depends on ----------

  /** A budget succeeds exactly when it covers the pointers followed. */
  lemma {:induction false} BudgetIsExact(m: bytes, off: nat, budget: nat, budget': nat)
    requires ReadName(m, off, budget).Ok?
    ensures ReadName(m, off, budget')
         == if budget' < ReadName(m, off, budget).value.hops then Err(TooManyPtr) else ReadName(m, off, budget)
    decreases budget, |m| - off
  {
    if 0 < m[off] < SEGMENT_LIMIT {
      BudgetIsExact(m, off + 1 + m[off], budget, budget');
    } else if m[off] >= POINTER_TAG && 0 < budget' {
      BudgetIsExact(m, PointerAt(m, off), budget - 1, budget' - 1);
    }
  }

  /** A successful read only depends on the bytes that were there. */
  lemma {:induction false} ReadSurvivesAppend(m: bytes, m': bytes, off: nat, budget: nat)
    requires m <= m' && ReadName(m, off, budget).Ok?
    ensures ReadName(m', off, budget) == ReadName(m, off, budget)
    decreases budget, |m| - off
  {
    if 0 < m[off] < SEGMENT_LIMIT {
      assert Slice(m', off + 1, m[off]) == Slice(m, off + 1, m[off]);
      ReadSurvivesAppend(m, m', off + 1 + m[off], budget);
    } else if m[off] >= POINTER_TAG {
      ReadSurvivesAppend(m, m', PointerAt(m, off), budget - 1);
    }
  }

  lemma TableSurvivesAppend(m: bytes, m': bytes, t: Table)
    requires TableSound(m, t) && m <= m'
    ensures TableSound(m', t)
  {
    if t.Some? {
      forall s | s in t.value ensures EntrySound(m', s, t.value[s]) {
        assert EntrySound(m, s, t.value[s]);
        ReadSurvivesAppend(m, m', t.value[s], Labels(s) - 1);
      }
    }
  }

  // ---------- Reading back a suffix ----------

  /** Entries for suffixes no longer than `size` are sound. Longer ones may belong to the name being
      written: each is registered before its suffix is on the wire. */
  ghost predicate SoundUpTo(m: bytes, t: Table, size: nat) {
    t.Some? ==> forall s {:trigger EntrySound(m, s, t.value[s])} :: s in t.value && |s| <= size ==> EntrySound(m, s, t.value[s])
  }

  lemma RegisterKeepsShorter(m: bytes, t: Table, s: bytes, pos: nat)
    requires s != [] && Canonical(s) && SoundUpTo(m, t, |s|)
    ensures SoundUpTo(m, Register(t, s, pos), |Tail(s)|)
  {
  }

  /** The pointers that reading `s` follows when it was written with table `t`:
      the first known suffix costs one pointer and the chain behind it. */
  ghost function PointersOf(m: bytes, s: bytes, t: Table): nat
    requires Canonical(s)
    decreases |s|
  {
    if s == [] || t.None? then 0
    else if s in t.value then 1 + HopsAt(m, t.value[s], Labels(s) - 1)
    else PointersOf(m, Tail(s), t)
  }

  ghost function HopsAt(m: bytes, p: nat, budget: nat): nat {
    match ReadName(m, p, budget)
    case Ok(r) => r.hops
    case Err(_) => 0
  }

  /** Registering a longer suffix does not matter. */
  lemma {:induction false} PointersIgnoreLonger(m: bytes, s: bytes, t: Table, k: bytes, pos: nat)
    requires Canonical(s) && |s| < |k|
    ensures PointersOf(m, s, Register(t, k, pos)) == PointersOf(m, s, t)
    decreases |s|
  {
    if s != [] && t.Some? && s !in t.value {
      PointersIgnoreLonger(m, Tail(s), t, k, pos);
    }
  }

  /** A chain is shorter than the name is long. */
  lemma {:induction false} ChainIsShort(m: bytes, s: bytes, t: Table)
    requires Canonical(s) && SoundUpTo(m, t, |s|)
    ensures PointersOf(m, s, t) <= Labels(s)
    ensures s != [] && (t.None? || s !in t.value) ==> PointersOf(m, s, t) <= Labels(s) - 1
    decreases |s|
  {
    if s != [] {
      if t.Some? && s in t.value {
        assert EntrySound(m, s, t.value[s]);
      } else {
        ChainIsShort(m, Tail(s), t);
      }
    }
  }

  /** `s` is read at `pos`, up to `end`, through exactly `hops` pointers. */
  ghost predicate Reads(m: bytes, pos: nat, s: bytes, end: nat, hops: nat) {
    ReadName(m, pos, hops) == Ok(NameRead(s, end, hops))
  }

  lemma {:induction false} SuffixReadsBack(m: bytes, pos: nat, s: bytes, t: Table, w: bytes, end: nat)
    requires Canonical(s) && SoundUpTo(m, t, |s|)
    requires EncodeSuffix(s, pos, t).out == Ok(w) && At(m, pos, w) && end == pos + |w|
    ensures Reads(m, pos, s, end, PointersOf(m, s, t))
    decreases |s|
  {
    if s == [] {
      assert m[pos] == w[0];
    } else if t.Some? && s in t.value {
      KnownReadsBack(m, pos, s, t, w);
    } else {
      var rest := MissWrites(m, pos, s, t, w);
      RegisterKeepsShorter(m, t, s, pos);
      SuffixReadsBack(m, pos + |Segment(s)|, Tail(s), Register(t, s, pos), rest, end);
      MissReadsBack(m, pos, s, t, end);
    }
  }

  lemma KnownReadsBack(m: bytes, pos: nat, s: bytes, t: Table, w: bytes)
    requires s != [] && Canonical(s) && t.Some? && s in t.value && SoundUpTo(m, t, |s|)
    requires EncodeSuffix(s, pos, t).out == Ok(w) && At(m, pos, w)
    ensures Reads(m, pos, s, pos + |w|, PointersOf(m, s, t))
  {
    assert EntrySound(m, s, t.value[s]);
    PointerReadsBack(m, pos, t.value[s], Labels(s) - 1);
  }

  lemma MissReadsBack(m: bytes, pos: nat, s: bytes, t: Table, end: nat)
    requires s != [] && Canonical(s) && (t.None? || s !in t.value) && 0 < FirstDot(s) < SEGMENT_LIMIT && At(m, pos, Segment(s))
    requires Reads(m, pos + |Segment(s)|, Tail(s), end, PointersOf(m, Tail(s), Register(t, s, pos)))
    ensures Reads(m, pos, s, end, PointersOf(m, s, t))
  {
    PointersIgnoreLonger(m, Tail(s), t, s, pos);
    SegmentThenRest(m, pos, s, end, PointersOf(m, Tail(s), t));
  }

  /** A table miss writes one segment, then the rest with the suffix registered. */
  lemma MissWrites(m: bytes, pos: nat, s: bytes, t: Table, w: bytes) returns (rest: bytes)
    requires s != [] && Canonical(s) && (t.None? || s !in t.value)
    requires EncodeSuffix(s, pos, t).out == Ok(w) && At(m, pos, w)
    ensures 0 < FirstDot(s) < SEGMENT_LIMIT && |w| == |Segment(s)| + |rest|
    ensures EncodeSuffix(Tail(s), pos + |Segment(s)|, Register(t, s, pos)) == Encoded(Ok(rest), EncodeSuffix(s, pos, t).table)
    ensures At(m, pos, Segment(s)) && At(m, pos + |Segment(s)|, rest)
  {
    rest := EncodeSuffix(Tail(s), pos + |Segment(s)|, Register(t, s, pos)).out.value;
    AtParts(m, pos, Segment(s), rest);
  }

  lemma PointerReadsBack(m: bytes, pos: nat, p: Pointer14, budget: nat)
    requires ReadName(m, p, budget).Ok? && At(m, pos, PointerBytes(p))
    ensures var r := ReadName(m, p, budget).value; Reads(m, pos, r.name, pos + 2, r.hops + 1)
  {
    var w := PointerBytes(p);
    assert m[pos] == w[0] && m[pos + 1] == w[1];
    assert PointerAt(m, pos) == p;
    BudgetIsExact(m, p, budget, ReadName(m, p, budget).value.hops);
  }

  lemma SegmentThenRest(m: bytes, pos: nat, s: bytes, end: nat, hops: nat)
    requires s != [] && Canonical(s) && 0 < FirstDot(s) < SEGMENT_LIMIT && At(m, pos, Segment(s))
    requires Reads(m, pos + |Segment(s)|, Tail(s), end, hops)
    ensures Reads(m, pos, s, end, hops)
  {
    var j, w := FirstDot(s), Segment(s);
    assert m[pos] == w[0];
    AtParts(m, pos, [j], s[..j]);
    SliceAt(m, pos + 1, s[..j]);
    NoDotBefore(s, 0);
    assert forall i :: pos + 1 <= i < pos + 1 + j ==> m[i] == w[i - pos];
    assert s[..j] + [DOT] + Tail(s) == s;
  }

  // ---------- Keeping the table sound ----------

  /** Every entry of the table after a suffix was written: an old one, or a sound new one. */
  lemma {:induction false} EntryAfterSuffix(m: bytes, pos: nat, s: bytes, t: Table, w: bytes, k: bytes)
    requires Canonical(s) && SoundUpTo(m, t, |s|)
    requires EncodeSuffix(s, pos, t).out == Ok(w) && At(m, pos, w)
    requires t.Some? && EncodeSuffix(s, pos, t).table.Some? && k in EncodeSuffix(s, pos, t).table.value
    ensures (k in t.value && t.value[k] == EncodeSuffix(s, pos, t).table.value[k])
         || EntrySound(m, k, EncodeSuffix(s, pos, t).table.value[k])
    decreases |s|
  {
    if s != [] && s !in t.value {
      var rest := MissWrites(m, pos, s, t, w);
      RegisterKeepsShorter(m, t, s, pos);
      EntryAfterSuffix(m, pos + |Segment(s)|, Tail(s), Register(t, s, pos), rest, k);
      NewEntrySound(m, pos, s, t, w);
    }
  }

  /** A suffix that was not in the table has become a sound entry. */
  lemma NewEntrySound(m: bytes, pos: nat, s: bytes, t: Table, w: bytes)
    requires s != [] && Canonical(s) && SoundUpTo(m, t, |s|) && (t.None? || s !in t.value)
    requires EncodeSuffix(s, pos, t).out == Ok(w) && At(m, pos, w)
    ensures EntrySound(m, s, pos)
  {
    SuffixReadsBack(m, pos, s, t, w, pos + |w|);
    ChainIsShort(m, s, t);
    EntryFromRead(m, s, pos, pos + |w|, PointersOf(m, s, t), Labels(s) - 1);
  }

  lemma EntryFromRead(m: bytes, s: bytes, p: nat, end: nat, hops: nat, budget: nat)
    requires s != [] && Canonical(s) && budget == Labels(s) - 1 && hops <= budget && Reads(m, p, s, end, hops)
    ensures EntrySound(m, s, p)
  {
    BudgetIsExact(m, p, hops, budget);
  }

  lemma {:induction false} TableStaysSome(s: bytes, pos: nat, t: Table)
    requires Canonical(s)
    ensures EncodeSuffix(s, pos, t).table.Some? == t.Some?
    decreases |s|
  {
    if s != [] && s[0] != DOT && (t.None? || s !in t.value) && FirstDot(s) < SEGMENT_LIMIT {
      TableStaysSome(Tail(s), pos + |Segment(s)|, Register(t, s, pos));
    }
  }

  lemma TableAfterSuffix(m: bytes, pos: nat, s: bytes, t: Table, w: bytes)
    requires Canonical(s) && TableSound(m, t)
    requires EncodeSuffix(s, pos, t).out == Ok(w) && At(m, pos, w)
    ensures TableSound(m, EncodeSuffix(s, pos, t).table)
  {
    TableStaysSome(s, pos, t);
    var t' := EncodeSuffix(s, pos, t).table;
    if t'.Some? {
      forall k | k in t'.value ensures EntrySound(m, k, t'.value[k]) {
        EntryAfterSuffix(m, pos, s, t, w, k);
      }
    }
  }

  // ---------- Names ----------

  /** Writing a name keeps the table sound. */
  lemma PackedNameKeepsTable(m: bytes, pos: nat, n: bytes, t: Table, w: bytes)
    requires TableSound(m, t) && EncodeName(n, pos, t).out == Ok(w) && At(m, pos, w)
    ensures TableSound(m, EncodeName(n, pos, t).table)
  {
    if n != [DOT] {
      TableAfterSuffix(m, pos, n, t, w);
    }
  }

  /** A name written with a sound table is read back, and the reader accepts it exactly when it
      costs at most ten pointers. */
  lemma PackedNameReadsBack(m: bytes, pos: nat, n: bytes, t: Table, w: bytes)
    requires TableSound(m, t) && EncodeName(n, pos, t).out == Ok(w) && At(m, pos, w)
    ensures DecodeName(m, pos)
         == if PointersUsed(m, n, t) <= MAX_POINTERS then Ok(NameEnd(n, pos + |w|)) else Err(TooManyPtr)
  {
    if n == [DOT] {
      assert m[pos] == w[0];
    } else {
      SuffixReadsBack(m, pos, n, t, w, pos + |w|);
      LimitedRead(m, pos, n, pos + |w|, PointersOf(m, n, t));
    }
  }

  lemma LimitedRead(m: bytes, pos: nat, n: bytes, end: nat, hops: nat)
    requires 0 < |n| <= NAME_MAX && Reads(m, pos, n, end, hops)
    ensures DecodeName(m, pos) == if hops <= MAX_POINTERS then Ok(NameEnd(n, end)) else Err(TooManyPtr)
  {
    BudgetIsExact(m, pos, hops, MAX_POINTERS);
  }

  /** The pointers that reading the name `n` back will cost. */
  ghost function PointersUsed(m: bytes, n: bytes, t: Table): nat {
    if !Canonical(n) || n == [DOT] then 0 else PointersOf(m, n, t)
  }

  /** Never more than the name has segments: names of up to ten never meet the reader's limit. */
  lemma PointersBounded(m: bytes, n: bytes, t: Table)
    requires TableSound(m, t) && Canonical(n)
    ensures PointersUsed(m, n, t) <= Labels(n)
  {
    ChainIsShort(m, n, t);
  }
}
