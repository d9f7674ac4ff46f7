/** The bytes that reading a name depends on, pointers included (internal/dnsmessage/message.go). */
module Footprints {
  import opened Wire
  import opened Names

  /** Reading the name at `off` looks at no byte of `hot`. */
  ghost predicate NameAvoids(m: bytes, off: nat, budget: nat, hot: iset<nat>)
    decreases budget, |m| - off
  {
    off < |m| ==>
      && off !in hot
      && (0 < m[off] < SEGMENT_LIMIT && off + 1 + m[off] <= |m| ==>
           RangeAvoids(off + 1, m[off], hot) && NameAvoids(m, off + 1 + m[off], budget, hot))
      && (m[off] >= POINTER_TAG && off + 1 < |m| ==>
           off + 1 !in hot && (budget > 0 ==> NameAvoids(m, PointerAt(m, off), budget - 1, hot)))
  }

  ghost predicate RangeAvoids(off: nat, n: nat, hot: iset<nat>) {
    forall i {:trigger i in hot} :: off <= i < off + n ==> i !in hot
  }

  ghost predicate AlikeBut(m: bytes, m': bytes, hot: iset<nat>) {
    |m'| == |m| && forall i {:trigger m'[i]} :: 0 <= i < |m| && i !in hot ==> m'[i] == m[i]
  }

  lemma RangeSame(m: bytes, m': bytes, hot: iset<nat>, off: nat, n: nat)
    requires AlikeBut(m, m', hot) && RangeAvoids(off, n, hot) && off + n <= |m|
    ensures forall i {:trigger m'[i]} :: off <= i < off + n ==> m'[i] == m[i]
    ensures Slice(m', off, n) == Slice(m, off, n)
    ensures n == 2 ==> GetU16(m', off) == GetU16(m, off)
    ensures n == 4 ==> GetU32(m', off) == GetU32(m, off)
  {
    forall i | off <= i < off + n ensures m'[i] == m[i] {
      assert i !in hot;
    }
  }

  lemma DotsSame(m: bytes, m': bytes, from: nat, end: nat)
    requires end <= |m| == |m'| && forall i {:trigger m'[i]} :: from <= i < end ==> m'[i] == m[i]
    ensures HasDot(m', from, end) == HasDot(m, from, end)
  {
    if HasDot(m, from, end) {
      var i :| from <= i < end && m[i] == DOT;
      assert m'[i] == DOT;
    }
  }

  lemma {:induction false} NameSame(m: bytes, m': bytes, off: nat, budget: nat, hot: iset<nat>)
    requires AlikeBut(m, m', hot) && NameAvoids(m, off, budget, hot)
    ensures ReadName(m', off, budget) == ReadName(m, off, budget)
    decreases budget, |m| - off
  {
    if off < |m| {
      assert m'[off] == m[off];
      if 0 < m[off] < SEGMENT_LIMIT {
        if off + 1 + m[off] <= |m| {
          RangeSame(m, m', hot, off + 1, m[off]);
          DotsSame(m, m', off + 1, off + 1 + m[off]);
          NameSame(m, m', off + 1 + m[off], budget, hot);
        }
      } else if m[off] >= POINTER_TAG && off + 1 < |m| {
        assert m'[off + 1] == m[off + 1];
        if budget > 0 {
          NameSame(m, m', PointerAt(m, off), budget - 1, hot);
        }
      }
    }
  }

  ghost predicate DecodedNameAvoids(m: bytes, off: nat, hot: iset<nat>) {
    NameAvoids(m, off, MAX_POINTERS, hot)
  }

  /** A name is read alike from any message that differs in bytes it does not look at. */
  lemma DecodedNameSame(m: bytes, m': bytes, off: nat, hot: iset<nat>)
    requires AlikeBut(m, m', hot) && DecodedNameAvoids(m, off, hot)
    ensures DecodeName(m', off) == DecodeName(m, off)
  {
    NameSame(m, m', off, MAX_POINTERS, hot);
  }
}
