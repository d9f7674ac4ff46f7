/** The compressing name writer, and what its table of suffixes promises to the reader
    (internal/dnsmessage/message.go). */
module Compression {
  import opened Wire
  import opened Names

  /** An offset that a compression pointer can carry: 14 bits. */
  type Pointer14 = x: int | 0 <= x < POINTER_LIMIT
  type Table = Option<map<bytes, Pointer14>>

  /** What a writer appends, or its error, with the table as it is left even when the write fails. */
  datatype Encoded = Encoded(out: Result<bytes>, table: Table)

  // ---------- The writer as a function of its position ----------

  predicate Canonical(s: bytes) {
    s != [] ==> s[|s| - 1] == DOT
  }

  /** The length of the first segment. */
  function FirstDot(s: bytes): (j: nat)
    requires s != [] && Canonical(s)
    ensures j < |s| && s[j] == DOT
  {
    DotFrom(s, 0)
  }

  function DotFrom(s: bytes, i: nat): (j: nat)
    requires i < |s| && Canonical(s)
    ensures i <= j < |s| && s[j] == DOT
    decreases |s| - i
  {
    if s[i] == DOT then i else DotFrom(s, i + 1)
  }

  lemma {:induction false} NoDotBefore(s: bytes, i: nat)
    requires i < |s| && Canonical(s)
    ensures forall k :: i <= k < DotFrom(s, i) ==> s[k] != DOT
    decreases |s| - i
  {
    if s[i] != DOT {
      NoDotBefore(s, i + 1);
    }
  }

  function PointerBytes(p: Pointer14): bytes {
    [POINTER_TAG + p / 0x100, p % 0x100]
  }

  function Register(t: Table, s: bytes, pos: nat): Table {
    if t.Some? && pos < POINTER_LIMIT then Some(t.value[s := pos]) else t
  }

  /** The bytes for the suffix `s` of a name, when they start at offset `pos` of the message. */
  function EncodeSuffix(s: bytes, pos: nat, t: Table): Encoded
    requires Canonical(s)
    decreases |s|
  {
    if s == [] then Encoded(Ok([0]), t)
    else if s[0] == DOT then Encoded(Err(ZeroSegLen), t)
    else if t.Some? && s in t.value then Encoded(Ok(PointerBytes(t.value[s])), t)
    else if FirstDot(s) >= SEGMENT_LIMIT then Encoded(Err(SegTooLong), Register(t, s, pos))
    else Prefixed(Segment(s), EncodeSuffix(Tail(s), pos + |Segment(s)|, Register(t, s, pos)))
  }

  /** The first segment on the wire: its length and its characters. */
  function Segment(s: bytes): (b: bytes)
    requires s != [] && Canonical(s) && FirstDot(s) < SEGMENT_LIMIT
    ensures |b| == 1 + FirstDot(s)
  {
    [FirstDot(s)] + s[..FirstDot(s)]
  }

  /** The suffix behind the first segment and its dot. */
  function Tail(s: bytes): (tail: bytes)
    requires s != [] && Canonical(s)
    ensures Canonical(tail) && |tail| < |s|
  {
    s[FirstDot(s) + 1..]
  }

  function Prefixed(head: bytes, e: Encoded): Encoded {
    Encoded(if e.out.Ok? then Ok(head + e.out.value) else e.out, e.table)
  }

  function EncodeName(n: bytes, pos: nat, t: Table): Encoded {
    if |n| > NAME_MAX then Encoded(Err(NameTooLong), t)
    else if n == [] || n[|n| - 1] != DOT then Encoded(Err(NonCanonicalName), t)
    else if n == [DOT] then Encoded(Ok([0]), t)
    else EncodeSuffix(n, pos, t)
  }

  /** The number of segments. */
  function Labels(s: bytes): nat
    requires Canonical(s)
  {
    if s == [] then 0 else 1 + Labels(Tail(s))
  }

  // ---------- The writer as the code runs it ----------

  method PackName(n: bytes, msg: bytes, table: Table, compressionOff: nat) returns (out: Result<bytes>, t: Table)
    requires compressionOff <= |msg|
    ensures Encoded(out, t) == Prefixed(msg, EncodeName(n, |msg| - compressionOff, table))
  {
    t := table;
    if |n| > NAME_MAX {
      return Err(NameTooLong), t;
    }
    // A trailing dot makes the name canonical.
    if |n| == 0 || n[|n| - 1] != DOT {
      return Err(NonCanonicalName), t;
    }
    if n[0] == DOT && |n| == 1 {
      return Ok(msg + [0]), t;
    }
    assert n[0..] == n;
    ScanWrites(n, 0, |msg| - compressionOff, table);
    var buf: bytes := msg;
    var begin: nat := 0;
    for i := 0 to |n|
      invariant begin <= i && |buf| >= compressionOff
      invariant Prefixed(buf, Scan(n, i, begin, |buf| - compressionOff, t))
             == Prefixed(msg, Scan(n, 0, 0, |msg| - compressionOff, table))
    {
      if n[i] == DOT {
        // A longer segment would need the two top bits of its length byte.
        if i - begin >= SEGMENT_LIMIT {
          return Err(SegTooLong), t;
        }
        if i - begin == 0 {
          return Err(ZeroSegLen), t;
        }
        PrefixedTwice(buf, [i - begin] + n[begin..i], Scan(n, i + 1, i + 1, |buf| - compressionOff + 1 + i - begin, t));
        buf := buf + ([i - begin] + n[begin..i]);
        begin := i + 1;
        continue;
      }
      if i == begin && t.Some? {
        if n[i..] in t.value {
          return Ok(buf + PointerBytes(t.value[n[i..]])), t;
        }
        // A miss: remember the suffix if its offset fits a pointer.
        if |buf| - compressionOff < POINTER_LIMIT {
          t := Some(t.value[n[i..] := |buf| - compressionOff]);
        }
      }
    }
    return Ok(buf + [0]), t;
  }

  lemma PrefixedTwice(msg: bytes, head: bytes, e: Encoded)
    ensures Prefixed(msg, Prefixed(head, e)) == Prefixed(msg + head, e)
  {
    if e.out.Ok? {
      assert msg + (head + e.out.value) == msg + head + e.out.value;
    }
  }

  /** What the loop of PackName still appends at `pos`, from character `i` of the segment that starts at `begin`. */
  ghost function Scan(n: bytes, i: nat, begin: nat, pos: nat, t: Table): Encoded
    requires begin <= i <= |n|
    decreases |n| - i
  {
    if i == |n| then Encoded(Ok([0]), t)
    else if n[i] == DOT then
      if i - begin >= SEGMENT_LIMIT then Encoded(Err(SegTooLong), t)
      else if i == begin then Encoded(Err(ZeroSegLen), t)
      else Prefixed([i - begin] + n[begin..i], Scan(n, i + 1, i + 1, pos + 1 + i - begin, t))
    else if i == begin && t.Some? && n[i..] in t.value then Encoded(Ok(PointerBytes(t.value[n[i..]])), t)
    else Scan(n, i + 1, begin, pos, if i == begin then Register(t, n[i..], pos) else t)
  }

  /** From inside a segment, the loop reaches the segment's end without further changes. */
  lemma {:induction false} ScanSegment(n: bytes, i: nat, begin: nat, dot: nat, pos: nat, t: Table)
    requires begin < i <= dot < |n|
    requires n[dot] == DOT && forall k :: i <= k < dot ==> n[k] != DOT
    ensures Scan(n, i, begin, pos, t) == Scan(n, dot, begin, pos, t)
    decreases dot - i
  {
    if i < dot {
      ScanSegment(n, i + 1, begin, dot, pos, t);
    }
  }

  lemma ScanMiss(n: bytes, begin: nat, pos: nat, t: Table)
    requires begin < |n| && Canonical(n[begin..]) && n[begin] != DOT && (t.None? || n[begin..] !in t.value)
    ensures var j := FirstDot(n[begin..]);
            Scan(n, begin, begin, pos, t) == Scan(n, begin + j, begin, pos, Register(t, n[begin..], pos))
    ensures var j := FirstDot(n[begin..]); 0 < j && begin + j < |n| && n[begin + j] == DOT
  {
    var s := n[begin..];
    var j := FirstDot(s);
    NoDotBefore(s, 0);
    forall k | begin <= k < begin + j ensures n[k] != DOT {
      assert s[k - begin] == n[k];
    }
    ScanSegment(n, begin + 1, begin, begin + j, pos, Register(t, s, pos));
  }

  /** Character by character or segment by segment: the loop writes what EncodeSuffix says. */
  lemma {:induction false} ScanWrites(n: bytes, begin: nat, pos: nat, t: Table)
    requires begin <= |n| && Canonical(n[begin..])
    ensures Scan(n, begin, begin, pos, t) == EncodeSuffix(n[begin..], pos, t)
    decreases |n| - begin
  {
    var s := n[begin..];
    if begin < |n| && s[0] != DOT && (t.None? || s !in t.value) {
      ScanMiss(n, begin, pos, t);
      var j := FirstDot(s);
      if j < SEGMENT_LIMIT {
        assert n[begin..begin + j] == s[..j];
        assert n[begin + j + 1..] == Tail(s);
        ScanWrites(n, begin + j + 1, pos + 1 + j, Register(t, s, pos));
      }
    }
  }
}
