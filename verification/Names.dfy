/** Domain names on the wire: reader, skippers and compressing writer
    (internal/dnsmessage/message.go, resolver/cache.go). */
module Names {
  import opened Wire

  const DOT: byte := 46
  const MAX_POINTERS := 10
  const NAME_MAX := 254
  const SEGMENT_LIMIT: int := 64   // 1 << 6: a length byte below it has its two top bits clear
  const POINTER_TAG: int := 192    // 0xC0: a length byte from here on has its two top bits set
  const POINTER_LIMIT := 0x4000

  /** What is known after reading a name: its text, where the next field starts, the pointers followed. */
  datatype Spelling<+T> = NameRead(name: T, end: nat, hops: nat)
  type NameRead = Spelling<bytes>

  datatype Located<+T> = NameEnd(name: T, end: nat)
  type NameEnd = Located<bytes>

  /** The text spelled at `off` when at most `budget` pointers may be followed. */
  function ReadName(m: bytes, off: nat, budget: nat): (r: Result<NameRead>)
    ensures r.Ok? ==> off < r.value.end <= |m| && r.value.hops <= budget
    decreases budget, |m| - off
  {
    if off >= |m| then Err(BaseLen)
    else if m[off] == 0 then Ok(NameRead([], off + 1, 0))
    else if m[off] < SEGMENT_LIMIT then
      var end := off + 1 + m[off];
      if end > |m| then Err(CalcLen)
      else if HasDot(m, off + 1, end) then Err(InvalidName)
      else WithSegment(Slice(m, off + 1, m[off]), ReadName(m, end, budget))
    else if m[off] >= POINTER_TAG then
      if off + 1 >= |m| then Err(InvalidPtr)
      else if budget == 0 then Err(TooManyPtr)
      else ThroughPointer(off + 2, ReadName(m, PointerAt(m, off), budget - 1))
    else Err(Reserved)
  }

  predicate HasDot(m: bytes, from: nat, end: nat)
    requires end <= |m|
  {
    exists i :: from <= i < end && m[i] == DOT
  }

  function WithSegment(text: bytes, rest: Result<NameRead>): Result<NameRead> {
    match rest
    case Ok(r) => Ok(NameRead(text + [DOT] + r.name, r.end, r.hops))
    case Err(_) => rest
  }

  function ThroughPointer(end: nat, rest: Result<NameRead>): Result<NameRead> {
    match rest
    case Ok(r) => Ok(NameRead(r.name, end, r.hops + 1))
    case Err(_) => rest
  }

  function PointerAt(m: bytes, off: nat): nat
    requires off + 1 < |m| && m[off] >= POINTER_TAG
  {
    (m[off] as int - POINTER_TAG) * 0x100 + m[off + 1] as int
  }

  /** The name the reader reports, or its error. */
  function DecodeName(m: bytes, off: nat): (r: Result<NameEnd>)
    ensures r.Ok? ==> off < r.value.end <= |m| && 0 < |r.value.name| <= NAME_MAX
  {
    var read :- ReadName(m, off, MAX_POINTERS);
    Reported(read.name, read.end)
  }

  function Reported(name: bytes, end: nat): Result<NameEnd> {
    var name := if name == [] then [DOT] else name;
    if |name| > NAME_MAX then Err(NameTooLong) else Ok(NameEnd(name, end))
  }

  method UnpackName(m: bytes, off: nat) returns (r: Result<NameEnd>)
    ensures r == DecodeName(m, off)
  {
    var currOff: nat, newOff: nat, ptr: nat := off, off, 0;
    var name: bytes := [];
    ghost var read := ReadName(m, off, MAX_POINTERS);
    ghost var rest := read;
    NothingContinued(off, read);
    while true
      invariant ptr <= MAX_POINTERS
      invariant rest == ReadName(m, currOff, MAX_POINTERS - ptr)
      invariant read == Continued(name, newOff, ptr, rest)
      decreases MAX_POINTERS - ptr, |m| - currOff
    {
      if currOff >= |m| {
        return Err(BaseLen);
      }
      var c := m[currOff];
      if c == 0 {
        currOff := currOff + 1;
        break;
      } else if c < SEGMENT_LIMIT {
        var endOff: nat := currOff + 1 + c;
        if endOff > |m| {
          return Err(CalcLen);
        }
        // Reject names containing dots.
        if HasDot(m, currOff + 1, endOff) {
          return Err(InvalidName);
        }
        SegmentContinued(name, newOff, ptr, m, currOff, MAX_POINTERS - ptr);
        name := name + Slice(m, currOff + 1, c) + [DOT];
        currOff := endOff;
        rest := ReadName(m, currOff, MAX_POINTERS - ptr);
      } else if c >= POINTER_TAG {
        if currOff + 1 >= |m| {
          return Err(InvalidPtr);
        }
        PointerContinued(name, newOff, ptr, m, currOff, MAX_POINTERS - ptr);
        if ptr == 0 {
          newOff := currOff + 2;
        }
        ptr := ptr + 1;
        if ptr > MAX_POINTERS {
          return Err(TooManyPtr);
        }
        currOff := PointerAt(m, currOff);
        rest := ReadName(m, currOff, MAX_POINTERS - ptr);
      } else {
        return Err(Reserved);
      }
    }
    if ptr == 0 {
      newOff := currOff;
    }
    assert read == Ok(NameRead(name, newOff, ptr)) by {
      assert name + [] == name;
    }
    return Reported(name, newOff);
  }

  /** A read in progress: `name` collected, `ptr` pointers followed, `rest` still to come. */
  ghost function Continued(name: bytes, newOff: nat, ptr: nat, rest: Result<NameRead>): Result<NameRead> {
    if rest.Err? then rest
    else Ok(NameRead(name + rest.value.name, if ptr == 0 then rest.value.end else newOff, ptr + rest.value.hops))
  }

  lemma NothingContinued(newOff: nat, read: Result<NameRead>)
    ensures Continued([], newOff, 0, read) == read
  {
    if read.Ok? {
      assert [] + read.value.name == read.value.name;
    }
  }

  lemma SegmentContinued(name: bytes, newOff: nat, ptr: nat, m: bytes, off: nat, budget: nat)
    requires off < |m| && 0 < m[off] < SEGMENT_LIMIT && off + 1 + m[off] <= |m|
    requires !HasDot(m, off + 1, off + 1 + m[off])
    ensures Continued(name, newOff, ptr, ReadName(m, off, budget))
         == Continued(name + Slice(m, off + 1, m[off]) + [DOT], newOff, ptr, ReadName(m, off + 1 + m[off], budget))
  {
    var segment, rest := Slice(m, off + 1, m[off]), ReadName(m, off + 1 + m[off], budget);
    if rest.Ok? {
      assert name + (segment + [DOT] + rest.value.name) == name + segment + [DOT] + rest.value.name;
    }
  }

  lemma PointerContinued(name: bytes, newOff: nat, ptr: nat, m: bytes, off: nat, budget: nat)
    requires off + 1 < |m| && m[off] >= POINTER_TAG
    ensures Continued(name, newOff, ptr, ReadName(m, off, budget))
         == if budget == 0 then Err(TooManyPtr)
            else Continued(name, if ptr == 0 then off + 2 else newOff, ptr + 1, ReadName(m, PointerAt(m, off), budget - 1))
  {
  }

  // ---------- Skipping ----------

  /** Where a name ends, without following pointers. The end may lie one byte past the message
      when a pointer is cut in half: neither skipper checks for its second byte. */
  function SkipEnd(m: bytes, off: nat): (r: Result<nat>)
    ensures r.Ok? ==> off < r.value <= |m| + 1
    decreases |m| - off
  {
    if off >= |m| then Err(BaseLen)
    else if m[off] == 0 then Ok(off + 1)
    else if m[off] < SEGMENT_LIMIT then
      if off + 1 + m[off] > |m| then Err(CalcLen) else SkipEnd(m, off + 1 + m[off])
    else if m[off] >= POINTER_TAG then Ok(off + 2)
    else Err(Reserved)
  }

  method SkipName(m: bytes, off: nat) returns (r: Result<nat>)
    ensures r == SkipEnd(m, off)
  {
    var newOff: nat := off;
    while true
      invariant SkipEnd(m, newOff) == SkipEnd(m, off)
      decreases |m| - newOff
    {
      if newOff >= |m| {
        return Err(BaseLen);
      }
      var c := m[newOff];
      newOff := newOff + 1;
      if c < SEGMENT_LIMIT {
        if c == 0 {
          break;
        }
        newOff := newOff + c;
        if newOff > |m| {
          return Err(CalcLen);
        }
      } else if c >= POINTER_TAG {
        newOff := newOff + 1;
        break;
      } else {
        return Err(Reserved);
      }
    }
    return Ok(newOff);
  }

  /** What the resolver's skipper returns: the end relative to the start of its slice, 0 for an invalid name. */
  function RelativeSkip(msg: bytes): nat {
    match SkipEnd(msg, 0)
    case Ok(end) => end
    case Err(_) => 0
  }

  method ResolverSkipName(msg: bytes) returns (newOff: nat)
    ensures newOff == RelativeSkip(msg)
  {
    newOff := 0;
    while true
      invariant SkipEnd(msg, newOff) == SkipEnd(msg, 0)
      decreases |msg| - newOff
    {
      if newOff >= |msg| {
        return 0;
      }
      var c := msg[newOff];
      newOff := newOff + 1;
      if c < SEGMENT_LIMIT {
        if c == 0 {
          break;
        }
        newOff := newOff + c;
        if newOff > |msg| {
          return 0;
        }
      } else if c >= POINTER_TAG {
        newOff := newOff + 1;
        break;
      } else {
        return 0;
      }
    }
  }

  /** Skipping in the rest of a message is skipping in the message. */
  lemma {:induction false} SkipEndShift(m: bytes, off: nat, at: nat)
    requires off + at <= |m|
    ensures SkipEnd(m[off..], at) == match SkipEnd(m, off + at) case Ok(e) => Ok(e - off) case Err(e) => Err(e)
    decreases |m| - off - at
  {
    if off + at < |m| && 0 < m[off + at] < SEGMENT_LIMIT && off + at + 1 + m[off + at] <= |m| {
      SkipEndShift(m, off, at + 1 + m[off + at]);
    }
  }

  /** Three walkers, part one: the resolver's skipper and the parser's skipper are one function. */
  lemma SkippersAgree(m: bytes, off: nat)
    requires off <= |m|
    ensures RelativeSkip(m[off..]) == 0 <==> SkipEnd(m, off).Err?
    ensures SkipEnd(m, off).Ok? ==> RelativeSkip(m[off..]) == SkipEnd(m, off).value - off
  {
    SkipEndShift(m, off, 0);
  }

  /** Three walkers, part two: where the reader succeeds, the skippers land on its end. */
  lemma {:induction false} ReaderAndSkipperAgree(m: bytes, off: nat, budget: nat)
    requires ReadName(m, off, budget).Ok?
    ensures SkipEnd(m, off) == Ok(ReadName(m, off, budget).value.end)
    decreases |m| - off
  {
    if 0 < m[off] < SEGMENT_LIMIT {
      ReaderAndSkipperAgree(m, off + 1 + m[off], budget);
    }
  }
}
