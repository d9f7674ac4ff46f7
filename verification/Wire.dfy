/** Big-endian integers, byte strings and results shared by every wire format of the program. */
module Wire {
  type byte = x: int | 0 <= x < 0x100
  type uint16 = x: int | 0 <= x < 0x1_0000
  type uint32 = x: int | 0 <= x < 0x1_0000_0000
  type bytes = seq<byte>

  const MAX_UINT16 := 0xFFFF
  const MAX_UINT32 := 0xFFFF_FFFF

  datatype Option<+T> = None | Some(value: T)

  /** The error values of internal/dnsmessage, without the text that nestedError wraps around them. */
  datatype Error =
    | NotStarted | SectionDone
    | BaseLen | CalcLen | Reserved | TooManyPtr | InvalidPtr | InvalidName
    | NilResourceBody | ResourceLen | SegTooLong | NameTooLong | ZeroSegLen | ResTooLong
    | TooManyQuestions | TooManyAnswers | TooManyAuthorities | TooManyAdditionals
    | NonCanonicalName | StringTooLong

  datatype Result<+T> = Ok(value: T) | Err(error: Error) {
    predicate IsFailure() {
      Err?
    }

    function PropagateFailure<U>(): Result<U>
      requires Err?
    {
      Err(error)
    }

    function Extract(): T
      requires Ok?
    {
      value
    }
  }

  function U16(v: uint16): (b: bytes)
    ensures |b| == 2 && GetU16(b, 0) == v
  {
    [v / 0x100, v % 0x100]
  }

  function GetU16(m: bytes, off: nat): uint16
    requires off + 2 <= |m|
  {
    m[off] as int * 0x100 + m[off + 1] as int
  }

  function U32(v: uint32): (b: bytes)
    ensures |b| == 4 && GetU32(b, 0) == v
  {
    U16(v / 0x1_0000) + U16(v % 0x1_0000)
  }

  function GetU32(m: bytes, off: nat): uint32
    requires off + 4 <= |m|
  {
    GetU16(m, off) * 0x1_0000 + GetU16(m, off + 2)
  }

  /** `n` bytes of a message. */
  function Slice(m: bytes, off: nat, n: nat): (w: bytes)
    requires off + n <= |m|
    ensures |w| == n
  {
    seq(n, i requires 0 <= i < n => m[off + i])
  }

  /** The bytes `w` stand at `off`. */
  ghost predicate At(m: bytes, off: nat, w: bytes) {
    off + |w| <= |m| && forall i {:trigger w[i]} :: 0 <= i < |w| ==> m[off + i] == w[i]
  }

  lemma AtParts(m: bytes, off: nat, head: bytes, tail: bytes)
    requires At(m, off, head + tail)
    ensures At(m, off, head) && At(m, off + |head|, tail)
  {
    var w := head + tail;
    assert forall i {:trigger head[i]} :: 0 <= i < |head| ==> head[i] == w[i];
    assert forall i {:trigger tail[i]} :: 0 <= i < |tail| ==> tail[i] == w[|head| + i];
  }

  lemma WholeAt(m: bytes, head: bytes, tail: bytes)
    requires m == head + tail
    ensures At(m, 0, head) && At(m, |head|, tail) && |m| == |head| + |tail|
  {
  }

  lemma SliceAt(m: bytes, off: nat, w: bytes)
    requires At(m, off, w)
    ensures Slice(m, off, |w|) == w
  {
  }

  lemma U16At(m: bytes, off: nat, v: uint16)
    requires At(m, off, U16(v))
    ensures GetU16(m, off) == v
  {
    var w := U16(v);
    assert m[off] == w[0] && m[off + 1] == w[1];
  }

  lemma U32At(m: bytes, off: nat, v: uint32)
    requires At(m, off, U32(v))
    ensures GetU32(m, off) == v
  {
    AtParts(m, off, U16(v / 0x1_0000), U16(v % 0x1_0000));
    U16At(m, off, v / 0x1_0000);
    U16At(m, off + 2, v % 0x1_0000);
  }
}
