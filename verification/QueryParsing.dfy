/** Parsing a client's query, and scrubbing the client subnet option of RFC 7871 from it (resolver/query/query.go). */
module QueryParsing {
  import opened Wire
  import opened Names
  import opened Footprints
  import opened Records
  import opened Messages
  import opened Sequences
  import opened Parsing
  import opened TtlProperties

  const EDNS0_SUBNET: uint16 := 8
  const EDNS0_MAC: uint16 := 0xFDE9
  const SCRUBBED_CODE: uint16 := 0xFFFF
  const MAX_DNS_SIZE: uint16 := 512

  // ---------- Scrubbing ----------

  /** Only options with an address of either family in at least eight bytes are scrubbed. */
  predicate Subnet(o: EdnsOption) {
    o.code == EDNS0_SUBNET && |o.data| >= 8 && o.data[1] in {1, 2}
  }

  /** The option stands in the message: code, length and data. */
  ghost predicate OptionAt(m: bytes, o: EdnsOption) {
    && 4 <= o.dataOffset && o.dataOffset + |o.data| <= |m| && |o.data| <= MAX_UINT16
    && GetU16(m, o.dataOffset - 4) == o.code && GetU16(m, o.dataOffset - 2) == |o.data|
    && Slice(m, o.dataOffset, |o.data|) == o.data
  }

  /** The bytes that scrubbing `o` changes: its code, and as much of its data as the low byte of its length says. */
  predicate Touches(o: EdnsOption, i: nat) {
    Subnet(o) && ((o.dataOffset <= i + 4 && i + 2 < o.dataOffset) || o.dataOffset <= i < o.dataOffset + |o.data| % 0x100)
  }

  /** The message after one option was scrubbed. The length of its data is taken from the low byte of its length
      field: options are taken to be shorter than 256 bytes. */
  function Nuttered(m: bytes, o: EdnsOption): (r: bytes)
    ensures |r| == |m|
  {
    if o.dataOffset < 4 || o.dataOffset >= |m| || o.dataOffset + m[o.dataOffset - 1] > |m| then m
    else
      seq(|m|, i requires 0 <= i < |m| =>
        if o.dataOffset <= i + 4 && i + 2 < o.dataOffset then 0xFF
        else if o.dataOffset <= i < o.dataOffset + m[o.dataOffset - 1] then 0
        else m[i])
  }

  method NutterEcsOption(payload: array<byte>, o: EdnsOption)
    modifies payload
    ensures payload[..] == Nuttered(old(payload[..]), o)
  {
    ghost var m := payload[..];
    var off := o.dataOffset - 4;
    if off < 0 || off + 4 >= payload.Length {
      return;
    }
    var size := payload[off + 3];
    var endOff := off + 4 + size;
    if endOff > payload.Length {
      return;
    }
    for i := o.dataOffset to endOff
      invariant forall k :: 0 <= k < payload.Length ==> payload[k] == if o.dataOffset <= k < i then 0 else m[k]
    {
      payload[i] := 0;
    }
    // An invalid code, so that the upstream does not take the option for a request.
    payload[off] := 0xFF;
    payload[off + 1] := 0xFF;
  }

  /** For an option that stands in the message this is its code, and its data modulo 256. */
  lemma NutteredOption(m: bytes, m': bytes, o: EdnsOption, i: nat)
    requires OptionAt(m, o) && |o.data| > 0 && |m'| == |m| && i < |m| && m'[o.dataOffset - 1] == m[o.dataOffset - 1]
    ensures Nuttered(m', o)[i]
         == if o.dataOffset <= i + 4 && i + 2 < o.dataOffset then 0xFF
            else if o.dataOffset <= i < o.dataOffset + |o.data| % 0x100 then 0
            else m'[i]
  {
    assert GetU16(m, o.dataOffset - 2) == m[o.dataOffset - 2] as int * 0x100 + m[o.dataOffset - 1] as int;
    assert m[o.dataOffset - 1] == |o.data| % 0x100;
  }

  function Scrubbed(m: bytes, options: seq<EdnsOption>): (r: bytes)
    ensures |r| == |m|
    decreases |options|
  {
    if options == [] then m
    else
      var k := |options| - 1;
      var before := Scrubbed(m, options[..k]);
      if Subnet(options[k]) then Nuttered(before, options[k]) else before
  }

  /** Options one behind the other in the message. */
  ghost predicate OptionsAt(m: bytes, options: seq<EdnsOption>, off: nat)
    decreases |options|
  {
    options != [] ==>
      && OptionAt(m, options[0]) && options[0].dataOffset == off + 4
      && OptionsAt(m, options[1..], off + 4 + |options[0].data|)
  }

  lemma {:induction false} DecodedOptionsAt(m: bytes, off: nat, end: nat)
    requires DecodeOptions(m, off, end).Ok?
    ensures OptionsAt(m, DecodeOptions(m, off, end).value, off)
    decreases |m| - off
  {
    if off < end {
      var options := DecodeOptions(m, off, end).value;
      var next := off + 4 + GetU16(m, off + 2);
      DecodedOptionsAt(m, next, end);
      assert options[1..] == DecodeOptions(m, next, end).value;
    }
  }

  lemma {:induction false} OptionPlace(m: bytes, options: seq<EdnsOption>, off: nat, j: nat)
    requires OptionsAt(m, options, off) && j < |options|
    ensures OptionAt(m, options[j]) && options[j].dataOffset >= off + 4
    decreases j
  {
    if j > 0 {
      OptionPlace(m, options[1..], off + 4 + |options[0].data|, j - 1);
    }
  }

  /** Later options lie behind earlier ones. */
  lemma {:induction false} OptionsApart(m: bytes, options: seq<EdnsOption>, off: nat, j: nat, k: nat)
    requires OptionsAt(m, options, off) && j < k < |options|
    ensures options[j].dataOffset + |options[j].data| + 4 <= options[k].dataOffset
    decreases j
  {
    if j == 0 {
      OptionPlace(m, options[1..], off + 4 + |options[0].data|, k - 1);
    } else {
      OptionsApart(m, options[1..], off + 4 + |options[0].data|, j - 1, k - 1);
    }
  }

  /** The bytes changed by scrubbing. */
  ghost predicate InTouched(options: seq<EdnsOption>, i: nat) {
    exists j {:trigger options[j]} :: 0 <= j < |options| && Touches(options[j], i)
  }

  /** What scrubbing the first `n` options leaves of the bytes of option `j`. */
  lemma {:induction false} ScrubbedUpTo(m: bytes, options: seq<EdnsOption>, off: nat, j: nat, i: nat, n: nat)
    requires OptionsAt(m, options, off) && j < |options| && i < |m| && n <= |options|
    requires options[j].dataOffset <= i + 4 && i < options[j].dataOffset + |options[j].data|
    ensures Scrubbed(m, options[..n])[i] == if Subnet(options[j]) && j < n then Nuttered(m, options[j])[i] else m[i]
    decreases n, 1
  {
    if n > 0 {
      var k := n - 1;
      assert options[..n][..k] == options[..k] && options[..n][k] == options[k];
      ScrubbedUpTo(m, options, off, j, i, k);
      OptionPlace(m, options, off, j);
      if Subnet(options[k]) {
        NutteredStep(m, options, off, j, i, k);
      }
    }
  }

  lemma NutteredStep(m: bytes, options: seq<EdnsOption>, off: nat, j: nat, i: nat, k: nat)
    requires OptionsAt(m, options, off) && j < |options| && i < |m| && k < |options| && Subnet(options[k])
    requires options[j].dataOffset <= i + 4 && i < options[j].dataOffset + |options[j].data|
    ensures var before := Scrubbed(m, options[..k]);
      Nuttered(before, options[k])[i] == if j == k then Nuttered(m, options[k])[i] else before[i]
    decreases k, 2
  {
    var before := Scrubbed(m, options[..k]);
    OptionPlace(m, options, off, k);
    ScrubbedUpTo(m, options, off, k, options[k].dataOffset - 1, k);
    NutteredOption(m, before, options[k], i);
    NutteredOption(m, m, options[k], i);
    if k < j {
      OptionsApart(m, options, off, k, j);
    } else if j < k {
      OptionsApart(m, options, off, j, k);
    } else {
      ScrubbedUpTo(m, options, off, j, i, k);
    }
  }

  /** Every other byte of the message stays. */
  lemma {:induction false} ScrubbedFrame(m: bytes, options: seq<EdnsOption>, off: nat, i: nat, n: nat)
    requires OptionsAt(m, options, off) && i < |m| && n <= |options| && !InTouched(options, i)
    ensures Scrubbed(m, options[..n])[i] == m[i]
    decreases n
  {
    if n > 0 {
      var k := n - 1;
      assert options[..n][..k] == options[..k] && options[..n][k] == options[k];
      ScrubbedFrame(m, options, off, i, k);
      if Subnet(options[k]) {
        OptionPlace(m, options, off, k);
        ScrubbedUpTo(m, options, off, k, options[k].dataOffset - 1, k);
        NutteredOption(m, Scrubbed(m, options[..k]), options[k], i);
        assert !Touches(options[k], i);
      }
    }
  }

  // ---------- Reading the options again ----------

  /** The first bytes of the data are zero, as many as the low byte of its length says. */
  function Zeroed(data: bytes): (r: bytes)
    ensures |r| == |data|
  {
    seq(|data|, i requires 0 <= i < |data| => if i < |data| % 0x100 then 0 else data[i])
  }

  function ScrubbedOption(o: EdnsOption): EdnsOption {
    if Subnet(o) then EdnsOption(SCRUBBED_CODE, Zeroed(o.data), o.dataOffset) else o
  }

  function ScrubbedOptions(options: seq<EdnsOption>): (r: seq<EdnsOption>)
    ensures |r| == |options|
  {
    seq(|options|, i requires 0 <= i < |options| => ScrubbedOption(options[i]))
  }

  lemma ScrubbedOptionAt(m: bytes, options: seq<EdnsOption>, off: nat, j: nat)
    requires OptionsAt(m, options, off) && j < |options|
    ensures var o := options[j];
      && OptionAt(m, o) && OptionAt(Scrubbed(m, options), ScrubbedOption(o)) && |ScrubbedOption(o).data| == |o.data|
  {
    var o, m' := options[j], Scrubbed(m, options);
    OptionPlace(m, options, off, j);
    assert options[..|options|] == options;
    forall i | o.dataOffset <= i + 4 && i < o.dataOffset + |o.data|
      ensures m'[i] == if !Subnet(o) then m[i]
                       else if i + 2 < o.dataOffset then 0xFF
                       else if o.dataOffset <= i < o.dataOffset + |o.data| % 0x100 then 0
                       else m[i]
    {
      ScrubbedUpTo(m, options, off, j, i, |options|);
      if Subnet(o) {
        NutteredOption(m, m, o, i);
      }
    }
    ScrubbedBytesAt(m, m', o);
  }

  lemma ScrubbedBytesAt(m: bytes, m': bytes, o: EdnsOption)
    requires OptionAt(m, o) && |m'| == |m|
    requires forall i {:trigger m'[i]} :: o.dataOffset <= i + 4 && i < o.dataOffset + |o.data| ==>
      m'[i] == if !Subnet(o) then m[i]
               else if i + 2 < o.dataOffset then 0xFF
               else if o.dataOffset <= i < o.dataOffset + |o.data| % 0x100 then 0
               else m[i]
    ensures OptionAt(m', ScrubbedOption(o)) && |ScrubbedOption(o).data| == |o.data|
  {
    forall k | 0 <= k < |o.data| ensures m[o.dataOffset + k] == o.data[k] {
      assert Slice(m, o.dataOffset, |o.data|)[k] == o.data[k];
    }
    assert Slice(m', o.dataOffset, |o.data|) == ScrubbedOption(o).data;
  }

  /** Reading the options of the scrubbed message gives the scrubbed options, at the same places. */
  lemma {:induction false} OptionsReread(m: bytes, off: nat, start: nat, end: nat, options: seq<EdnsOption>, j: nat)
    requires j <= |options| && OptionsAt(m, options, start) && DecodeOptions(m, off, end) == Ok(options[j..])
    ensures DecodeOptions(Scrubbed(m, options), off, end) == Ok(ScrubbedOptions(options[j..]))
    decreases |options| - j
  {
    if off < end {
      var next := FirstOption(m, off, end, options, j);
      ScrubbedOptionAt(m, options, start, j);
      OptionsReread(m, next, start, end, options, j + 1);
      OptionThenRest(Scrubbed(m, options), off, end, ScrubbedOption(options[j]), ScrubbedOptions(options[j + 1..]));
      assert ScrubbedOptions(options[j..]) == [ScrubbedOption(options[j])] + ScrubbedOptions(options[j + 1..]);
    }
  }

  lemma FirstOption(m: bytes, off: nat, end: nat, options: seq<EdnsOption>, j: nat) returns (next: nat)
    requires off < end && j <= |options| && DecodeOptions(m, off, end) == Ok(options[j..])
    ensures j < |options| && options[j].dataOffset == off + 4 && next == off + 4 + |options[j].data|
    ensures DecodeOptions(m, next, end) == Ok(options[j + 1..])
  {
    next := off + 4 + GetU16(m, off + 2);
    var first := EdnsOption(GetU16(m, off), Slice(m, off + 4, GetU16(m, off + 2)), off + 4);
    assert options[j..] == [first] + DecodeOptions(m, next, end).value;
    assert |options[j..]| > 0;
    assert options[j..][0] == options[j] && options[j..][1..] == options[j + 1..];
  }

  lemma OptionThenRest(m: bytes, off: nat, end: nat, o: EdnsOption, rest: seq<EdnsOption>)
    requires off < end && OptionAt(m, o) && o.dataOffset == off + 4
    requires DecodeOptions(m, off + 4 + |o.data|, end) == Ok(rest)
    ensures DecodeOptions(m, off, end) == Ok([o] + rest)
  {
  }

  /** After scrubbing, the same number of options of the same lengths is found at the same places; none of them is
      a client subnet of either family in eight bytes or more; and its data is all zero if it is shorter than 256. */
  lemma NoSubnetLeft(m: bytes, off: nat, end: nat)
    requires DecodeOptions(m, off, end).Ok?
    ensures var options := DecodeOptions(m, off, end).value;
      && DecodeOptions(Scrubbed(m, options), off, end) == Ok(ScrubbedOptions(options))
      && (forall o :: o in ScrubbedOptions(options) ==> !Subnet(o))
      && Scrubbed(Scrubbed(m, options), ScrubbedOptions(options)) == Scrubbed(m, options)
  {
    var options := DecodeOptions(m, off, end).value;
    DecodedOptionsAt(m, off, end);
    assert options[0..] == options;
    OptionsReread(m, off, off, end, options, 0);
    NothingToScrub(Scrubbed(m, options), ScrubbedOptions(options));
  }

  /** The data at `d` is that of a client subnet option, in numbers: code 8, eight bytes or more, family 1 or 2. */
  predicate SubnetAt(m: bytes, d: nat) {
    && 4 <= d <= |m| && GetU16(m, d - 4) == 8 && d + GetU16(m, d - 2) <= |m| && GetU16(m, d - 2) >= 8
    && (m[d + 1] == 1 || m[d + 1] == 2)
  }

  /** Scrubbing reaches byte `i` on account of the option whose data is at `d`: its code, and as much of its data as the low
      byte of its length says. */
  predicate ScrubReaches(m: bytes, d: nat, i: nat) {
    SubnetAt(m, d) && (i + 4 == d || i + 3 == d || d <= i < d + m[d - 1])
  }

  /** Every byte of the scrubbed message: 255 twice for the code of a client subnet option, zeros for its data, and nothing else
      has changed. */
  lemma ScrubbedByte(m: bytes, off: nat, end: nat, options: seq<EdnsOption>, i: nat)
    requires DecodeOptions(m, off, end) == Ok(options) && i < |m|
    ensures forall j :: 0 <= j < |options| && ScrubReaches(m, options[j].dataOffset, i) ==>
      Scrubbed(m, options)[i] == if i < options[j].dataOffset then 255 else 0
    ensures (forall j :: 0 <= j < |options| ==> !ScrubReaches(m, options[j].dataOffset, i)) ==> Scrubbed(m, options)[i] == m[i]
  {
    DecodedOptionsAt(m, off, end);
    assert options[..|options|] == options;
    forall j | 0 <= j < |options|
      ensures ScrubReaches(m, options[j].dataOffset, i) <==> Touches(options[j], i)
      ensures Touches(options[j], i) ==> Scrubbed(m, options)[i] == if i < options[j].dataOffset then 255 else 0
    {
      OptionPlace(m, options, off, j);
      ReachesTouches(m, options[j], i);
      if Touches(options[j], i) {
        ScrubbedUpTo(m, options, off, j, i, |options|);
        NutteredOption(m, m, options[j], i);
      }
    }
    if !InTouched(options, i) {
      ScrubbedFrame(m, options, off, i, |options|);
    }
  }

  lemma ReachesTouches(m: bytes, o: EdnsOption, i: nat)
    requires OptionAt(m, o)
    ensures ScrubReaches(m, o.dataOffset, i) <==> Touches(o, i)
  {
    var d := o.dataOffset;
    if |o.data| >= 8 {
      assert Slice(m, d, |o.data|)[1] == m[d + 1];
    }
    assert GetU16(m, d - 2) == m[d - 2] as int * 0x100 + m[d - 1] as int;
    assert m[d - 1] == |o.data| % 0x100;
  }

  lemma {:induction false} NothingToScrub(m: bytes, options: seq<EdnsOption>)
    requires forall o :: o in options ==> !Subnet(o)
    ensures Scrubbed(m, options) == m
    decreases |options|
  {
    if options != [] {
      NothingToScrub(m, options[..|options| - 1]);
    }
  }

  /** The data of a scrubbed option is all zero exactly if its bytes beyond the low byte of its length were. */
  lemma ZeroedCompletely(data: bytes)
    ensures (forall i :: 0 <= i < |data| ==> Zeroed(data)[i] == 0) <==> (forall i :: |data| % 0x100 <= i < |data| ==> data[i] == 0)
    ensures |data| < 0x100 ==> forall i :: 0 <= i < |data| ==> Zeroed(data)[i] == 0
  {
    if forall i :: 0 <= i < |data| ==> Zeroed(data)[i] == 0 {
      forall i | |data| % 0x100 <= i < |data| ensures data[i] == 0 {
        assert Zeroed(data)[i] == data[i];
      }
    }
  }

  // ---------- Parsing ----------

  /** What stands in front of the first additional record, and that record's header. */
  datatype Front = NoQuery(error: Error) | NoAdditional(question: Question) | Additional(question: Question, at: nat, header: HeaderEnd)

  /** Failures to skip the other sections only show when the additional section turns out not to have started. */
  function FrontOf(m: bytes): Front {
    if |m| < HEADER_LEN then NoQuery(BaseLen)
    else
      var h := PartialHeader(m);
      if h.questions == 0 then NoQuery(SectionDone)
      else
        match DecodeQuestion(m, HEADER_LEN)
        case Err(e) => NoQuery(e)
        case Ok(q) =>
          match SectionsEnd(m, q.end, h)
          case Err(_) => NoQuery(NotStarted)
          case Ok(at) =>
            if h.additionals == 0 then NoAdditional(q.item)
            else
              match DecodeHeader(m, at)
              case Err(e) => NoQuery(e)
              case Ok(header) => Additional(q.item, at, header)
  }

  /** The offset behind the other questions, the answers and the authorities. */
  function SectionsEnd(m: bytes, off: nat, h: WireHeader): Result<nat>
    requires h.questions > 0
  {
    match SkipItems(SkipQuestion, m, off, h.questions - 1)
    case Err(e) => Err(e)
    case Ok(e1) =>
      match SkipItems(SkipResource, m, e1, h.answers)
      case Err(e) => Err(e)
      case Ok(e2) => SkipItems(SkipResource, m, e2, h.authorities)
  }

  /** The options of the first additional record, if it is an OPT record. */
  function OptionsOf(m: bytes, h: HeaderEnd): Result<seq<EdnsOption>> {
    DecodeOptions(m, h.end, h.end + h.header.length)
  }

  /** The parse never ends on a query whose first additional record is not OPT. */
  predicate Stuck(m: bytes) {
    FrontOf(m).Additional? && FrontOf(m).header.header.typ != TYPE_OPT
  }

  /** What a parse finds: the header (of which the id and the wish for recursion are kept), the question, and what the
      options of an OPT record say. */
  datatype ClientQuery<+T> = ClientQuery(header: Header, question: Question, msgSize: uint16, mac: Option<T>, peerIp: Option<T>)
  type Client = ClientQuery<bytes>

  /** Later options override earlier ones. */
  function WithOption(c: Client, o: EdnsOption): Client {
    if o.code == EDNS0_MAC then c.(mac := Some(o.data))
    else if o.code == EDNS0_SUBNET && |o.data| >= 8 then
      // Only full addresses count.
      if o.data[1] == 1 && o.data[2] == 32 then c.(peerIp := Some(o.data[4..8]))
      else if o.data[1] == 2 && o.data[2] == 128 && |o.data| >= 20 then c.(peerIp := Some(o.data[4..20]))
      else c
    else c
  }

  function WithOptions(c: Client, options: seq<EdnsOption>): Client
    decreases |options|
  {
    if options == [] then c else WithOption(WithOptions(c, options[..|options| - 1]), options[|options| - 1])
  }

  // ---------- What the options say, on the bytes of the message ----------

  /** The options between `off` and `end`, one behind the other. The last one may end behind `end`. */
  ghost predicate StandBetween(m: bytes, off: nat, end: nat, options: seq<EdnsOption>)
    decreases |options|
  {
    if options == [] then off >= end
    else off < end && OptionAt(m, options[0]) && options[0].dataOffset == off + 4
         && StandBetween(m, off + 4 + |options[0].data|, end, options[1..])
  }

  /** The reader finds these and no others. */
  lemma {:induction false} OptionsExactly(m: bytes, off: nat, end: nat, options: seq<EdnsOption>)
    ensures DecodeOptions(m, off, end) == Ok(options) <==> StandBetween(m, off, end, options)
    decreases |options|
  {
    if off < end {
      if options != [] {
        OptionsExactly(m, off + 4 + |options[0].data|, end, options[1..]);
        if OptionAt(m, options[0]) && options[0].dataOffset == off + 4 {
          assert options == [options[0]] + options[1..];
        }
        if DecodeOptions(m, off, end) == Ok(options) {
          var rest := DecodeOptions(m, off + 4 + GetU16(m, off + 2), end).value;
          assert options[1..] == rest;
        }
      }
    }
  }

  /** The data at `d` is that of a client subnet option with a whole address: family 1 and 32 bits in eight bytes or more, or
      family 2 and 128 bits in twenty or more. */
  predicate AddressAt(m: bytes, d: nat) {
    && 4 <= d <= |m| && GetU16(m, d - 4) == 8 && d + GetU16(m, d - 2) <= |m| && GetU16(m, d - 2) >= 8
    && ((m[d + 1] == 1 && m[d + 2] == 32) || (m[d + 1] == 2 && m[d + 2] == 128 && GetU16(m, d - 2) >= 20))
  }

  /** The address itself: four or sixteen bytes behind family and prefix lengths. */
  function AddressBytes(m: bytes, d: nat): bytes
    requires AddressAt(m, d)
  {
    if m[d + 1] == 1 then m[d + 4..d + 8] else m[d + 4..d + 20]
  }

  function AddressIn(m: bytes, d: nat): Option<bytes> {
    if AddressAt(m, d) then Some(AddressBytes(m, d)) else None
  }

  /** The data at `d`, if it is that of a hardware address option. */
  function HardwareIn(m: bytes, d: nat): Option<bytes> {
    if 4 <= d <= |m| && GetU16(m, d - 4) == 0xFDE9 && d + GetU16(m, d - 2) <= |m| then Some(m[d..d + GetU16(m, d - 2)]) else None
  }

  /** What `pick` takes from the place of each option's data. */
  function ValuesIn(pick: (bytes, nat) -> Option<bytes>, m: bytes, options: seq<EdnsOption>): (r: seq<Option<bytes>>)
    ensures |r| == |options|
  {
    seq(|options|, j requires 0 <= j < |options| => pick(m, options[j].dataOffset))
  }

  /** The last of the values that are there; none exactly if there is none. */
  ghost predicate Latest(values: seq<Option<bytes>>, r: Option<bytes>) {
    && (r.None? <==> forall j :: 0 <= j < |values| ==> values[j].None?)
    && forall j :: 0 <= j < |values| && values[j].Some? && (forall k :: j < k < |values| ==> values[k].None?) ==> r == values[j]
  }

  lemma LatestOneMore(values: seq<Option<bytes>>, r: Option<bytes>, v: Option<bytes>)
    requires Latest(values, r)
    ensures Latest(values + [v], if v.Some? then v else r)
  {
    var more := values + [v];
    assert more[|values|] == v;
    assert forall j :: 0 <= j < |values| ==> more[j] == values[j];
    forall j | 0 <= j < |more| && more[j].Some? && (forall k :: j < k < |more| ==> more[k].None?)
      ensures more[j] == if v.Some? then v else r
    {
      if j < |values| {
        assert forall k :: j < k < |values| ==> values[k] == more[k];
      }
    }
    if v.None? && r.Some? {
      var j :| 0 <= j < |values| && values[j].Some?;
      assert more[j].Some?;
    }
  }

  /** The client's address and its hardware address, as the last options that carry them have it. */
  ghost predicate Finds(m: bytes, options: seq<EdnsOption>, peerIp: Option<bytes>, mac: Option<bytes>) {
    Latest(ValuesIn(AddressIn, m, options), peerIp) && Latest(ValuesIn(HardwareIn, m, options), mac)
  }

  /** All but what the options say. */
  predicate SameButFound(c: Client, c': Client) {
    c'.header == c.header && c'.question == c.question && c'.msgSize == c.msgSize
  }

  lemma OneOptionFinds(m: bytes, c: Client, o: EdnsOption)
    requires OptionAt(m, o)
    ensures var ip, hardware, c' := AddressIn(m, o.dataOffset), HardwareIn(m, o.dataOffset), WithOption(c, o);
      && c'.peerIp == (if ip.Some? then ip else c.peerIp) && c'.mac == (if hardware.Some? then hardware else c.mac)
      && SameButFound(c, c')
  {
    var d := o.dataOffset;
    forall i | 0 <= i < |o.data| ensures o.data[i] == m[d + i] {
      assert Slice(m, d, |o.data|)[i] == m[d + i];
    }
    assert o.data == m[d..d + |o.data|];
    if AddressAt(m, d) {
      assert AddressBytes(m, d) == if m[d + 1] == 1 then o.data[4..8] else o.data[4..20];
    }
  }

  lemma {:induction false} OptionsFind(m: bytes, c: Client, options: seq<EdnsOption>)
    requires c.peerIp.None? && c.mac.None? && forall j :: 0 <= j < |options| ==> OptionAt(m, options[j])
    ensures var c' := WithOptions(c, options); Finds(m, options, c'.peerIp, c'.mac) && SameButFound(c, c')
    decreases |options|
  {
    if options != [] {
      var k := |options| - 1;
      var before := WithOptions(c, options[..k]);
      OptionsFind(m, c, options[..k]);
      OneOptionFinds(m, before, options[k]);
      FoundOneMore(m, options, k, before.peerIp, before.mac);
    }
  }

  lemma FoundOneMore(m: bytes, options: seq<EdnsOption>, k: nat, peerIp: Option<bytes>, mac: Option<bytes>)
    requires |options| == k + 1 && Finds(m, options[..k], peerIp, mac)
    ensures var ip, hardware := AddressIn(m, options[k].dataOffset), HardwareIn(m, options[k].dataOffset);
      Finds(m, options, if ip.Some? then ip else peerIp, if hardware.Some? then hardware else mac)
  {
    LatestAmongMore(AddressIn, m, options, k, peerIp);
    LatestAmongMore(HardwareIn, m, options, k, mac);
  }

  lemma LatestAmongMore(pick: (bytes, nat) -> Option<bytes>, m: bytes, options: seq<EdnsOption>, k: nat, r: Option<bytes>)
    requires |options| == k + 1 && Latest(ValuesIn(pick, m, options[..k]), r)
    ensures var v := pick(m, options[k].dataOffset); Latest(ValuesIn(pick, m, options), if v.Some? then v else r)
  {
    var v := pick(m, options[k].dataOffset);
    LatestOneMore(ValuesIn(pick, m, options[..k]), r, v);
    assert ValuesIn(pick, m, options) == ValuesIn(pick, m, options[..k]) + [v];
  }

  /** What is found in the options between `off` and `end`. */
  ghost predicate FoundBetween(m: bytes, off: nat, end: nat, c: Client) {
    forall options {:trigger StandBetween(m, off, end, options)} :: StandBetween(m, off, end, options) ==> Finds(m, options, c.peerIp, c.mac)
  }

  lemma FoundInOptions(m: bytes, off: nat, end: nat, c: Client, options: seq<EdnsOption>)
    requires c.peerIp.None? && c.mac.None? && DecodeOptions(m, off, end) == Ok(options)
    ensures var c' := WithOptions(c, options);
      FoundBetween(m, off, end, c') && SameButFound(c, c')
  {
    DecodedOptionsAt(m, off, end);
    forall j | 0 <= j < |options| ensures OptionAt(m, options[j]) {
      OptionPlace(m, options, off, j);
    }
    OptionsFind(m, c, options);
    forall others | StandBetween(m, off, end, others) ensures others == options {
      OptionsExactly(m, off, end, others);
    }
  }

  function Asked(m: bytes, q: Question, msgSize: uint16): Client
    requires |m| >= HEADER_LEN
  {
    ClientQuery(HeaderFrom(GetU16(m, 0), GetU16(m, 2)), q, msgSize, None, None)
  }

  /** Result and payload after a parse. */
  ghost predicate ParsedAs(m: bytes, r: Result<Client>, m': bytes) {
    match FrontOf(m)
    case NoQuery(e) => r == Err(e) && m' == m
    case NoAdditional(q) => r == Ok(Asked(m, q, MAX_DNS_SIZE)) && m' == m
    case Additional(q, _, h) =>
      match OptionsOf(m, h)
      case Err(e) => r == Err(e) && m' == m
      case Ok(options) =>
        && r == Ok(WithOptions(Asked(m, q, h.header.cls), options))
        && m' == Scrubbed(m, options)
  }

  /** What a parse reports, on the bytes of the message. */
  ghost predicate ClientOn(m: bytes, r: Result<Client>) {
    match FrontOf(m)
    case NoQuery(_) => r.Err?
    case NoAdditional(q) => r.Ok? && r.value.question == q && r.value.msgSize == 512 && r.value.peerIp.None? && r.value.mac.None?
    case Additional(q, _, h) =>
      OptionsOf(m, h).Ok? ==>
        && r.Ok? && r.value.question == q && r.value.msgSize == h.header.cls
        && FoundBetween(m, h.end, h.end + h.header.length, r.value)
  }

  lemma ClientIsOn(m: bytes, r: Result<Client>, m': bytes)
    requires ParsedAs(m, r, m')
    ensures ClientOn(m, r)
  {
    var f := FrontOf(m);
    if f.Additional? && OptionsOf(m, f.header).Ok? {
      var h := f.header;
      FoundInOptions(m, h.end, h.end + h.header.length, Asked(m, f.question, h.header.cls), OptionsOf(m, h).value);
    }
  }

  /** One header call after the other. */
  function HeaderCalls(p: PState, n: nat): PState
    decreases n
  {
    if n == 0 then p else HeaderCalls(ReadHeader(p, SECTION_ADDITIONALS).state, n - 1)
  }

  /** Why it never ends: once the header of the first additional record was read, every further call reads it again. */
  lemma {:induction false} SameHeaderForever(p: PState, n: nat)
    requires Reachable(p) && ReadHeader(p, SECTION_ADDITIONALS).result.Ok?
    ensures ReadHeader(HeaderCalls(p, n), SECTION_ADDITIONALS) == ReadHeader(p, SECTION_ADDITIONALS)
    decreases n
  {
    if n > 0 {
      ReadHeaderKeeps(p, SECTION_ADDITIONALS);
      HeaderTwice(p, SECTION_ADDITIONALS);
      SameHeaderForever(ReadHeader(p, SECTION_ADDITIONALS).state, n - 1);
    }
  }

  /** The parser behind the skipped sections: in front of the additional records, or short of them. */
  ghost predicate BehindSections(p: PState, m: bytes, end: Result<nat>) {
    match end
    case Err(_) => p.section < SECTION_ADDITIONALS
    case Ok(at) => Stands(p, m, PartialHeader(m), SECTION_ADDITIONALS, at, 0)
  }

  method SkipSections(p: Parser, m: bytes, ghost off: nat)
    requires p.Valid() && PartialHeader(m).questions > 0 && Stands(p.Now(), m, PartialHeader(m), SECTION_QUESTIONS, off, 1)
    modifies p
    ensures p.Valid() && BehindSections(p.Now(), m, SectionsEnd(m, off, PartialHeader(m)))
  {
    var _ := p.SkipAllQuestions();
    var _ := p.SkipAllResources(SECTION_ANSWERS);
    var _ := p.SkipAllResources(SECTION_AUTHORITIES);
  }

  /** The first header call of the additional section. */
  lemma AdditionalHeader(p: PState, m: bytes, off: nat, q: Question)
    requires |m| >= HEADER_LEN && PartialHeader(m).questions > 0 && DecodeQuestion(m, HEADER_LEN) == Ok(ItemEnd(q, off))
    requires Reachable(p) && BehindSections(p, m, SectionsEnd(m, off, PartialHeader(m)))
    ensures var r := ReadHeader(p, SECTION_ADDITIONALS);
      match FrontOf(m)
      case NoQuery(e) => r.result == Err(e) && e != SectionDone
      case NoAdditional(q') => q' == q && r.result == Err(SectionDone)
      case Additional(q', at, h) =>
        && q' == q && r.result == Ok(h.header) && r.state.valid && r.state.msg == m
        && r.state.off == h.end && r.state.resType == h.header.typ && r.state.resLength == h.header.length
  {
    var end := SectionsEnd(m, off, PartialHeader(m));
    if end.Ok? {
      DecodeNameErrors(m, end.value);
    }
  }

  lemma OptBody(p: PState, m: bytes, h: HeaderEnd)
    requires p.valid && p.msg == m && p.off == h.end && p.resType == TYPE_OPT && p.resLength == h.header.length
    ensures ReadTypedBody(p, TYPE_OPT).result == match OptionsOf(m, h) case Ok(options) => Ok(OPT(options)) case Err(e) => Err(e)
  {
  }

  /** The options of a query, in order: addresses are noted, client subnets scrubbed. */
  method TakeOptions(payload: array<byte>, options: seq<EdnsOption>, client: Client) returns (c: Client)
    modifies payload
    ensures c == WithOptions(client, options) && payload[..] == Scrubbed(old(payload[..]), options)
    ensures client.peerIp.None? && client.mac.None? && (forall j :: 0 <= j < |options| ==> OptionAt(old(payload[..]), options[j])) ==>
      Finds(old(payload[..]), options, c.peerIp, c.mac) && SameButFound(client, c)
  {
    if client.peerIp.None? && client.mac.None? && forall j :: 0 <= j < |options| ==> OptionAt(payload[..], options[j]) {
      OptionsFind(payload[..], client, options);
    }
    c := client;
    assert options[..0] == [];
    for i := 0 to |options|
      invariant c == WithOptions(client, options[..i]) && payload[..] == Scrubbed(old(payload[..]), options[..i])
    {
      var o := options[i];
      assert options[..i + 1][..i] == options[..i];
      if o.code == EDNS0_MAC {
        c := c.(mac := Some(o.data));
      } else if o.code == EDNS0_SUBNET {
        if |o.data| < 8 {
          continue;
        }
        if o.data[1] == 1 {
          if o.data[2] == 32 {
            c := c.(peerIp := Some(o.data[4..8]));
          }
          NutterEcsOption(payload, o);
        } else if o.data[1] == 2 {
          if o.data[2] == 128 && |o.data| >= 20 {
            c := c.(peerIp := Some(o.data[4..20]));
          }
          NutterEcsOption(payload, o);
        }
      }
    }
    assert options[..|options|] == options;
  }

  /** Parses a query in place, in at most `turns` turns of the loop over the additional records. One turn is enough,
      unless the first additional record is not OPT: then no number of turns is. */
  method Parse(payload: array<byte>, turns: nat) returns (r: Result<Client>, ended: bool)
    requires turns > 0
    modifies payload
    ensures ended == !Stuck(old(payload[..]))
    ensures if ended then ParsedAs(old(payload[..]), r, payload[..]) && ClientOn(old(payload[..]), r)
            else payload[..] == old(payload[..])
  {
    r, ended := ParseTurns(payload, turns);
    if ended {
      ClientIsOn(old(payload[..]), r, payload[..]);
    }
  }

  method ParseTurns(payload: array<byte>, turns: nat) returns (r: Result<Client>, ended: bool)
    requires turns > 0
    modifies payload
    ensures ended == !Stuck(old(payload[..]))
    ensures if ended then ParsedAs(old(payload[..]), r, payload[..]) else payload[..] == old(payload[..])
  {
    var m := payload[..];
    var p := new Parser();
    var started := p.Start(m);
    if started.Err? {
      return Err(started.error), true;
    }
    var question := p.Question();
    if question.Err? {
      return Err(question.error), true;
    }
    ghost var off := p.off;
    SkipSections(p, m, off);
    ghost var start := p.Now();
    AdditionalHeader(start, m, off, question.value);
    var client := ClientQuery(started.value, question.value, MAX_DNS_SIZE, None, None);
    for turn := 0 to turns
      invariant p.Valid() && payload[..] == m
      invariant turn > 0 ==> Stuck(m)
      invariant ReadHeader(p.Now(), SECTION_ADDITIONALS) == ReadHeader(start, SECTION_ADDITIONALS)
    {
      if ReadHeader(p.Now(), SECTION_ADDITIONALS).result.Ok? {
        HeaderTwice(p.Now(), SECTION_ADDITIONALS);
      }
      var h := p.ResourceHeader(SECTION_ADDITIONALS);
      if h.Err? {
        if h.error == SectionDone {
          return Ok(client), true;
        }
        return Err(h.error), true;
      }
      if h.value.typ == TYPE_OPT {
        OptBody(p.Now(), m, FrontOf(m).header);
        var opt := p.TypedBody(TYPE_OPT);
        if opt.Err? {
          return Err(opt.error), true;
        }
        client := TakeOptions(payload, opt.value.options, client.(msgSize := h.value.cls));
        return Ok(client), true;
      }
    }
    return Ok(client), false;
  }

  // ---------- Parsing the scrubbed query again ----------

  /** A skipper that only looks at the bytes it skips. */
  ghost predicate Local(skip: (bytes, nat) -> Result<nat>, m: bytes, m': bytes, off: nat) {
    skip(m, off).Ok? ==>
      var end := skip(m, off).value;
      && off < end <= |m|
      && ((forall i {:trigger m'[i]} :: off <= i < end && i < |m'| ==> m'[i] == m[i]) ==> skip(m', off) == Ok(end))
  }

  lemma {:induction false} SkipItemsAlike(skip: (bytes, nat) -> Result<nat>, m: bytes, m': bytes, off: nat, n: nat)
    requires |m'| == |m| && (forall at {:trigger Local(skip, m, m', at)} :: Local(skip, m, m', at))
    requires SkipItems(skip, m, off, n).Ok?
    ensures var end := SkipItems(skip, m, off, n).value;
      && off <= end && (n > 0 ==> end <= |m|)
      && ((forall i {:trigger m'[i]} :: off <= i < end && i < |m| ==> m'[i] == m[i]) ==> SkipItems(skip, m', off, n) == Ok(end))
    decreases n
  {
    if n > 0 {
      assert Local(skip, m, m', off);
      SkipItemsAlike(skip, m, m', skip(m, off).value, n - 1);
    }
  }

  lemma QuestionsLocal(m: bytes, m': bytes)
    requires |m'| == |m|
    ensures forall at {:trigger Local(SkipQuestion, m, m', at)} :: Local(SkipQuestion, m, m', at)
  {
    forall at ensures Local(SkipQuestion, m, m', at) {
      QuestionLocal(m, m', at);
    }
  }

  lemma QuestionLocal(m: bytes, m': bytes, at: nat)
    requires |m'| == |m|
    ensures Local(SkipQuestion, m, m', at)
  {
    if SkipQuestion(m, at).Ok? {
      var end := SkipQuestion(m, at).value;
      if forall i {:trigger m'[i]} :: at <= i < end && i < |m'| ==> m'[i] == m[i] {
        SkipEndAlike(m, m', at, end - 4);
      }
    }
  }

  lemma RecordsLocal(m: bytes, m': bytes)
    requires |m'| == |m|
    ensures forall at {:trigger Local(SkipResource, m, m', at)} :: Local(SkipResource, m, m', at)
  {
    forall at ensures Local(SkipResource, m, m', at) {
      RecordLocal(m, m', at);
    }
  }

  lemma RecordLocal(m: bytes, m': bytes, at: nat)
    requires |m'| == |m|
    ensures Local(SkipResource, m, m', at)
  {
    if SkipResource(m, at).Ok? {
      var end := SkipResource(m, at).value;
      var h := SkipEnd(m, at).value + 10;
      if forall i {:trigger m'[i]} :: at <= i < end && i < |m'| ==> m'[i] == m[i] {
        SkipEndAlike(m, m', at, h - 10);
        assert m'[h - 2] == m[h - 2] && m'[h - 1] == m[h - 1];
      }
    }
  }

  /** The sections in front of the additional records are skipped alike when their bytes are alike. */
  lemma SectionsEndAlike(m: bytes, m': bytes, off: nat, h: WireHeader)
    requires |m'| == |m| && h.questions > 0 && SectionsEnd(m, off, h).Ok?
    ensures var end := SectionsEnd(m, off, h).value;
      off <= end && ((forall i {:trigger m'[i]} :: off <= i < end && i < |m| ==> m'[i] == m[i]) ==> SectionsEnd(m', off, h) == Ok(end))
  {
    QuestionsLocal(m, m');
    RecordsLocal(m, m');
    SkipItemsAlike(SkipQuestion, m, m', off, h.questions - 1);
    var e1 := SkipItems(SkipQuestion, m, off, h.questions - 1).value;
    SkipItemsAlike(SkipResource, m, m', e1, h.answers);
    var e2 := SkipItems(SkipResource, m, e1, h.answers).value;
    SkipItemsAlike(SkipResource, m, m', e2, h.authorities);
  }

  ghost function TouchedBytes(options: seq<EdnsOption>): iset<nat> {
    iset i: nat | InTouched(options, i)
  }

  /** Scrubbed bytes lie behind the header of the record. */
  lemma TouchedBehind(m: bytes, options: seq<EdnsOption>, off: nat, i: nat)
    requires OptionsAt(m, options, off) && i < off
    ensures i !in TouchedBytes(options)
  {
    if InTouched(options, i) {
      var j :| 0 <= j < |options| && Touches(options[j], i);
      OptionPlace(m, options, off, j);
    }
  }

  /** The front of a message that changed only behind the first additional record's header, in bytes that neither
      the question's name nor that record's name looks at. */
  lemma FrontAlike(m: bytes, m': bytes, hot: iset<nat>)
    requires FrontOf(m).Additional? && AlikeBut(m, m', hot)
    requires forall i {:trigger i in hot} :: i < FrontOf(m).header.end ==> i !in hot
    requires DecodedNameAvoids(m, HEADER_LEN, hot) && DecodedNameAvoids(m, FrontOf(m).at, hot)
    ensures FrontOf(m') == FrontOf(m)
  {
    var f, h := FrontOf(m), PartialHeader(m);
    forall i | 0 <= i < f.header.end && i < |m| ensures m'[i] == m[i] {
      assert i !in hot;
    }
    var q := DecodeQuestion(m, HEADER_LEN).value;
    SectionsEndAlike(m, m', q.end, h);
    PartialHeaderAlike(m, m');
    DecodedNameSame(m, m', HEADER_LEN, hot);
    DecodedNameSame(m, m', f.at, hot);
    HeaderAlike(m, m', f.at, f.header);
    QuestionAlike(m, m', q);
    FrontFrom(m', h, q, f.at, f.header);
  }

  lemma QuestionAlike(m: bytes, m': bytes, q: Decoded<Question>)
    requires |m'| == |m| && DecodeQuestion(m, HEADER_LEN) == Ok(q) && DecodeName(m', HEADER_LEN) == DecodeName(m, HEADER_LEN)
    requires forall i {:trigger m'[i]} :: 0 <= i < q.end && i < |m| ==> m'[i] == m[i]
    ensures DecodeQuestion(m', HEADER_LEN) == Ok(q)
  {
    var at := q.end - 4;
    assert m'[at] == m[at] && m'[at + 1] == m[at + 1] && m'[at + 2] == m[at + 2] && m'[at + 3] == m[at + 3];
  }

  /** The front from its parts. */
  lemma FrontFrom(m: bytes, h: WireHeader, q: Decoded<Question>, at: nat, header: HeaderEnd)
    requires |m| >= HEADER_LEN && PartialHeader(m) == h && h.questions > 0 && h.additionals > 0
    requires DecodeQuestion(m, HEADER_LEN) == Ok(q) && SectionsEnd(m, q.end, h) == Ok(at) && DecodeHeader(m, at) == Ok(header)
    ensures FrontOf(m) == Additional(q.item, at, header)
  {
  }

  lemma PartialHeaderAlike(m: bytes, m': bytes)
    requires HEADER_LEN <= |m| == |m'| && forall i {:trigger m'[i]} :: 0 <= i < HEADER_LEN ==> m'[i] == m[i]
    ensures PartialHeader(m') == PartialHeader(m)
  {
  }

  lemma HeaderAlike(m: bytes, m': bytes, off: nat, h: HeaderEnd)
    requires |m'| == |m| && DecodeHeader(m, off) == Ok(h) && DecodeName(m', off) == DecodeName(m, off)
    requires forall i {:trigger m'[i]} :: 0 <= i < h.end && i < |m| ==> m'[i] == m[i]
    ensures DecodeHeader(m', off) == Ok(h)
  {
    var at := h.end - 10;
    assert m'[at] == m[at] && m'[at + 1] == m[at + 1] && m'[at + 2] == m[at + 2] && m'[at + 3] == m[at + 3];
    assert m'[at + 4] == m[at + 4] && m'[at + 5] == m[at + 5] && m'[at + 6] == m[at + 6] && m'[at + 7] == m[at + 7];
    assert m'[at + 8] == m[at + 8] && m'[at + 9] == m[at + 9];
  }

  /** Scrubbing is safe to repeat and hides the client. If neither the question's name nor that of the OPT record runs
      through the scrubbed bytes, parsing the scrubbed query finds the same question and the same record, with as many
      options of the same lengths at the same places, of which none is a client subnet. */
  lemma ScrubbedQueryReparsed(m: bytes, options: seq<EdnsOption>)
    requires FrontOf(m).Additional? && OptionsOf(m, FrontOf(m).header) == Ok(options)
    requires DecodedNameAvoids(m, HEADER_LEN, TouchedBytes(options)) && DecodedNameAvoids(m, FrontOf(m).at, TouchedBytes(options))
    ensures var m' := Scrubbed(m, options);
      && FrontOf(m') == FrontOf(m)
      && OptionsOf(m', FrontOf(m').header) == Ok(ScrubbedOptions(options))
      && (forall o :: o in ScrubbedOptions(options) ==> !Subnet(o))
      && Scrubbed(m', ScrubbedOptions(options)) == m'
  {
    var h := FrontOf(m).header;
    FrontReparsed(m, h, FrontOf(m).at, options);
    OptionsScrubbed(m, h, options);
  }

  lemma OptionsScrubbed(m: bytes, h: HeaderEnd, options: seq<EdnsOption>)
    requires OptionsOf(m, h) == Ok(options)
    ensures OptionsOf(Scrubbed(m, options), h) == Ok(ScrubbedOptions(options))
    ensures (forall o :: o in ScrubbedOptions(options) ==> !Subnet(o))
    ensures Scrubbed(Scrubbed(m, options), ScrubbedOptions(options)) == Scrubbed(m, options)
  {
    NoSubnetLeft(m, h.end, h.end + h.header.length);
  }

  lemma FrontReparsed(m: bytes, h: HeaderEnd, at: nat, options: seq<EdnsOption>)
    requires FrontOf(m).Additional? && h == FrontOf(m).header && at == FrontOf(m).at && OptionsOf(m, h) == Ok(options)
    requires DecodedNameAvoids(m, HEADER_LEN, TouchedBytes(options)) && DecodedNameAvoids(m, at, TouchedBytes(options))
    ensures FrontOf(Scrubbed(m, options)) == FrontOf(m)
  {
    DecodedOptionsAt(m, h.end, h.end + h.header.length);
    ScrubbedAlike(m, options, h.end);
    TouchedAllBehind(m, options, h.end);
    FrontAlike(m, Scrubbed(m, options), TouchedBytes(options));
  }

  lemma TouchedAllBehind(m: bytes, options: seq<EdnsOption>, off: nat)
    requires OptionsAt(m, options, off)
    ensures forall i {:trigger i in TouchedBytes(options)} :: i < off ==> i !in TouchedBytes(options)
  {
    forall i: nat | i < off ensures i !in TouchedBytes(options) {
      TouchedBehind(m, options, off, i);
    }
  }

  lemma ScrubbedAlike(m: bytes, options: seq<EdnsOption>, off: nat)
    requires OptionsAt(m, options, off)
    ensures AlikeBut(m, Scrubbed(m, options), TouchedBytes(options))
  {
    assert options[..|options|] == options;
    forall i | 0 <= i < |m| && i !in TouchedBytes(options) ensures Scrubbed(m, options)[i] == m[i] {
      ScrubbedFrame(m, options, off, i, |options|);
    }
  }

  // ---------- The front of a well-formed query ----------

  lemma {:induction false} QuestionsSkipped(m: bytes, off: nat, n: nat)
    requires ReadItems(DecodeQuestion, m, off, n).Ok?
    ensures SkipItems(SkipQuestion, m, off, n) == Ok(ReadItems(DecodeQuestion, m, off, n).value.end)
    decreases n
  {
    if n > 0 {
      ReaderAndSkipperAgree(m, off, MAX_POINTERS);
      QuestionsSkipped(m, DecodeQuestion(m, off).value.end, n - 1);
    }
  }

  /** Where the sections of a message end, for its reader and for its skipper. */
  lemma FrontSkipped(m: bytes, h: WireHeader, qs: Items<seq<Question>>, an: Items<seq<Resource>>, ns: Items<seq<Resource>>)
    requires h.questions > 0 && ReadItems(DecodeQuestion, m, HEADER_LEN, h.questions) == Ok(qs)
    requires ReadItems(DecodeResource, m, qs.end, h.answers) == Ok(an) && ReadItems(DecodeResource, m, an.end, h.authorities) == Ok(ns)
    ensures DecodeQuestion(m, HEADER_LEN).Ok? && |qs.items| > 0 && DecodeQuestion(m, HEADER_LEN).value.item == qs.items[0]
    ensures var end := SectionsEnd(m, DecodeQuestion(m, HEADER_LEN).value.end, h); end.Ok? ==> end.value == ns.end
  {
    FirstAndRest(m, HEADER_LEN, h.questions, h.questions - 1, qs);
    var off := DecodeQuestion(m, HEADER_LEN).value.end;
    RecordsSkipped(m, qs.end, h.answers, an);
    RecordsSkipped(m, an.end, h.authorities, ns);
    SectionsEndAt(m, off, h, qs.end, an.end, ns.end);
  }

  lemma FirstAndRest(m: bytes, off: nat, n: nat, k: nat, qs: Items<seq<Question>>)
    requires n == k + 1 && ReadItems(DecodeQuestion, m, off, n) == Ok(qs)
    ensures DecodeQuestion(m, off).Ok? && |qs.items| > 0 && DecodeQuestion(m, off).value.item == qs.items[0]
    ensures SkipItems(SkipQuestion, m, DecodeQuestion(m, off).value.end, k) == Ok(qs.end)
  {
    QuestionsSkipped(m, DecodeQuestion(m, off).value.end, k);
  }

  lemma RecordsSkipped(m: bytes, off: nat, n: nat, rs: Items<seq<Resource>>)
    requires ReadItems(DecodeResource, m, off, n) == Ok(rs)
    ensures SkipItems(SkipResource, m, off, n).Ok? ==> SkipItems(SkipResource, m, off, n).value == rs.end
  {
    if SkipItems(SkipResource, m, off, n).Ok? {
      ReadOrSkipAll(m, off, n);
    }
  }

  lemma SectionsEndAt(m: bytes, off: nat, h: WireHeader, e1: nat, e2: nat, e3: nat)
    requires h.questions > 0 && SkipItems(SkipQuestion, m, off, h.questions - 1) == Ok(e1)
    requires SkipItems(SkipResource, m, e1, h.answers).Ok? ==> SkipItems(SkipResource, m, e1, h.answers).value == e2
    requires SkipItems(SkipResource, m, e2, h.authorities).Ok? ==> SkipItems(SkipResource, m, e2, h.authorities).value == e3
    ensures SectionsEnd(m, off, h).Ok? ==> SectionsEnd(m, off, h).value == e3
  {
  }

  /** What a parse of a message that can be read finds: its first question and its first additional record, unless a record in
      front of that one reaches beyond the message. */
  lemma FrontOfMessage(m: bytes, msg: Message)
    requires DecodeMessage(m) == Ok(msg) && msg.questions != []
    ensures match FrontOf(m)
      case NoQuery(e) => e == NotStarted && SectionsEnd(m, DecodeQuestion(m, HEADER_LEN).value.end, PartialHeader(m)).Err?
      case NoAdditional(q) => q == msg.questions[0] && msg.additionals == []
      case Additional(q, _, h) =>
        && q == msg.questions[0] && msg.additionals != [] && h.header == msg.additionals[0].header
        && (h.header.typ == 41 ==> msg.additionals[0].body.OPT? && OptionsOf(m, h) == Ok(msg.additionals[0].body.options))
  {
    var h := DecodeWireHeader(m).value;
    var qs := ReadItems(DecodeQuestion, m, HEADER_LEN, h.questions).value;
    var an := ReadItems(DecodeResource, m, qs.end, h.answers).value;
    var ns := ReadItems(DecodeResource, m, an.end, h.authorities).value;
    FrontSkipped(m, h, qs, an, ns);
    FirstAdditional(m, ns.end, h.additionals);
  }

  lemma FirstAdditional(m: bytes, at: nat, n: nat)
    requires ReadItems(DecodeResource, m, at, n).Ok?
    ensures n == 0 ==> ReadItems(DecodeResource, m, at, n).value.items == []
    ensures n > 0 ==>
      && DecodeHeader(m, at).Ok? && |ReadItems(DecodeResource, m, at, n).value.items| > 0
      && var h, r := DecodeHeader(m, at).value, ReadItems(DecodeResource, m, at, n).value.items[0];
         && r.header == h.header
         && (h.header.typ == TYPE_OPT ==> r.body.OPT? && DecodeOptions(m, h.end, h.end + h.header.length) == Ok(r.body.options))
  {
  }
}
