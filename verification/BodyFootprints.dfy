/** The bytes that bodies are read from, and that a body determines: it is read alike from two messages exactly if those bytes
    are alike (internal/dnsmessage/message.go). */
module BodyFootprints {
  import opened Wire
  import opened Footprints
  import opened Names
  import opened Records

  // ---------- Changed bytes ----------

  /** The bytes in which two messages differ. */
  ghost function Changed(m: bytes, m': bytes): iset<nat> {
    iset i: nat | i < |m| && i < |m'| && m'[i] != m[i]
  }

  lemma AlikeButChanged(m: bytes, m': bytes)
    requires |m'| == |m|
    ensures AlikeBut(m, m', Changed(m, m'))
  {
  }

  // ---------- Numbers and bytes determine what they are read from ----------

  lemma RangeCold(m: bytes, m': bytes, off: nat, n: nat)
    requires |m'| == |m| && off + n <= |m|
    ensures RangeAvoids(off, n, Changed(m, m')) <==> Slice(m', off, n) == Slice(m, off, n)
  {
    var hot := Changed(m, m');
    if Slice(m', off, n) == Slice(m, off, n) {
      forall i: nat {:trigger i in hot} | off <= i < off + n ensures i !in hot {
        assert Slice(m', off, n)[i - off] == m'[i] && Slice(m, off, n)[i - off] == m[i];
      }
    } else if RangeAvoids(off, n, hot) {
      RangeSame(m, m', hot, off, n);
    }
  }

  lemma U16Cold(m: bytes, m': bytes, off: nat)
    requires |m'| == |m| && off + 2 <= |m|
    ensures RangeAvoids(off, 2, Changed(m, m')) <==> GetU16(m', off) == GetU16(m, off)
  {
    var hot := Changed(m, m');
    if GetU16(m', off) == GetU16(m, off) {
      assert m'[off] == m[off] && m'[off + 1] == m[off + 1];
    } else if RangeAvoids(off, 2, hot) {
      RangeSame(m, m', hot, off, 2);
    }
  }

  lemma RangeSplit(off: nat, n: nat, k: nat, hot: iset<nat>)
    ensures RangeAvoids(off, n + k, hot) <==> RangeAvoids(off, n, hot) && RangeAvoids(off + n, k, hot)
  {
    if RangeAvoids(off, n, hot) && RangeAvoids(off + n, k, hot) {
      forall i: nat {:trigger i in hot} | off <= i < off + (n + k) ensures i !in hot {
        assert off <= i < off + n || off + n <= i < off + n + k;
      }
    }
  }

  lemma U32Cold(m: bytes, m': bytes, off: nat)
    requires |m'| == |m| && off + 4 <= |m|
    ensures RangeAvoids(off, 4, Changed(m, m')) <==> GetU32(m', off) == GetU32(m, off)
  {
    U16Cold(m, m', off);
    U16Cold(m, m', off + 2);
    RangeSplit(off, 2, 2, Changed(m, m'));
  }

  // ---------- Texts and options ----------

  lemma ConsSame<T>(x: T, xs: seq<T>, y: T, ys: seq<T>)
    ensures [x] + xs == [y] + ys <==> x == y && xs == ys
  {
    if [x] + xs == [y] + ys {
      assert ([x] + xs)[0] == ([y] + ys)[0] && ([x] + xs)[1..] == ([y] + ys)[1..];
    }
  }

  lemma {:induction false} TextsCold(m: bytes, m': bytes, off: nat, left: nat)
    requires |m'| == |m| && DecodeTexts(m, off, left).Ok?
    ensures off + left <= |m| || left == 0
    ensures DecodeTexts(m', off, left) == DecodeTexts(m, off, left) <==> RangeAvoids(off, left, Changed(m, m'))
    decreases left
  {
    if left > 0 {
      var hot, n, more := Changed(m, m'), m[off] as int, left - (1 + m[off] as int);
      RangeSplit(off, 1 + n, more, hot);
      RangeSplit(off, 1, n, hot);
      TextsCold(m, m', off + 1 + n, more);
      if m'[off] == m[off] {
        assert RangeAvoids(off, 1, hot);
        RangeCold(m, m', off + 1, n);
        if DecodeTexts(m', off + 1 + n, more).Ok? {
          ConsSame(Slice(m', off + 1, n), DecodeTexts(m', off + 1 + n, more).value,
                   Slice(m, off + 1, n), DecodeTexts(m, off + 1 + n, more).value);
        }
      } else {
        assert off in hot;
        OtherFirstText(m, m', off, left);
      }
    }
  }

  /** Another length byte, another first text. */
  lemma OtherFirstText(m: bytes, m': bytes, off: nat, left: nat)
    requires |m'| == |m| && DecodeTexts(m, off, left).Ok? && left > 0 && m'[off] != m[off]
    ensures DecodeTexts(m', off, left) != DecodeTexts(m, off, left)
  {
    if DecodeTexts(m', off, left).Ok? {
      assert |DecodeTexts(m', off, left).value[0]| == m'[off] && |DecodeTexts(m, off, left).value[0]| == m[off];
    }
  }

  /** Codes, lengths and data of the options that start in front of `end`. */
  ghost predicate OptionsAvoid(m: bytes, off: nat, end: nat, hot: iset<nat>)
    decreases |m| - off
  {
    off < end && off + 4 <= |m| && off + 4 + GetU16(m, off + 2) <= |m| ==>
      && RangeAvoids(off, 4, hot) && RangeAvoids(off + 4, GetU16(m, off + 2), hot)
      && OptionsAvoid(m, off + 4 + GetU16(m, off + 2), end, hot)
  }

  lemma {:induction false} OptionsSame(m: bytes, m': bytes, off: nat, end: nat, hot: iset<nat>)
    requires AlikeBut(m, m', hot) && OptionsAvoid(m, off, end, hot) && DecodeOptions(m, off, end).Ok?
    ensures DecodeOptions(m', off, end) == DecodeOptions(m, off, end)
    decreases |m| - off
  {
    if off < end {
      RangeSame(m, m', hot, off, 4);
      RangeSame(m, m', hot, off + 4, GetU16(m, off + 2));
      OptionsSame(m, m', off + 4 + GetU16(m, off + 2), end, hot);
    }
  }

  /** The first option as a parameter, and the others. */
  lemma FirstParam(m: bytes, off: nat, end: nat) returns (size: nat, next: nat)
    requires off < end && DecodeOptions(m, off, end).Ok?
    ensures off + 4 + size == next <= |m| && size == GetU16(m, off + 2) && DecodeOptions(m, next, end).Ok?
    ensures AsParams(DecodeOptions(m, off, end).value)
         == [Param(GetU16(m, off), Slice(m, off + 4, size))] + AsParams(DecodeOptions(m, next, end).value)
  {
    size := GetU16(m, off + 2);
    next := off + 4 + size;
    var rest := DecodeOptions(m, next, end).value;
    var all := DecodeOptions(m, off, end).value;
    assert all == [EdnsOption(GetU16(m, off), Slice(m, off + 4, size), off + 4)] + rest;
  }

  /** Even without their offsets, options determine the bytes they were read from. */
  lemma {:induction false} ParamsCold(m: bytes, m': bytes, off: nat, end: nat)
    requires |m'| == |m| && DecodeOptions(m, off, end).Ok? && DecodeOptions(m', off, end).Ok?
    requires AsParams(DecodeOptions(m', off, end).value) == AsParams(DecodeOptions(m, off, end).value)
    ensures OptionsAvoid(m, off, end, Changed(m, m'))
    decreases |m| - off
  {
    if off < end {
      var size, next := FirstParam(m, off, end);
      var size', next' := FirstParam(m', off, end);
      ConsSame(Param(GetU16(m', off), Slice(m', off + 4, size')), AsParams(DecodeOptions(m', next', end).value),
               Param(GetU16(m, off), Slice(m, off + 4, size)), AsParams(DecodeOptions(m, next, end).value));
      assert size' == |Slice(m', off + 4, size')| == size;
      U16Cold(m, m', off);
      U16Cold(m, m', off + 2);
      RangeSplit(off, 2, 2, Changed(m, m'));
      RangeCold(m, m', off + 4, size);
      ParamsCold(m, m', next, end);
    }
  }

  lemma OptionsCold(m: bytes, m': bytes, off: nat, end: nat)
    requires |m'| == |m| && DecodeOptions(m, off, end).Ok?
    ensures DecodeOptions(m', off, end) == DecodeOptions(m, off, end) <==> OptionsAvoid(m, off, end, Changed(m, m'))
  {
    if DecodeOptions(m', off, end) == DecodeOptions(m, off, end) {
      ParamsCold(m, m', off, end);
    } else if OptionsAvoid(m, off, end, Changed(m, m')) {
      OptionsSame(m, m', off, end, Changed(m, m'));
    }
  }

  // ---------- Bodies ----------

  /** The names in a body look at no byte of `hot`. */
  ghost predicate BodyNamesAvoid(m: bytes, off: nat, typ: uint16, hot: iset<nat>) {
    if typ == TYPE_NS || typ == TYPE_CNAME || typ == TYPE_PTR then DecodedNameAvoids(m, off, hot)
    else if typ == TYPE_SOA then
      DecodedNameAvoids(m, off, hot) && (DecodeName(m, off).Ok? ==> DecodedNameAvoids(m, DecodeName(m, off).value.end, hot))
    else if typ == TYPE_MX || typ == TYPE_SVCB || typ == TYPE_HTTPS then DecodedNameAvoids(m, off + 2, hot)
    else if typ == TYPE_SRV then DecodedNameAvoids(m, off + 6, hot)
    else true
  }

  /** What else the body is read from, inside its record or behind it. */
  ghost predicate BodyDataAvoids(m: bytes, off: nat, typ: uint16, length: uint16, hot: iset<nat>) {
    if typ == TYPE_A then RangeAvoids(off, 4, hot)
    else if typ == TYPE_NS || typ == TYPE_CNAME || typ == TYPE_PTR then true
    else if typ == TYPE_SOA then
      DecodeName(m, off).Ok? && DecodeName(m, DecodeName(m, off).value.end).Ok? ==>
        RangeAvoids(DecodeName(m, DecodeName(m, off).value.end).value.end, 20, hot)
    else if typ == TYPE_MX then RangeAvoids(off, 2, hot)
    else if typ == TYPE_AAAA then RangeAvoids(off, 16, hot)
    else if typ == TYPE_SRV then RangeAvoids(off, 6, hot)
    else if typ == TYPE_SVCB || typ == TYPE_HTTPS then ServiceDataAvoids(m, off, length, hot)
    else if typ == TYPE_OPT then OptionsAvoid(m, off, off + length, hot)
    else RangeAvoids(off, length, hot)
  }

  ghost predicate ServiceDataAvoids(m: bytes, off: nat, length: uint16, hot: iset<nat>) {
    RangeAvoids(off, 2, hot) && (DecodeName(m, off + 2).Ok? ==> OptionsAvoid(m, DecodeName(m, off + 2).value.end, off + length, hot))
  }

  lemma ServiceCold(m: bytes, m': bytes, off: nat, length: uint16)
    requires |m'| == |m| && DecodedNameAvoids(m, off + 2, Changed(m, m')) && DecodeService(m, off, length).Ok?
    ensures DecodeService(m', off, length) == DecodeService(m, off, length) <==> ServiceDataAvoids(m, off, length, Changed(m, m'))
  {
    var hot := Changed(m, m');
    AlikeButChanged(m, m');
    DecodedNameSame(m, m', off + 2, hot);
    U16Cold(m, m', off);
    var at := DecodeName(m, off + 2).value.end;
    if DecodeService(m', off, length) == DecodeService(m, off, length) {
      ParamsCold(m, m', at, off + length);
    } else if ServiceDataAvoids(m, off, length, hot) {
      OptionsSame(m, m', at, off + length, hot);
    }
  }

  lemma NumbersCold(m: bytes, m': bytes, at: nat)
    requires |m'| == |m| && at + 20 <= |m|
    ensures RangeAvoids(at, 20, Changed(m, m')) <==>
      && GetU32(m', at) == GetU32(m, at) && GetU32(m', at + 4) == GetU32(m, at + 4) && GetU32(m', at + 8) == GetU32(m, at + 8)
      && GetU32(m', at + 12) == GetU32(m, at + 12) && GetU32(m', at + 16) == GetU32(m, at + 16)
  {
    var hot := Changed(m, m');
    RangeSplit(at, 4, 16, hot);
    RangeSplit(at + 4, 4, 12, hot);
    RangeSplit(at + 8, 4, 8, hot);
    RangeSplit(at + 12, 4, 4, hot);
    U32Cold(m, m', at);
    U32Cold(m, m', at + 4);
    U32Cold(m, m', at + 8);
    U32Cold(m, m', at + 12);
    U32Cold(m, m', at + 16);
  }

  lemma SoaCold(m: bytes, m': bytes, off: nat)
    requires |m'| == |m| && BodyNamesAvoid(m, off, TYPE_SOA, Changed(m, m')) && DecodeSoa(m, off).Ok?
    ensures DecodeSoa(m', off) == DecodeSoa(m, off)
       <==> RangeAvoids(DecodeName(m, DecodeName(m, off).value.end).value.end, 20, Changed(m, m'))
  {
    var hot := Changed(m, m');
    AlikeButChanged(m, m');
    DecodedNameSame(m, m', off, hot);
    var at := DecodeName(m, off).value.end;
    DecodedNameSame(m, m', at, hot);
    NumbersCold(m, m', DecodeName(m, at).value.end);
  }

  lemma SrvCold(m: bytes, m': bytes, off: nat)
    requires |m'| == |m| && off + 6 <= |m|
    ensures RangeAvoids(off, 6, Changed(m, m')) <==>
      GetU16(m', off) == GetU16(m, off) && GetU16(m', off + 2) == GetU16(m, off + 2) && GetU16(m', off + 4) == GetU16(m, off + 4)
  {
    RangeSplit(off, 2, 4, Changed(m, m'));
    RangeSplit(off + 2, 2, 2, Changed(m, m'));
    U16Cold(m, m', off);
    U16Cold(m, m', off + 2);
    U16Cold(m, m', off + 4);
  }

  /** A body whose names are read alike is read alike exactly if nothing else it is read from has changed. */
  lemma BodyCold(m: bytes, m': bytes, off: nat, typ: uint16, length: uint16)
    requires |m'| == |m| && BodyNamesAvoid(m, off, typ, Changed(m, m')) && DecodeBody(m, off, typ, length).Ok?
    ensures DecodeBody(m', off, typ, length) == DecodeBody(m, off, typ, length)
       <==> BodyDataAvoids(m, off, typ, length, Changed(m, m'))
  {
    if typ == TYPE_NS || typ == TYPE_CNAME || typ == TYPE_PTR || typ == TYPE_MX || typ == TYPE_SRV {
      NameBodyCold(m, m', off, typ, length);
    } else if typ == TYPE_SOA {
      SoaCold(m, m', off);
    } else if typ == TYPE_SVCB || typ == TYPE_HTTPS {
      ServiceCold(m, m', off, length);
    } else if typ == TYPE_OPT {
      OptionsCold(m, m', off, off + length);
    } else if typ == TYPE_TXT {
      TextsCold(m, m', off, length);
    } else {
      RawBodyCold(m, m', off, typ, length);
    }
  }

  lemma NameBodyCold(m: bytes, m': bytes, off: nat, typ: uint16, length: uint16)
    requires typ == TYPE_NS || typ == TYPE_CNAME || typ == TYPE_PTR || typ == TYPE_MX || typ == TYPE_SRV
    requires |m'| == |m| && BodyNamesAvoid(m, off, typ, Changed(m, m')) && DecodeBody(m, off, typ, length).Ok?
    ensures DecodeBody(m', off, typ, length) == DecodeBody(m, off, typ, length)
       <==> BodyDataAvoids(m, off, typ, length, Changed(m, m'))
  {
    AlikeButChanged(m, m');
    if typ == TYPE_MX {
      DecodedNameSame(m, m', off + 2, Changed(m, m'));
      U16Cold(m, m', off);
    } else if typ == TYPE_SRV {
      DecodedNameSame(m, m', off + 6, Changed(m, m'));
      SrvCold(m, m', off);
    } else {
      DecodedNameSame(m, m', off, Changed(m, m'));
    }
  }

  lemma RawBodyCold(m: bytes, m': bytes, off: nat, typ: uint16, length: uint16)
    requires typ == TYPE_A || typ == TYPE_AAAA || !KnownType(typ)
    requires |m'| == |m| && DecodeBody(m, off, typ, length).Ok?
    ensures DecodeBody(m', off, typ, length) == DecodeBody(m, off, typ, length)
       <==> BodyDataAvoids(m, off, typ, length, Changed(m, m'))
  {
    RangeCold(m, m', off, if typ == TYPE_A then 4 else if typ == TYPE_AAAA then 16 else length);
  }
}
