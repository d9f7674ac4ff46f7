/** The readers of fields, bodies and headers as the code runs them (internal/dnsmessage/message.go). Each is proved
    against the function of its offset in Names and Records. */
module Unpacking {
  import opened Wire
  import opened Names
  import opened Records

  // ---------- Loops ----------

  /** What a loop has collected, in front of what is still to come. */
  ghost function Collected<T>(found: seq<T>, rest: Result<seq<T>>): Result<seq<T>> {
    match rest
    case Err(_) => rest
    case Ok(more) => Ok(found + more)
  }

  lemma OneCollected<T>(found: seq<T>, x: T, rest: Result<seq<T>>)
    ensures Collected(found, match rest case Ok(more) => Ok([x] + more) case Err(e) => Err(e)) == Collected(found + [x], rest)
  {
    if rest.Ok? {
      assert found + ([x] + rest.value) == found + [x] + rest.value;
    }
  }

  lemma NothingCollected<T>(rest: Result<seq<T>>)
    ensures Collected([], rest) == rest
  {
    if rest.Ok? {
      assert [] + rest.value == rest.value;
    }
  }

  lemma AllCollected<T>(found: seq<T>)
    ensures Collected(found, Ok([])) == Ok(found)
  {
    assert found + [] == found;
  }

  method UnpackTexts(m: bytes, start: nat, length: nat) returns (r: Result<seq<bytes>>)
    ensures r == DecodeTexts(m, start, length)
  {
    var off: nat, n: nat := start, 0;
    var texts: seq<bytes> := [];
    NothingCollected(DecodeTexts(m, start, length));
    while n < length
      invariant n <= length && Collected(texts, DecodeTexts(m, off, length - n)) == DecodeTexts(m, start, length)
    {
      if off >= |m| {
        return Err(BaseLen);
      }
      var endOff: nat := off + 1 + m[off];
      if endOff > |m| {
        return Err(CalcLen);
      }
      // Too many bytes for the record.
      if length - n < m[off] as int + 1 {
        return Err(CalcLen);
      }
      var text := Slice(m, off + 1, m[off]);
      OneCollected(texts, text, DecodeTexts(m, endOff, length - n - (1 + m[off] as int)));
      n := n + m[off] as int + 1;
      texts := texts + [text];
      off := endOff;
    }
    AllCollected(texts);
    return Ok(texts);
  }

  /** Also the loop over the parameters of a service. */
  method UnpackOptions(m: bytes, start: nat, end: nat) returns (r: Result<seq<EdnsOption>>)
    ensures r == DecodeOptions(m, start, end)
  {
    var off: nat := start;
    var options: seq<EdnsOption> := [];
    NothingCollected(DecodeOptions(m, start, end));
    while off < end
      invariant Collected(options, DecodeOptions(m, off, end)) == DecodeOptions(m, start, end)
    {
      if off + 4 > |m| {
        return Err(BaseLen);
      }
      var code, l := GetU16(m, off), GetU16(m, off + 2);
      if off + 4 + l > |m| {
        return Err(CalcLen);
      }
      var o := EdnsOption(code, Slice(m, off + 4, l), off + 4);
      OneCollected(options, o, DecodeOptions(m, off + 4 + l, end));
      options := options + [o];
      off := off + 4 + l;
    }
    AllCollected(options);
    return Ok(options);
  }

  // ---------- Bodies ----------

  method UnpackService(m: bytes, off: nat, length: uint16) returns (r: Result<Service>)
    ensures r == DecodeService(m, off, length)
  {
    if off + 2 > |m| {
      return Err(BaseLen);
    }
    var target := UnpackName(m, off + 2);
    if target.Err? {
      return Err(target.error);
    }
    var options := UnpackOptions(m, target.value.end, off + length);
    if options.Err? {
      return Err(options.error);
    }
    return Ok(Service(GetU16(m, off), target.value.name, AsParams(options.value)));
  }

  method UnpackSoa(m: bytes, off: nat) returns (r: Result<Body>)
    ensures r == DecodeSoa(m, off)
  {
    var ns := UnpackName(m, off);
    if ns.Err? {
      return Err(ns.error);
    }
    var mbox := UnpackName(m, ns.value.end);
    if mbox.Err? {
      return Err(mbox.error);
    }
    var at := mbox.value.end;
    if at + 20 > |m| {
      return Err(BaseLen);
    }
    return Ok(SOA(ns.value.name, mbox.value.name, GetU32(m, at), GetU32(m, at + 4), GetU32(m, at + 8),
                  GetU32(m, at + 12), GetU32(m, at + 16)));
  }

  method UnpackBody(m: bytes, off: nat, typ: uint16, length: uint16) returns (r: Result<Body>)
    ensures r == DecodeBody(m, off, typ, length)
  {
    if typ == TYPE_NS || typ == TYPE_CNAME || typ == TYPE_PTR {
      var n := UnpackName(m, off);
      if n.Err? {
        return Err(n.error);
      }
      var name := n.value.name;
      return Ok(if typ == TYPE_NS then NS(name) else if typ == TYPE_CNAME then CNAME(name) else PTR(name));
    } else if typ == TYPE_SOA {
      r := UnpackSoa(m, off);
    } else if typ == TYPE_MX {
      if off + 2 > |m| {
        return Err(BaseLen);
      }
      var n := UnpackName(m, off + 2);
      return if n.Err? then Err(n.error) else Ok(MX(GetU16(m, off), n.value.name));
    } else if typ == TYPE_TXT {
      var texts := UnpackTexts(m, off, length);
      return if texts.Err? then Err(texts.error) else Ok(TXT(texts.value));
    } else if typ == TYPE_SRV {
      if off + 6 > |m| {
        return Err(BaseLen);
      }
      var n := UnpackName(m, off + 6);
      return if n.Err? then Err(n.error) else Ok(SRV(GetU16(m, off), GetU16(m, off + 2), GetU16(m, off + 4), n.value.name));
    } else if typ == TYPE_SVCB || typ == TYPE_HTTPS {
      var s := UnpackService(m, off, length);
      if s.Err? {
        return Err(s.error);
      }
      var priority, target, params := s.value.priority, s.value.target, s.value.params;
      return Ok(if typ == TYPE_SVCB then SVCB(priority, target, params) else HTTPS(priority, target, params));
    } else if typ == TYPE_OPT {
      var options := UnpackOptions(m, off, off + length);
      return if options.Err? then Err(options.error) else Ok(OPT(options.value));
    } else {
      // Fixed sizes: addresses, and bodies of unknown type.
      var size: nat := if typ == TYPE_A then 4 else if typ == TYPE_AAAA then 16 else length;
      if off + size > |m| {
        return Err(BaseLen);
      }
      var data := Slice(m, off, size);
      return Ok(if typ == TYPE_A then A(data) else if typ == TYPE_AAAA then AAAA(data) else Unknown(typ, data));
    }
  }

  // ---------- Headers, questions, skipping ----------

  method UnpackHeader(m: bytes, off: nat) returns (r: Result<HeaderEnd>)
    ensures r == DecodeHeader(m, off)
  {
    var n := UnpackName(m, off);
    if n.Err? {
      return Err(n.error);
    }
    if n.value.end + 10 > |m| {
      return Err(BaseLen);
    }
    return Ok(HeaderEnd(HeaderAt(m, n.value.name, n.value.end), n.value.end + 10));
  }

  method UnpackQuestion(m: bytes, off: nat) returns (r: Result<Decoded<Question>>)
    ensures r == DecodeQuestion(m, off)
  {
    var n := UnpackName(m, off);
    if n.Err? {
      return Err(n.error);
    }
    var at := n.value.end;
    if at + 4 > |m| {
      return Err(BaseLen);
    }
    return Ok(ItemEnd(Question(n.value.name, GetU16(m, at), GetU16(m, at + 2)), at + 4));
  }

  method SkipWholeResource(m: bytes, off: nat) returns (r: Result<nat>)
    ensures r == SkipResource(m, off)
  {
    var at := SkipName(m, off);
    if at.Err? {
      return at;
    }
    if at.value + 10 > |m| {
      return Err(BaseLen);
    }
    var end: nat := at.value + 10 + GetU16(m, at.value + 8);
    if end > |m| {
      return Err(ResourceLen);
    }
    return Ok(end);
  }

  method SkipWholeQuestion(m: bytes, off: nat) returns (r: Result<nat>)
    ensures r == SkipQuestion(m, off)
  {
    var at := SkipName(m, off);
    if at.Err? {
      return at;
    }
    if at.value + 4 > |m| {
      return Err(BaseLen);
    }
    return Ok(at.value + 4);
  }
}
