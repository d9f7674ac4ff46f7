/** Printing an address as a reverse name and reading it back (discovery/dns.go, proxy/util.go). */
module ReverseDns {
  import opened Wire

  type Address = ip: bytes | |ip| == 16 witness seq(16, _ => 0)

  // ---------- Numbers ----------

  function DigitOf(c: char): Option<nat> {
    if '0' <= c <= '9' then Some(c as nat - '0' as nat)
    else if 'a' <= c <= 'z' then Some(c as nat - 'a' as nat + 10)
    else if 'A' <= c <= 'Z' then Some(c as nat - 'A' as nat + 10)
    else None
  }

  /** The value of a string of digits in a base; nothing if it is empty or holds another character. */
  function ParseNat(s: string, base: nat): Option<nat>
    decreases |s|
  {
    if s == [] then None
    else
      match DigitOf(s[|s| - 1])
      case None => None
      case Some(d) =>
        if d >= base then None
        else if |s| == 1 then Some(d)
        else match ParseNat(s[..|s| - 1], base) case None => None case Some(n) => Some(n * base + d)
  }

  /** strconv.ParseUint with a size of eight bits. */
  function ParseUint8(s: string, base: nat): Option<byte> {
    match ParseNat(s, base)
    case Some(n) => if n <= 255 then Some(n) else None
    case None => None
  }

  function DecimalDigit(d: nat): char
    requires d < 10
  {
    ('0' as nat + d) as char
  }

  function Decimal(v: nat): (s: string)
    ensures s != []
    decreases v
  {
    if v < 10 then [DecimalDigit(v)] else Decimal(v / 10) + [DecimalDigit(v % 10)]
  }

  function Power10(k: nat): nat {
    if k == 0 then 1 else 10 * Power10(k - 1)
  }

  /** Numbers below 10^k have at most k digits. */
  lemma {:induction false} DecimalFits(v: nat, k: nat)
    requires k > 0 && v < Power10(k)
    ensures |Decimal(v)| <= k
    decreases k
  {
    if v >= 10 {
      DecimalFits(v / 10, k - 1);
    }
  }

  lemma {:induction false} DecimalReadsBack(v: nat)
    ensures ParseNat(Decimal(v), 10) == Some(v)
    decreases v
  {
    if v >= 10 {
      DecimalReadsBack(v / 10);
      var s := Decimal(v);
      assert s[..|s| - 1] == Decimal(v / 10);
    }
  }

  lemma {:induction false} DecimalHasNoDot(v: nat)
    ensures forall i :: 0 <= i < |Decimal(v)| ==> '0' <= Decimal(v)[i] <= '9'
    decreases v
  {
    if v >= 10 {
      DecimalHasNoDot(v / 10);
    }
  }

  const UINT64_LIMIT := 0x1_0000_0000_0000_0000

  lemma Uint64Fits(v: nat)
    requires v < UINT64_LIMIT
    ensures |Decimal(v)| <= 20
  {
    assert Power10(5) == 100000;
    assert Power10(10) == 10000000000;
    assert Power10(15) == 1000000000000000;
    assert Power10(20) == 100000000000000000000;
    DecimalFits(v, 20);
  }

  /** Fills a buffer of twenty bytes from its end: enough for every 64-bit value. */
  method UitoaSlow(val: nat) returns (s: string)
    requires val < UINT64_LIMIT
    ensures s == Decimal(val)
  {
    if val == 0 {
      return "0";
    }
    Uint64Fits(val);
    var buf := new char[20];
    var i: nat := buf.Length - 1;
    var v := val;
    assert buf[i + 1..] == [];
    while v >= 10
      invariant 0 <= i < buf.Length && v > 0
      invariant Decimal(v) + buf[i + 1..] == Decimal(val)
      decreases v
    {
      var q := v / 10;
      assert |Decimal(q)| >= 1;
      assert |Decimal(v)| + (buf.Length - i - 1) <= 20;
      ghost var after := buf[i + 1..];
      buf[i] := DecimalDigit(v - q * 10);
      assert buf[i..] == [DecimalDigit(v % 10)] + after;
      assert Decimal(q) + buf[i..] == Decimal(q) + [DecimalDigit(v % 10)] + after;
      i := i - 1;
      v := q;
    }
    ghost var after := buf[i + 1..];
    buf[i] := DecimalDigit(v);
    assert buf[i..] == [DecimalDigit(v)] + after;
    return buf[i..];
  }

  // ---------- Printing ----------

  /** An IPv4 address in sixteen bytes. */
  predicate Mapped(ip: Address) {
    (forall i :: 0 <= i < 10 ==> ip[i] == 0) && ip[10] == 0xFF && ip[11] == 0xFF
  }

  function HexDigit(d: nat): char
    requires d < 16
  {
    if d < 10 then ('0' as nat + d) as char else ('a' as nat + d - 10) as char
  }

  /** The nibbles of an address, low before high, from the last byte to the first. */
  function NibbleAt(ip: Address, p: nat): nat
    requires p < 32
  {
    if p % 2 == 0 then ip[15 - p / 2] % 16 else ip[15 - p / 2] / 16
  }

  /** The first `n` nibbles of the reverse name, each with its dot. */
  function Nibbles(ip: Address, n: nat): (s: string)
    requires n <= 32
    ensures |s| == 2 * n && (n > 0 ==> s[2 * n - 1] == '.')
    decreases n
  {
    if n == 0 then "" else Nibbles(ip, n - 1) + [HexDigit(NibbleAt(ip, n - 1)), '.']
  }

  lemma NibblesOfByte(ip: Address, i: nat)
    requires i < 16
    ensures Nibbles(ip, 2 * (16 - i)) == Nibbles(ip, 2 * (15 - i)) + [HexDigit(ip[i] % 16), '.', HexDigit(ip[i] / 16), '.']
  {
    var n := 2 * (15 - i);
    assert NibbleAt(ip, n) == ip[i] % 16 && NibbleAt(ip, n + 1) == ip[i] / 16;
  }

  function DottedReversed(ip: Address): string {
    Decimal(ip[15]) + "." + Decimal(ip[14]) + "." + Decimal(ip[13]) + "." + Decimal(ip[12])
  }

  function ReverseName(ip: Address): string {
    if Mapped(ip) then DottedReversed(ip) + ".in-addr" + ".arpa."
    else Nibbles(ip, 2 * |ip|) + "ip6" + ".arpa."
  }

  method ReverseIP(ip: Address) returns (name: string)
    ensures name == ReverseName(ip)
  {
    if Mapped(ip) {
      var d15 := UitoaSlow(ip[15]);
      var d14 := UitoaSlow(ip[14]);
      var d13 := UitoaSlow(ip[13]);
      var d12 := UitoaSlow(ip[12]);
      return d15 + "." + d14 + "." + d13 + "." + d12 + ".in-addr.arpa.";
    }
    var buf: string := [];
    for i := 16 downto 0
      invariant buf == Nibbles(ip, 2 * (16 - i))
    {
      var v := ip[i];
      NibblesOfByte(ip, i);
      buf := buf + [HexDigit(v % 16), '.', HexDigit(v / 16), '.'];
    }
    return buf + "ip6.arpa.";
  }

  // ---------- Reading ----------

  predicate EndsIn(s: string, suffix: string) {
    |suffix| <= |s| && s[|s| - |suffix|..] == suffix
  }

  /** The index of the last dot, -1 without one. */
  function LastDot(s: string): (i: int)
    ensures -1 <= i < |s|
    decreases |s|
  {
    if s == [] then -1 else if s[|s| - 1] == '.' then |s| - 1 else LastDot(s[..|s| - 1])
  }

  /** Labels from the last to the first fill the address: bytes for base 10, two nibbles to a byte for base 16.
      Missing labels leave zeros, surplus labels are ignored. */
  function Fill(ptr: string, i: nat, count: nat, base: nat, ip: bytes): Option<bytes>
    requires i <= count && (if base == 16 then count == 2 * |ip| else count == |ip|)
    decreases count - i
  {
    if i == count || ptr == "" then Some(ip)
    else
      var idx := LastDot(ptr);
      if idx == |ptr| - 1 then None
      else
        match ParseUint8(ptr[idx + 1..], base)
        case None => None
        case Some(n) => Fill(if idx == -1 then "" else ptr[..idx], i + 1, count, base, WithLabel(ip, i, base, n))
  }

  /** A second nibble joins the first, shifted: `|=` on bytes. Nibbles are taken to stay below 16. */
  function WithLabel(ip: bytes, i: nat, base: nat, n: byte): (r: bytes)
    requires if base == 16 then i < 2 * |ip| else i < |ip|
    ensures |r| == |ip|
  {
    if base != 16 then ip[i := n]
    else if i % 2 == 0 then ip[i / 2 := n]
    else ip[i / 2 := Or(n, ip[i / 2] as int * 16 % 0x100)]
  }

  function Power2(k: nat): (p: nat)
    ensures p > 0
  {
    if k == 0 then 1 else 2 * Power2(k - 1)
  }

  /** Bitwise or. */
  function OrBits(a: nat, b: nat): nat
    decreases a + b
  {
    if a + b == 0 then 0
    else (if a % 2 == 1 || b % 2 == 1 then 1 else 0) + 2 * OrBits(a / 2, b / 2)
  }

  lemma {:induction false} OrBelow(a: nat, b: nat, k: nat)
    requires a < Power2(k) && b < Power2(k)
    ensures OrBits(a, b) < Power2(k)
    decreases k
  {
    if a + b > 0 {
      OrBelow(a / 2, b / 2, k - 1);
    }
  }

  lemma PowersOfTwo()
    ensures Power2(4) == 16 && Power2(8) == 0x100
  {
  }

  function Or(a: byte, b: byte): byte {
    PowersOfTwo();
    OrBelow(a, b, 8);
    OrBits(a, b)
  }

  lemma {:induction false} OrWithZero(b: nat)
    ensures OrBits(0, b) == b
    decreases b
  {
    if b > 0 {
      OrWithZero(b / 2);
    }
  }

  /** Numbers without a common bit add up. */
  lemma {:induction false} OrShifted(a: nat, h: nat, j: nat)
    requires a < Power2(j)
    ensures OrBits(a, h * Power2(j)) == h * Power2(j) + a
    decreases j
  {
    if j == 0 {
      OrWithZero(h);
    } else {
      var p := Power2(j - 1);
      assert h * Power2(j) == 2 * (h * p);
      OrShifted(a / 2, h, j - 1);
    }
  }

  lemma SixteenFold(low: nat, high: nat, j: nat)
    requires Power2(j) == 16 && low < 16
    ensures OrBits(low, high * 16) == high * 16 + low
  {
    OrShifted(low, high, j);
  }

  lemma NibblesJoin(low: nat, high: nat)
    requires low < 16 && high < 16
    ensures Or(low, high * 16 % 0x100) == high * 16 + low
  {
    var shifted := high * 16;
    assert shifted % 0x100 == shifted;
    PowersOfTwo();
    SixteenFold(low, high, 4);
  }

  function PtrAddress(name: string): Option<bytes> {
    if !EndsIn(name, ".arpa.") then None
    else
      var ptr := name[..|name| - 6];
      if EndsIn(ptr, ".in-addr") then Fill(ptr[..|ptr| - 8], 0, 4, 10, seq(4, _ => 0))
      else if EndsIn(ptr, ".ip6") then Fill(ptr[..|ptr| - 4], 0, 32, 16, seq(16, _ => 0))
      else None
  }

  /** One label of the loop: it is put into the address, or its error ends the loop. */
  lemma FillStep(ptr: string, i: nat, count: nat, base: nat, ip: bytes, off: nat, rest: string, n: Option<byte>, next: bytes)
    requires i < count && (if base == 16 then count == 2 * |ip| else count == |ip|) && ptr != ""
    requires LastDot(ptr) != |ptr| - 1 && off == LastDot(ptr) + 1 && rest == (if off == 0 then "" else ptr[..off - 1])
    requires n == ParseUint8(ptr[off..], base)
    ensures n.None? ==> Fill(ptr, i, count, base, ip) == None
    ensures n.Some? && next == WithLabel(ip, i, base, n.value) ==>
      Fill(ptr, i, count, base, ip) == Fill(rest, i + 1, count, base, next)
  {
  }

  method PutLabel(ip: bytes, i: nat, base: nat, n: byte) returns (r: bytes)
    requires if base == 16 then i < 2 * |ip| else i < |ip|
    ensures r == WithLabel(ip, i, base, n) && |r| == |ip|
  {
    var b, ii := n, i;
    if base == 16 {
      ii := ii / 2;
      if i % 2 == 1 {
        b := Or(b, ip[ii] as int * 16 % 0x100);
      }
    }
    r := ip[ii := b];
  }

  /** The loop over the labels, from the last to the first. */
  method FillLabels(name: string, count: nat, base: nat, zeros: bytes) returns (r: Option<bytes>)
    requires if base == 16 then count == 2 * |zeros| else count == |zeros|
    ensures r == Fill(name, 0, count, base, zeros)
  {
    var ptr, ip := name, zeros;
    var i: nat := 0;
    while i < count && ptr != ""
      invariant i <= count && |ip| == |zeros|
      invariant Fill(ptr, i, count, base, ip) == Fill(name, 0, count, base, zeros)
      decreases count - i
    {
      var idx := LastDot(ptr);
      var off := idx + 1;
      if idx == -1 {
        idx, off := 0, 0;
      } else if idx == |ptr| - 1 {
        return None;
      }
      var n := ParseUint8(ptr[off..], base);
      if n.None? {
        FillStep(ptr, i, count, base, ip, off, ptr[..idx], n, ip);
        return None;
      }
      var next := PutLabel(ip, i, base, n.value);
      FillStep(ptr, i, count, base, ip, off, ptr[..idx], n, next);
      ip := next;
      ptr := ptr[..idx];
      i := i + 1;
    }
    return Some(ip);
  }

  method PtrIP(name: string) returns (r: Option<bytes>)
    ensures r == PtrAddress(name)
  {
    if !EndsIn(name, ".arpa.") {
      return None;
    }
    var ptr := name[..|name| - 6];
    var l: nat, base: nat := 0, 0;
    if EndsIn(ptr, ".in-addr") {
      ptr := ptr[..|ptr| - 8];
      l, base := 4, 10;
    } else if EndsIn(ptr, ".ip6") {
      ptr := ptr[..|ptr| - 4];
      l, base := 16, 16;
    }
    if l == 0 {
      return None;
    }
    var ip: bytes := seq(l, _ => 0);
    if base == 16 {
      l := l * 2;
    }
    r := FillLabels(ptr, l, base, ip);
  }

  // ---------- Round trip ----------

  lemma {:induction false} LastDotOf(s: string, d: string)
    requires forall i :: 0 <= i < |d| ==> d[i] != '.'
    ensures LastDot(s + "." + d) == |s|
    ensures LastDot(d) == -1
    decreases |d|
  {
    var all := s + "." + d;
    if d == "" {
      assert all[|all| - 1] == '.';
    } else {
      assert all[..|all| - 1] == s + "." + d[..|d| - 1];
      LastDotOf(s, d[..|d| - 1]);
    }
  }

  /** `d` is one label, and reads as `n`. */
  ghost predicate LabelOf(d: string, base: nat, n: byte) {
    d != "" && (forall j :: 0 <= j < |d| ==> d[j] != '.') && ParseUint8(d, base) == Some(n)
  }

  /** One label less. */
  lemma FillLabel(s: string, d: string, i: nat, count: nat, base: nat, ip: bytes, n: byte)
    requires i < count && (if base == 16 then count == 2 * |ip| else count == |ip|) && LabelOf(d, base, n)
    ensures Fill(s + "." + d, i, count, base, ip) == Fill(s, i + 1, count, base, WithLabel(ip, i, base, n))
    ensures Fill(d, i, count, base, ip) == Fill("", i + 1, count, base, WithLabel(ip, i, base, n))
  {
    LastDotOf(s, d);
    var all := s + "." + d;
    assert all[|s| + 1..] == d && all[..|s|] == s && d[0..] == d;
  }

  lemma DecimalLabel(v: byte)
    ensures LabelOf(Decimal(v), 10, v)
  {
    DecimalHasNoDot(v);
    DecimalReadsBack(v);
  }

  lemma TwoLabels(s: string, d: string, d': string, i: nat, count: nat, base: nat, ip: bytes, n: byte, n': byte)
    requires i + 2 <= count == |ip| && base != 16 && LabelOf(d, base, n) && LabelOf(d', base, n')
    ensures Fill(s + "." + d' + "." + d, i, count, base, ip) == Fill(s, i + 2, count, base, ip[i := n][i + 1 := n'])
    ensures Fill(d' + "." + d, i, count, base, ip) == Fill("", i + 2, count, base, ip[i := n][i + 1 := n'])
  {
    FillLabel(s + "." + d', d, i, count, base, ip, n);
    FillLabel(d', d, i, count, base, ip, n);
    FillLabel(s, d', i + 1, count, base, ip[i := n], n');
  }

  lemma FourLabels(d1: string, d2: string, d3: string, d4: string, a: byte, b: byte, c: byte, d: byte, i: nat, count: nat, base: nat, ip: bytes)
    requires i == 0 && count == |ip| == 4 && base == 10
    requires LabelOf(d1, base, a) && LabelOf(d2, base, b) && LabelOf(d3, base, c) && LabelOf(d4, base, d)
    ensures Fill(d4 + "." + d3 + "." + d2 + "." + d1, i, count, base, ip) == Some([a, b, c, d])
  {
    TwoLabels(d4 + "." + d3, d1, d2, i, count, base, ip, a, b);
    TwoLabels("", d3, d4, i + 2, count, base, ip[0 := a][1 := b], c, d);
    assert ip[0 := a][1 := b][2 := c][3 := d] == [a, b, c, d];
  }

  lemma HexLabel(d: nat)
    requires d < 16
    ensures LabelOf([HexDigit(d)], 16, d)
  {
  }

  /** The address with only its first `i` nibbles, high before low, in place. */
  function FirstNibbles(ip: Address, i: nat): (r: bytes)
    requires i <= 32
    ensures |r| == 16
  {
    seq(16, k requires 0 <= k < 16 =>
      if 2 * k + 1 < i then ip[k] else if 2 * k < i then (ip[k] / 16) as int else 0)
  }

  lemma NextNibble(ip: Address, i: nat)
    requires i < 32
    ensures NibbleAt(ip, 31 - i) < 16
    ensures WithLabel(FirstNibbles(ip, i), i, 16, NibbleAt(ip, 31 - i)) == FirstNibbles(ip, i + 1)
  {
    var k, r := i / 2, FirstNibbles(ip, i);
    if i % 2 == 1 {
      assert NibbleAt(ip, 31 - i) == ip[k] % 16 && r[k] == ip[k] / 16;
      NibblesJoin(ip[k] % 16, ip[k] / 16);
    } else {
      assert NibbleAt(ip, 31 - i) == ip[k] / 16;
    }
  }

  /** The first `n` nibbles without the last dot. */
  function Dotted(ip: Address, n: nat): (s: string)
    requires 0 < n <= 32
    ensures |s| == 2 * n - 1
  {
    Nibbles(ip, n)[..2 * n - 1]
  }

  lemma LastNibble(ip: Address, n: nat)
    requires 0 < n <= 32
    ensures Dotted(ip, n) == if n == 1 then [HexDigit(NibbleAt(ip, 0))] else Dotted(ip, n - 1) + "." + [HexDigit(NibbleAt(ip, n - 1))]
  {
  }

  /** One nibble less. */
  lemma NibbleReadBack(ip: Address, i: nat, count: nat, base: nat)
    requires i < 31 && count == 32 && base == 16
    ensures Fill(Dotted(ip, count - i), i, count, base, FirstNibbles(ip, i))
         == Fill(Dotted(ip, count - (i + 1)), i + 1, count, base, FirstNibbles(ip, i + 1))
  {
    var n := NibbleAt(ip, 31 - i);
    NextNibble(ip, i);
    HexLabel(n);
    LastNibble(ip, count - i);
    FillLabel(Dotted(ip, count - (i + 1)), [HexDigit(n)], i, count, base, FirstNibbles(ip, i), n);
  }

  lemma LastNibbleReadBack(ip: Address, i: nat, count: nat, base: nat)
    requires i == 31 && count == 32 && base == 16
    ensures Fill(Dotted(ip, count - i), i, count, base, FirstNibbles(ip, i)) == Some(ip)
  {
    var n := NibbleAt(ip, 31 - i);
    NextNibble(ip, i);
    HexLabel(n);
    LastNibble(ip, count - i);
    FillLabel("", [HexDigit(n)], i, count, base, FirstNibbles(ip, i), n);
    assert FirstNibbles(ip, 32) == ip;
  }

  /** What is left of the nibbles after `i` labels were taken from the end. */
  lemma {:induction false} NibblesReadBack(ip: Address, i: nat, count: nat, base: nat)
    requires i < 32 == count && base == 16
    ensures Fill(Dotted(ip, count - i), i, count, base, FirstNibbles(ip, i)) == Some(ip)
    decreases count - i
  {
    if i == 31 {
      LastNibbleReadBack(ip, i, count, base);
    } else {
      NibbleReadBack(ip, i, count, base);
      NibblesReadBack(ip, i + 1, count, base);
    }
  }

  lemma DottedRoundTrip(dotted: string)
    ensures PtrAddress(dotted + ".in-addr" + ".arpa.") == Fill(dotted, 0, 4, 10, seq(4, _ => 0))
  {
    Suffix(dotted + ".in-addr", ".arpa.");
    Suffix(dotted, ".in-addr");
  }

  lemma NibblesRoundTrip(front: string)
    ensures PtrAddress(front + ".ip6" + ".arpa.") == Fill(front, 0, 32, 16, seq(16, _ => 0))
  {
    Suffix(front + ".ip6", ".arpa.");
    Suffix(front, ".ip6");
    NotInAddr(front);
  }

  /** Reading a reverse name gives back the address: in sixteen bytes, or in four if it is an IPv4 address. */
  lemma ReverseRoundTrip(ip: Address)
    ensures PtrAddress(ReverseName(ip)) == Some(if Mapped(ip) then ip[12..] else ip)
  {
    if Mapped(ip) {
      DottedRoundTrip(DottedReversed(ip));
      MappedReadsBack(ip[12], ip[13], ip[14], ip[15]);
      assert ip[12..] == [ip[12], ip[13], ip[14], ip[15]];
    } else {
      WholeReadsBack(ip, 2 * |ip|);
    }
  }

  lemma WholeReadsBack(ip: Address, n: nat)
    requires n == 2 * |ip|
    ensures PtrAddress(Nibbles(ip, n) + "ip6" + ".arpa.") == Some(ip)
  {
    assert Nibbles(ip, n) + "ip6" == Dotted(ip, n) + ".ip6";
    NibblesRoundTrip(Dotted(ip, n));
    assert FirstNibbles(ip, 0) == seq(16, _ => 0);
    NibblesReadBack(ip, 0, n, 16);
  }

  lemma MappedReadsBack(a: byte, b: byte, c: byte, d: byte)
    ensures Fill(Decimal(d) + "." + Decimal(c) + "." + Decimal(b) + "." + Decimal(a), 0, 4, 10, seq(4, _ => 0)) == Some([a, b, c, d])
  {
    DecimalLabel(a);
    DecimalLabel(b);
    DecimalLabel(c);
    DecimalLabel(d);
    FourLabels(Decimal(a), Decimal(b), Decimal(c), Decimal(d), a, b, c, d, 0, 4, 10, seq(4, _ => 0));
  }

  lemma Suffix(s: string, suffix: string)
    ensures EndsIn(s + suffix, suffix) && (s + suffix)[..|s + suffix| - |suffix|] == s
  {
  }

  lemma NotInAddr(front: string)
    ensures !EndsIn(front + ".ip6", ".in-addr")
  {
    var s := front + ".ip6";
    assert s[|s| - 1] == '6';
    assert |s| >= 8 ==> s[|s| - 8..][7] == s[|s| - 1];
  }

  // ---------- Private addresses ----------

  /** An IPv4 address among the loopback, link-local and private ones. */
  predicate PrivateIPv4(a: byte, b: byte) {
    a == 127 || (a == 169 && b == 254) || a == 10 || (a == 172 && 16 <= b < 32) || (a == 192 && b == 168)
  }

  /** ::1, fe80::/10 and fd00::/8. */
  predicate PrivateIPv6(ip: Address) {
    || ip == seq(15, _ => 0) + [1]
    || (ip[0] == 0xFE && 0x80 <= ip[1] < 0xC0)
    || ip[0] == 0xFD
  }

  predicate Private(ip: Address) {
    if Mapped(ip) then PrivateIPv4(ip[12], ip[13]) else PrivateIPv6(ip)
  }

  /** The checks of the net package and of isPrivateReverse on an address of four or sixteen bytes. */
  predicate PrivateAddress(ip: bytes) {
    if |ip| == 4 then PrivateIPv4(ip[0], ip[1])
    else |ip| == 16 && Private(ip)
  }

  predicate IsPrivateReverse(name: string) {
    match PtrAddress(name)
    case None => false
    case Some(ip) => PrivateAddress(ip)
  }

  /** 127.0.0.0/8, 169.254.0.0/16, 10.0.0.0/8, 172.16.0.0/12 and 192.168.0.0/16, as ranges of the 32-bit number; ::1,
      fe80::/10 and fd00::/8, as ranges of the first 16 bits. */
  predicate PrivateInNumbers(ip: Address) {
    if ip[..12] == [0, 0, 0, 0, 0, 0, 0, 0, 0, 0, 255, 255] then
      var v := GetU32(ip, 12);
      || 0x7F00_0000 <= v <= 0x7FFF_FFFF || 0xA9FE_0000 <= v <= 0xA9FE_FFFF || 0x0A00_0000 <= v <= 0x0AFF_FFFF
      || 0xAC10_0000 <= v <= 0xAC1F_FFFF || 0xC0A8_0000 <= v <= 0xC0A8_FFFF
    else
      || ip == [0, 0, 0, 0, 0, 0, 0, 0, 0, 0, 0, 0, 0, 0, 0, 1]
      || 0xFE80 <= GetU16(ip, 0) <= 0xFEBF || 0xFD00 <= GetU16(ip, 0) <= 0xFDFF
  }

  lemma PrivateRanges(ip: Address)
    ensures Private(ip) <==> PrivateInNumbers(ip)
  {
    assert Mapped(ip) <==> ip[..12] == [0, 0, 0, 0, 0, 0, 0, 0, 0, 0, 255, 255] by {
      assert forall i :: 0 <= i < 12 ==> ip[..12][i] == ip[i];
    }
    if Mapped(ip) {
      assert GetU32(ip, 12) == (ip[12] as int * 256 + ip[13]) * 0x1_0000 + GetU16(ip, 14);
    } else {
      assert seq(15, _ => 0) + [1] == [0, 0, 0, 0, 0, 0, 0, 0, 0, 0, 0, 0, 0, 0, 0, 1];
    }
  }

  /** The reverse name of an address is private exactly when the address is. */
  lemma PrivateNameIsPrivateAddress(ip: Address)
    ensures IsPrivateReverse(ReverseName(ip)) <==> Private(ip)
    ensures IsPrivateReverse(ReverseName(ip)) <==> PrivateInNumbers(ip)
  {
    ReverseRoundTrip(ip);
    PrivateRanges(ip);
  }

  // ---------- Reverse names, character by character ----------

  const HEX_DIGITS := "0123456789abcdef"

  /** The nibbles of an address, each in front of a dot, from the last byte to the first and the low one before the high one. */
  lemma NibbleName(ip: Address, p: nat)
    requires !Mapped(ip) && p < 16
    ensures var s := ReverseName(ip);
      && |s| == 73 && s[64..] == "ip6.arpa."
      && s[4 * p] == HEX_DIGITS[ip[15 - p] % 16] && s[4 * p + 1] == '.'
      && s[4 * p + 2] == HEX_DIGITS[ip[15 - p] / 16] && s[4 * p + 3] == '.'
  {
    WholeName(ip, 2 * |ip|, p, ReverseName(ip));
  }

  lemma WholeName(ip: Address, n: nat, p: nat, s: string)
    requires n == 2 * |ip| && p < 16 && s == Nibbles(ip, n) + "ip6" + ".arpa."
    ensures |s| == 73 && s[64..] == "ip6.arpa."
    ensures s[4 * p] == HEX_DIGITS[ip[15 - p] % 16] && s[4 * p + 1] == '.'
    ensures s[4 * p + 2] == HEX_DIGITS[ip[15 - p] / 16] && s[4 * p + 3] == '.'
  {
    var x := Nibbles(ip, n);
    NibblesAt(ip, n, 2 * p);
    NibblesAt(ip, n, 2 * p + 1);
    NibblePlaces(ip, p);
    InFrontOf(x, s, 4 * p);
  }

  lemma InFrontOf(x: string, s: string, i: nat)
    requires |x| == 64 && s == x + "ip6" + ".arpa." && i + 4 <= 64
    ensures |s| == 73 && s[64..] == "ip6.arpa."
    ensures s[i] == x[i] && s[i + 1] == x[i + 1] && s[i + 2] == x[i + 2] && s[i + 3] == x[i + 3]
  {
    assert s == x + "ip6.arpa.";
  }

  lemma NibblePlaces(ip: Address, p: nat)
    requires p < 16
    ensures NibbleAt(ip, 2 * p) == ip[15 - p] % 16 && NibbleAt(ip, 2 * p + 1) == ip[15 - p] / 16
  {
  }

  lemma {:induction false} NibblesAt(ip: Address, n: nat, p: nat)
    requires p < n <= 32
    ensures Nibbles(ip, n)[2 * p] == HEX_DIGITS[NibbleAt(ip, p)] && Nibbles(ip, n)[2 * p + 1] == '.'
    decreases n
  {
    if p < n - 1 {
      NibblesAt(ip, n - 1, p);
    }
  }

  /** The value of every digit, in either case, and of no other character. */
  lemma DigitValues(c: char, d: nat)
    requires d < 16
    ensures DigitOf(c) == Some(d) <==> c == HEX_DIGITS[d] || c == "0123456789ABCDEF"[d]
  {
  }

  /** The decimal digits of a byte, without leading zeros. */
  function ByteDigits(b: byte): string {
    if b < 10 then [HEX_DIGITS[b]]
    else if b < 100 then [HEX_DIGITS[b / 10], HEX_DIGITS[b % 10]]
    else [HEX_DIGITS[b / 100], HEX_DIGITS[b / 10 % 10], HEX_DIGITS[b % 10]]
  }

  lemma DecimalDigits(b: byte)
    ensures Decimal(b) == ByteDigits(b)
  {
    if b >= 100 {
      assert Decimal(b / 10) == Decimal(b / 100) + [DecimalDigit(b / 10 % 10)];
    }
  }

  /** The last four bytes of an IPv4 address, from the last to the first. */
  lemma DottedName(ip: Address)
    requires Mapped(ip)
    ensures ReverseName(ip) ==
      ByteDigits(ip[15]) + "." + ByteDigits(ip[14]) + "." + ByteDigits(ip[13]) + "." + ByteDigits(ip[12]) + ".in-addr.arpa."
  {
    DecimalDigits(ip[12]);
    DecimalDigits(ip[13]);
    DecimalDigits(ip[14]);
    DecimalDigits(ip[15]);
  }
}
