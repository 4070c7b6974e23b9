/**
  The `.drs` v2 file format: section headers and section bodies, each with its printer and
  its reader (src/ruleset/format.rs and the section loops of src/ruleset/drs.rs).
*/
module DrsFormat {
  import opened Wrappers
  import opened Bytes
  import opened IpRanges
  import opened SuffixIndex

  const MAGIC: ByteString := [68, 82, 83, 0]
  const VERSION_V1: byte := 1
  const VERSION_V2: byte := 2
  const V2_HEADER_LEN: nat := 54
  const SECTION_HEADER_LEN: nat := 9
  const MAX_DOMAIN: nat := 253
  const MAX_STRING: nat := 255

  datatype DrsError =
    | Truncated(expected: nat, got: nat)
    | BadMagic
    | UnsupportedVersion(version: byte)
    | UnknownSection(code: byte)
    | InvalidUtf8
    | InvalidFst
    | InvalidRegex
    | LoadedInvalidRegex
    | DomainTooLong
    | WrongFamily
    | PrefixOverflow  // the shift by `32 - prefix` or `128 - prefix` that panics in a debug build

  /** The library code this file calls: the FST codec, UTF-8 checking and regexes. */
  datatype Env = Env(
    fstEncode: Index -> ByteString,
    fstDecode: ByteString -> Option<Index>,
    isUtf8: ByteString -> bool,
    compiles: ByteString -> bool,
    setCompiles: seq<ByteString> -> bool,
    regexHit: (ByteString, ByteString) -> bool
  ) {
    /** The FST codec reads back what it wrote, and writes something. */
    ghost predicate Valid() {
      forall keys: Index :: fstEncode(keys) != [] && fstDecode(fstEncode(keys)) == Some(keys)
    }
  }

  datatype SectionType =
    | Domain | DomainSuffix | DomainKeyword | DomainRegex | DomainFst | DomainSuffixFst
    | ExcludeDomainFst | ExcludeSuffixFst | ExcludeDomainRegex | IpCidrV4 | IpCidrV6 | Port
  {
    function Code(): byte {
      match this
      case Domain => 0x01
      case DomainSuffix => 0x02
      case DomainKeyword => 0x03
      case DomainRegex => 0x04
      case DomainFst => 0x05
      case DomainSuffixFst => 0x06
      case ExcludeDomainFst => 0x07
      case ExcludeSuffixFst => 0x08
      case ExcludeDomainRegex => 0x09
      case IpCidrV4 => 0x10
      case IpCidrV6 => 0x11
      case Port => 0x20
    }
  }

  /** `SectionType::from_u8` is the inverse of the discriminants, and rejects all other bytes. */
  function FromU8(b: byte): (r: Result<SectionType, DrsError>)
    ensures forall ty: SectionType :: r == Ok(ty) <==> ty.Code() == b
    ensures r.Err? ==> r.error == UnknownSection(b)
  {
    match b
    case 0x01 => Ok(Domain)
    case 0x02 => Ok(DomainSuffix)
    case 0x03 => Ok(DomainKeyword)
    case 0x04 => Ok(DomainRegex)
    case 0x05 => Ok(DomainFst)
    case 0x06 => Ok(DomainSuffixFst)
    case 0x07 => Ok(ExcludeDomainFst)
    case 0x08 => Ok(ExcludeSuffixFst)
    case 0x09 => Ok(ExcludeDomainRegex)
    case 0x10 => Ok(IpCidrV4)
    case 0x11 => Ok(IpCidrV6)
    case 0x20 => Ok(Port)
    case _ => Err(UnknownSection(b))
  }

  // ---------------------------------------------------------------- headers

  datatype Section = Section(ty: SectionType, count: nat, body: ByteString)

  function SectionHeader(ty: SectionType, count: nat, byteLen: nat): (r: ByteString)
    ensures |r| == SECTION_HEADER_LEN
  {
    [ty.Code()] + LE(count, 4) + LE(byteLen, 4)
  }

  function PrintSection(s: Section): ByteString
  {
    SectionHeader(s.ty, s.count, |s.body|) + s.body
  }

  function PrintSections(ss: seq<Section>): ByteString
  {
    if ss == [] then [] else PrintSection(ss[0]) + PrintSections(ss[1..])
  }

  function FileHeader(buildTime: nat, sourceHash: ByteString, sectionCount: nat): (r: ByteString)
    requires |sourceHash| == 32
    ensures |r| == V2_HEADER_LEN
  {
    MAGIC + [VERSION_V2, 0] + LE(buildTime, 8) + sourceHash + LE(sectionCount, 4) + [0, 0, 0, 0]
  }

  datatype HeaderInfo = HeaderInfo(ty: SectionType, count: nat, byteLen: nat)

  function ReadSectionHeader(data: ByteString, offset: nat): (r: Result<HeaderInfo, DrsError>)
    ensures r.Ok? ==> offset + SECTION_HEADER_LEN <= |data|
  {
    if |data| < offset + SECTION_HEADER_LEN then Err(Truncated(offset + SECTION_HEADER_LEN, |data|))
    else
      match FromU8(data[offset])
      case Err(e) => Err(e)
      case Ok(ty) => Ok(HeaderInfo(ty, FromLE(data[offset + 1..offset + 5]), FromLE(data[offset + 5..offset + 9])))
  }

  /** A header reads back from any position it was printed at. */
  lemma HeaderRoundTrip(data: ByteString, offset: nat, ty: SectionType, count: nat, byteLen: nat)
    requires offset + SECTION_HEADER_LEN <= |data|
    requires data[offset..offset + SECTION_HEADER_LEN] == SectionHeader(ty, count, byteLen)
    requires count < U32_LIMIT && byteLen < U32_LIMIT
    ensures ReadSectionHeader(data, offset) == Ok(HeaderInfo(ty, count, byteLen))
  {
    var h := SectionHeader(ty, count, byteLen);
    HeaderSlices(ty, count, byteLen);
    assert data[offset..][..SECTION_HEADER_LEN] == h;
    var rest := data[offset..][SECTION_HEADER_LEN..];
    assert data[offset..] == h + rest;
    SliceOfBlock(data, offset, h, rest, 0, 1);
    SliceOfBlock(data, offset, h, rest, 1, 5);
    SliceOfBlock(data, offset, h, rest, 5, 9);
    hide SectionHeader, LE, FromLE;
    assert data[offset] == data[offset + 0..offset + 1][0] == h[0..1][0];
  }

  /** The fields of a header. */
  lemma HeaderSlices(ty: SectionType, count: nat, byteLen: nat)
    requires count < U32_LIMIT && byteLen < U32_LIMIT
    ensures var h := SectionHeader(ty, count, byteLen);
            h[0..1] == [ty.Code()] && FromLE(h[1..5]) == count && FromLE(h[5..9]) == byteLen
  {
    Pow256Values();
    LERoundTrip(count, 4);
    LERoundTrip(byteLen, 4);
    hide LE, FromLE, Pow256;
    var h := SectionHeader(ty, count, byteLen);
    assert h[1..5] == LE(count, 4) && h[5..9] == LE(byteLen, 4);
  }

  // ---------------------------------------------------------------- string sections

  /** The strings that fit a one-byte length; the printer drops the others. */
  function Kept(items: seq<ByteString>): seq<ByteString>
  {
    if items == [] then []
    else (if |items[0]| <= MAX_STRING then [items[0]] else []) + Kept(items[1..])
  }

  lemma {:induction false} KeptMembers(items: seq<ByteString>, s: ByteString)
    ensures s in Kept(items) <==> s in items && |s| <= MAX_STRING
  {
    if items != [] {
      KeptMembers(items[1..], s);
    }
  }

  function EncodeString(s: ByteString): ByteString
  {
    if |s| <= MAX_STRING then [|s|] + s else []
  }

  function EncodeStrings(items: seq<ByteString>): ByteString
  {
    if items == [] then [] else EncodeString(items[0]) + EncodeStrings(items[1..])
  }

  /** `build_string_section`. */
  method BuildStringSection(items: seq<ByteString>) returns (buf: ByteString, count: nat)
    ensures buf == EncodeStrings(items) && count == |Kept(items)|
  {
    buf, count := [], 0;
    for i := 0 to |items|
      invariant EncodeStrings(items) == buf + EncodeStrings(items[i..])
      invariant |Kept(items)| == count + |Kept(items[i..])|
    {
      StringStep(items, i);
      Associative(buf, EncodeString(items[i]), EncodeStrings(items[i + 1..]));
      if |items[i]| > MAX_STRING {
        continue;
      }
      buf := buf + ([|items[i]|] + items[i]);
      count := count + 1;
    }
  }

  lemma StringStep(items: seq<ByteString>, i: nat)
    requires i < |items|
    ensures EncodeStrings(items[i..]) == EncodeString(items[i]) + EncodeStrings(items[i + 1..])
    ensures |Kept(items[i..])| == (if |items[i]| <= MAX_STRING then 1 else 0) + |Kept(items[i + 1..])|
  {
    assert items[i..][1..] == items[i + 1..];
  }

  /** The strings of a section from byte `i` on, after those in `items`. */
  function DecodeStrings(env: Env, body: ByteString, i: nat, items: seq<ByteString>)
    : Result<seq<ByteString>, DrsError>
    requires i <= |body|
    decreases |body| - i
  {
    if i == |body| then Ok(items)
    else
      var next := i + 1 + body[i];
      if |body| < next then Err(Truncated(next, |body|))
      else if !env.isUtf8(body[i + 1..next]) then Err(InvalidUtf8)
      else DecodeStrings(env, body, next, items + [body[i + 1..next]])
  }

  /** The loop that reads a keyword, regex or exclude-regex section. */
  method ReadStrings(env: Env, body: ByteString) returns (r: Result<seq<ByteString>, DrsError>)
    ensures r == DecodeStrings(env, body, 0, [])
  {
    var items: seq<ByteString> := [];
    var i := 0;
    while i < |body|
      invariant i <= |body|
      invariant DecodeStrings(env, body, 0, []) == DecodeStrings(env, body, i, items)
    {
      var l := body[i];
      i := i + 1;
      if |body| < i + l {
        return Err(Truncated(i + l, |body|));
      }
      if !env.isUtf8(body[i..i + l]) {
        return Err(InvalidUtf8);
      }
      items := items + [body[i..i + l]];
      i := i + l;
    }
    return Ok(items);
  }

  lemma DecodeOneString(env: Env, s: ByteString, rest: ByteString, body: ByteString, i: nat, acc: seq<ByteString>)
    requires env.isUtf8(s) && |s| <= MAX_STRING
    requires i <= |body| && body[i..] == [|s|] + s + rest
    ensures var next := i + 1 + |s|;
            next <= |body| && body[next..] == rest
            && DecodeStrings(env, body, i, acc) == DecodeStrings(env, body, next, acc + [s])
  {
    var tail, next := body[i..], i + 1 + |s|;
    assert body[i] == tail[0] == |s|;
    assert body[i + 1..next] == tail[1..1 + |s|] == s;
    assert body[next..] == tail[1 + |s|..] == rest;
  }

  ghost predicate AllUtf8(env: Env, items: seq<ByteString>)
  {
    forall s | s in items :: env.isUtf8(s)
  }

  lemma {:induction false} StringsRoundTrip(env: Env, items: seq<ByteString>, body: ByteString, i: nat,
      acc: seq<ByteString>)
    requires AllUtf8(env, items)
    requires i <= |body| && body[i..] == EncodeStrings(items)
    ensures DecodeStrings(env, body, i, acc) == Ok(acc + Kept(items))
    decreases items
  {
    if items == [] {
      assert acc + [] == acc;
    } else {
      var s, rest := items[0], items[1..];
      assert s in items && AllUtf8(env, rest);
      if |s| <= MAX_STRING {
        DecodeOneString(env, s, EncodeStrings(rest), body, i, acc);
        StringsRoundTrip(env, rest, body, i + 1 + |s|, acc + [s]);
        Associative(acc, [s], Kept(rest));
      } else {
        assert EncodeStrings(items) == EncodeStrings(rest);
        StringsRoundTrip(env, rest, body, i, acc);
        assert Kept(items) == Kept(rest);
      }
    }
  }

  lemma StringSectionRoundTrip(env: Env, items: seq<ByteString>)
    requires AllUtf8(env, items)
    ensures DecodeStrings(env, EncodeStrings(items), 0, []) == Ok(Kept(items))
  {
    assert EncodeStrings(items)[0..] == EncodeStrings(items);
    StringsRoundTrip(env, items, EncodeStrings(items), 0, []);
    assert [] + Kept(items) == Kept(items);
  }

  // ---------------------------------------------------------------- CIDR and port sections

  type Cidr = (nat, byte)

  function AddrLen(width: nat): nat
  {
    if width == 32 then 4 else 16
  }

  /** IPv4 addresses are stored little-endian, IPv6 addresses big-endian. */
  function EncodeAddr(width: nat, addr: nat): (r: ByteString)
    ensures |r| == AddrLen(width)
  {
    if width == 32 then LE(addr, 4) else BE(addr, 16)
  }

  function DecodeAddr(width: nat, s: ByteString): nat
  {
    if width == 32 then FromLE(s) else FromBE(s)
  }

  lemma AddrRoundTrip(width: nat, addr: nat)
    requires width == 32 || width == 128
    requires addr < Pow2(width)
    ensures DecodeAddr(width, EncodeAddr(width, addr)) == addr
  {
    Pow2Values();
    Pow256Values();
    if width == 32 {
      LERoundTrip(addr, 4);
    } else {
      BERoundTrip(addr, 16);
    }
  }

  lemma Pow2Values()
    ensures Pow2(32) == U32_LIMIT
    ensures Pow2(128) == 0x1_0000_0000_0000_0000_0000_0000_0000_0000
  {
    BitsOfBytes(4);
    BitsOfBytes(16);
    Pow256Values();
  }

  lemma {:induction false} BitsOfBytes(k: nat)
    ensures Pow2(8 * k) == Pow256(k)
  {
    if k > 0 {
      var n := 8 * (k - 1);
      BitsOfBytes(k - 1);
      assert Pow2(n + 2) == 4 * Pow2(n);
      assert Pow2(n + 4) == 4 * Pow2(n + 2);
      assert Pow2(n + 6) == 4 * Pow2(n + 4);
    }
  }

  function EncodeCidrs(width: nat, cidrs: seq<Cidr>): ByteString
  {
    if cidrs == [] then []
    else EncodeAddr(width, cidrs[0].0) + [cidrs[0].1] + EncodeCidrs(width, cidrs[1..])
  }

  /** `build_ipv4_section` (width 32) and `build_ipv6_section` (width 128). */
  method BuildCidrSection(width: nat, cidrs: seq<Cidr>) returns (buf: ByteString)
    ensures buf == EncodeCidrs(width, cidrs)
  {
    hide EncodeAddr, EncodeCidrs;
    buf := [];
    for i := 0 to |cidrs|
      invariant EncodeCidrs(width, cidrs) == buf + EncodeCidrs(width, cidrs[i..])
    {
      CidrStep(width, cidrs, i, buf);
      buf := buf + EncodeAddr(width, cidrs[i].0);
      buf := buf + [cidrs[i].1];
    }
    assert cidrs[|cidrs|..] == [];
    NothingEncoded(width, buf);
  }

  lemma CidrStep(width: nat, cidrs: seq<Cidr>, i: nat, buf: ByteString)
    requires i < |cidrs|
    ensures buf + EncodeCidrs(width, cidrs[i..])
         == buf + EncodeAddr(width, cidrs[i].0) + [cidrs[i].1] + EncodeCidrs(width, cidrs[i + 1..])
  {
    hide EncodeAddr;
    assert cidrs[i..][1..] == cidrs[i + 1..];
  }

  lemma NothingEncoded(width: nat, buf: ByteString)
    ensures buf + EncodeCidrs(width, []) == buf + EncodePorts([]) == buf
  {
  }

  /** The ranges of the whole entries from byte `i` on, after those in `ranges`. */
  function DecodeCidrs(width: nat, body: ByteString, i: nat, ranges: seq<Range>): Result<seq<Range>, DrsError>
    decreases |body| - i
  {
    var n := AddrLen(width);
    if i + n + 1 > |body| then Ok(ranges)
    else if body[i + n] > width then Err(PrefixOverflow)
    else
      DecodeCidrs(width, body, i + n + 1,
                  ranges + [CidrToRange(width, DecodeAddr(width, body[i..i + n]), body[i + n])])
  }

  function DecodeCidrSection(width: nat, body: ByteString): Result<seq<Range>, DrsError>
  {
    var entryLen := AddrLen(width) + 1;
    if |body| % entryLen != 0 then Err(Truncated((|body| / entryLen + 1) * entryLen, |body|))
    else DecodeCidrs(width, body, 0, [])
  }

  /** The loop that reads an IPv4 or IPv6 CIDR section. */
  method ReadCidrs(width: nat, body: ByteString) returns (r: Result<seq<Range>, DrsError>)
    ensures r == DecodeCidrSection(width, body)
  {
    var n := AddrLen(width);
    var entryLen := n + 1;
    if |body| % entryLen != 0 {
      return Err(Truncated((|body| / entryLen + 1) * entryLen, |body|));
    }
    QuotientExact(|body|, entryLen);
    r := ReadCidrEntries(width, body, |body| / entryLen);
  }

  lemma QuotientExact(a: nat, d: nat)
    requires d > 0 && a % d == 0
    ensures a == d * (a / d)
  {
  }

  method ReadCidrEntries(width: nat, body: ByteString, ghost entries: nat) returns (r: Result<seq<Range>, DrsError>)
    requires |body| == (AddrLen(width) + 1) * entries
    ensures r == DecodeCidrs(width, body, 0, [])
  {
    hide CidrToRange, DecodeAddr;
    var n := AddrLen(width);
    var entryLen := n + 1;
    var ranges: seq<Range> := [];
    var i := 0;
    ghost var k := 0;
    while i < |body|
      invariant k <= entries && i == entryLen * k && i <= |body|
      invariant DecodeCidrs(width, body, 0, []) == DecodeCidrs(width, body, i, ranges)
    {
      NextEntryFits(entryLen, k, entries);
      var addr := DecodeAddr(width, body[i..i + n]);
      var prefix := body[i + n];
      if prefix > width {
        return Err(PrefixOverflow);
      }
      ranges := ranges + [CidrToRange(width, addr, prefix)];
      i := i + entryLen;
      k := k + 1;
    }
    return Ok(ranges);
  }

  ghost predicate CidrsValid(width: nat, cidrs: seq<Cidr>)
  {
    forall c | c in cidrs :: c.0 < Pow2(width) && c.1 <= width
  }

  function RangesOf(width: nat, cidrs: seq<Cidr>): (r: seq<Range>)
    requires CidrsValid(width, cidrs)
  {
    if cidrs == [] then []
    else
      assert cidrs[0] in cidrs;
      [CidrToRange(width, cidrs[0].0, cidrs[0].1)] + RangesOf(width, cidrs[1..])
  }

  lemma {:induction false} EncodeCidrsLength(width: nat, cidrs: seq<Cidr>)
    ensures |EncodeCidrs(width, cidrs)| == (AddrLen(width) + 1) * |cidrs|
  {
    if cidrs != [] {
      EncodeCidrsLength(width, cidrs[1..]);
    }
  }

  lemma DecodeOneCidr(width: nat, c: Cidr, rest: ByteString, body: ByteString, i: nat, acc: seq<Range>)
    requires width == 32 || width == 128
    requires c.0 < Pow2(width) && c.1 <= width
    requires i <= |body| && body[i..] == EncodeAddr(width, c.0) + [c.1] + rest
    ensures var next := i + AddrLen(width) + 1;
            next <= |body| && body[next..] == rest
            && DecodeCidrs(width, body, i, acc) == DecodeCidrs(width, body, next, acc + [CidrToRange(width, c.0, c.1)])
  {
    var n, tail := AddrLen(width), body[i..];
    assert body[i..i + n] == tail[..n] == EncodeAddr(width, c.0);
    assert body[i + n] == tail[n] == c.1;
    assert body[i + n + 1..] == tail[n + 1..] == rest;
    AddrRoundTrip(width, c.0);
  }

  lemma {:induction false} CidrsRoundTrip(width: nat, cidrs: seq<Cidr>, body: ByteString, i: nat, acc: seq<Range>)
    requires width == 32 || width == 128
    requires CidrsValid(width, cidrs)
    requires i <= |body| && body[i..] == EncodeCidrs(width, cidrs)
    ensures DecodeCidrs(width, body, i, acc) == Ok(acc + RangesOf(width, cidrs))
    decreases cidrs
  {
    if cidrs == [] {
      assert acc + [] == acc;
    } else {
      var c, rest := cidrs[0], cidrs[1..];
      assert c in cidrs && CidrsValid(width, rest);
      DecodeOneCidr(width, c, EncodeCidrs(width, rest), body, i, acc);
      var r := [CidrToRange(width, c.0, c.1)];
      CidrsRoundTrip(width, rest, body, i + AddrLen(width) + 1, acc + r);
      Associative(acc, r, RangesOf(width, rest));
    }
  }

  /** A CIDR section reads back as the ranges of the CIDRs it was printed from. */
  lemma CidrSectionRoundTrip(width: nat, cidrs: seq<Cidr>)
    requires width == 32 || width == 128
    requires CidrsValid(width, cidrs)
    ensures DecodeCidrSection(width, EncodeCidrs(width, cidrs)) == Ok(RangesOf(width, cidrs))
  {
    var body, entryLen := EncodeCidrs(width, cidrs), AddrLen(width) + 1;
    EncodeCidrsLength(width, cidrs);
    QuotientUnique(|body|, entryLen, |cidrs|, 0);
    assert body[0..] == body;
    CidrsRoundTrip(width, cidrs, body, 0, []);
    assert [] + RangesOf(width, cidrs) == RangesOf(width, cidrs);
  }

  type PortRange = (nat, nat)

  function EncodePorts(ports: seq<PortRange>): ByteString
  {
    if ports == [] then []
    else LE(ports[0].0, 2) + LE(ports[0].1, 2) + EncodePorts(ports[1..])
  }

  /** `build_port_section`. */
  method BuildPortSection(ports: seq<PortRange>) returns (buf: ByteString)
    ensures buf == EncodePorts(ports)
  {
    hide LE, EncodePorts;
    buf := [];
    for i := 0 to |ports|
      invariant EncodePorts(ports) == buf + EncodePorts(ports[i..])
    {
      PortStep(ports, i, buf);
      buf := buf + LE(ports[i].0, 2);
      buf := buf + LE(ports[i].1, 2);
    }
    assert ports[|ports|..] == [];
    NothingEncoded(32, buf);
  }

  lemma PortStep(ports: seq<PortRange>, i: nat, buf: ByteString)
    requires i < |ports|
    ensures buf + EncodePorts(ports[i..]) == buf + LE(ports[i].0, 2) + LE(ports[i].1, 2) + EncodePorts(ports[i + 1..])
  {
    hide LE;
    assert ports[i..][1..] == ports[i + 1..];
  }

  function DecodePorts(body: ByteString, i: nat, ports: seq<PortRange>): seq<PortRange>
    decreases |body| - i
  {
    if i + 4 > |body| then ports
    else DecodePorts(body, i + 4, ports + [(FromLE(body[i..i + 2]), FromLE(body[i + 2..i + 4]))])
  }

  function DecodePortSection(body: ByteString): Result<seq<PortRange>, DrsError>
  {
    if |body| % 4 != 0 then Err(Truncated((|body| / 4 + 1) * 4, |body|)) else Ok(DecodePorts(body, 0, []))
  }

  /** The loop that reads a port section. */
  method ReadPorts(body: ByteString) returns (r: Result<seq<PortRange>, DrsError>)
    ensures r == DecodePortSection(body)
  {
    if |body| % 4 != 0 {
      return Err(Truncated((|body| / 4 + 1) * 4, |body|));
    }
    var ports: seq<PortRange> := [];
    var i := 0;
    while i < |body|
      invariant i <= |body| && (|body| - i) % 4 == 0
      invariant DecodePorts(body, 0, []) == DecodePorts(body, i, ports)
    {
      ports := ports + [(FromLE(body[i..i + 2]), FromLE(body[i + 2..i + 4]))];
      i := i + 4;
    }
    return Ok(ports);
  }

  ghost predicate PortsValid(ports: seq<PortRange>)
  {
    forall p | p in ports :: p.0 < U16_LIMIT && p.1 < U16_LIMIT
  }

  lemma {:induction false} PortsRoundTrip(ports: seq<PortRange>, body: ByteString, i: nat, acc: seq<PortRange>)
    requires PortsValid(ports)
    requires i <= |body| && body[i..] == EncodePorts(ports)
    ensures DecodePorts(body, i, acc) == acc + ports
    ensures (|body| - i) % 4 == 0
    decreases ports
  {
    if ports != [] {
      var p, rest := ports[0], ports[1..];
      assert p in ports && forall x | x in rest :: x in ports;
      var tail := body[i..];
      assert tail == LE(p.0, 2) + LE(p.1, 2) + EncodePorts(rest);
      assert body[i..i + 2] == tail[..2] == LE(p.0, 2);
      assert body[i + 2..i + 4] == tail[2..4] == LE(p.1, 2);
      assert body[i + 4..] == tail[4..] == EncodePorts(rest);
      Pow256Values();
      LERoundTrip(p.0, 2);
      LERoundTrip(p.1, 2);
      PortsRoundTrip(rest, body, i + 4, acc + [p]);
      assert acc + ports == acc + [p] + rest;
    }
  }

  lemma PortSectionRoundTrip(ports: seq<PortRange>)
    requires PortsValid(ports)
    ensures DecodePortSection(EncodePorts(ports)) == Ok(ports)
  {
    assert EncodePorts(ports)[0..] == EncodePorts(ports);
    PortsRoundTrip(ports, EncodePorts(ports), 0, []);
    assert [] + ports == ports;
  }

  // ---------------------------------------------------------------- the bytes of a file

  lemma TwoDigits(n: nat, a: nat, b: byte, c: byte)
    requires n == 0x1_0000 * a + 0x100 * b + c
    ensures n / 0x1_0000 == a && n / 256 % 256 == b && n % 256 == c
  {
    assert n / 256 == 0x100 * a + b;
  }

  lemma FourBytesLE(a: byte, b: byte, c: byte, d: byte)
    ensures LE(0x100_0000 * d + 0x1_0000 * c + 0x100 * b + a, 4) == [a, b, c, d]
  {
    hide LE;
    var high: nat := 0x100 * d + c;
    var n: nat := 0x1_0000 * high + 0x100 * b + a;
    TwoDigits(n, high, b, a);
    TwoDigits(high, 0, d, c);
    TwoMore(n, 2);
    TwoBytes(high);
  }

  lemma OneCidr(width: nat, c: Cidr)
    ensures EncodeCidrs(width, [c]) == EncodeAddr(width, c.0) + [c.1]
  {
    hide EncodeAddr;
    assert EncodeCidrs(width, [c]) == EncodeAddr(width, c.0) + [c.1] + EncodeCidrs(width, []);
  }

  /** 10.0.0.1/8 and 2001:db8::1/32 as files hold them. */
  lemma CidrExamples()
    ensures EncodeCidrs(32, [(0x0a00_0001, 8)]) == [1, 0, 0, 10, 8]
    ensures EncodeCidrs(128, [(0x2001_0db8_0000_0000_0000_0000_0000_0001, 32)])
         == [0x20, 0x01, 0x0d, 0xb8, 0, 0, 0, 0, 0, 0, 0, 0, 0, 0, 0, 1, 32]
  {
    hide LE, BE, EncodeCidrs;
    FourBytesLE(1, 0, 0, 10);
    SixteenBytes();
    OneCidr(32, (0x0a00_0001, 8));
    OneCidr(128, (0x2001_0db8_0000_0000_0000_0000_0000_0001, 32));
  }

  /** Ports 80 to 8080 and the keyword `ads` as files hold them. */
  lemma PortAndStringExamples()
    ensures EncodePorts([(80, 8080)]) == [80, 0, 0x90, 0x1f]
    ensures EncodeStrings([[97, 100, 115]]) == [3, 97, 100, 115]
  {
    TwoBytes(80);
    TwoBytes(8080);
    hide LE;
    assert EncodePorts([(80, 8080)]) == LE(80, 2) + LE(8080, 2) + [];
    assert EncodeStrings([[97, 100, 115]]) == [3] + [97, 100, 115] + [];
  }

  lemma FourBytesBE(n: nat, width: nat, a: nat, b: byte, c: byte, d: byte, e: byte)
    requires n == 0x1_0000_0000 * a + 0x100_0000 * b + 0x1_0000 * c + 0x100 * d + e
    ensures BE(n, width + 4) == BE(a, width) + [b, c, d, e]
  {
    hide BE;
    var high: nat := 0x1_0000 * a + 0x100 * b + c;
    TwoDigits(n, high, d, e);
    TwoDigits(high, a, b, c);
    TwoMore(n, width + 2);
    TwoMore(high, width);
  }

  lemma SixteenBytes()
    ensures BE(0x2001_0db8_0000_0000_0000_0000_0000_0001, 16)
         == [0x20, 0x01, 0x0d, 0xb8, 0, 0, 0, 0, 0, 0, 0, 0, 0, 0, 0, 1]
  {
    assert BE(0, 0) == [];
    hide BE;
    FourBytesBE(0x2001_0db8_0000_0000_0000_0000_0000_0001, 12, 0x2001_0db8_0000_0000_0000_0000, 0, 0, 0, 1);
    FourBytesBE(0x2001_0db8_0000_0000_0000_0000, 8, 0x2001_0db8_0000_0000, 0, 0, 0, 0);
    FourBytesBE(0x2001_0db8_0000_0000, 4, 0x2001_0db8, 0, 0, 0, 0);
    FourBytesBE(0x2001_0db8, 0, 0, 0x20, 0x01, 0x0d, 0xb8);
  }

  /** The codes of the ten sections that are written, and a header. */
  lemma SectionHeaderExamples(count: nat, n: nat)
    ensures SectionHeader(DomainFst, 0x0102, 0x0304_0506) == [0x05, 2, 1, 0, 0, 6, 5, 4, 3]
    ensures SectionHeader(DomainSuffixFst, count, n)[0] == 0x06 && SectionHeader(DomainKeyword, count, n)[0] == 0x03
    ensures SectionHeader(DomainRegex, count, n)[0] == 0x04 && SectionHeader(IpCidrV4, count, n)[0] == 0x10
    ensures SectionHeader(IpCidrV6, count, n)[0] == 0x11 && SectionHeader(Port, count, n)[0] == 0x20
    ensures SectionHeader(ExcludeDomainFst, count, n)[0] == 0x07
    ensures SectionHeader(ExcludeSuffixFst, count, n)[0] == 0x08
    ensures SectionHeader(ExcludeDomainRegex, count, n)[0] == 0x09
  {
    hide LE;
    FourBytesLE(2, 1, 0, 0);
    FourBytesLE(6, 5, 4, 3);
  }

  lemma EightBytesLE()
    ensures LE(0x0102, 8) == [2, 1, 0, 0, 0, 0, 0, 0]
  {
    hide LE;
    TwoDigits(0x0102, 0, 1, 2);
    TwoMore(0x0102, 6);
    TwoMore(0, 4);
    FourBytesLE(0, 0, 0, 0);
  }

  lemma FileHeaderExample(hash: ByteString)
    requires |hash| == 32
    ensures FileHeader(0x0102, hash, 3)
         == [68, 82, 83, 0, 2, 0, 2, 1, 0, 0, 0, 0, 0, 0] + hash + [3, 0, 0, 0, 0, 0, 0, 0]
  {
    hide LE;
    EightBytesLE();
    FourBytesLE(3, 0, 0, 0);
  }
}
