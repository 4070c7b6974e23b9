/**
  EDNS Client Subnet injection on DNS messages in wire form (src/dns/upstream/util.rs), and the
  separately written walker that reads the EDNS buffer size back (src/dns/upstream/udp.rs).
*/
module DnsWire {
  import opened Wrappers
  import opened Bytes
  import opened IpRanges

  const OPT: nat := 41
  const EDNS_CLIENT_SUBNET: nat := 8
  const UDP_SIZE: nat := 1232
  const HEADER_LEN: nat := 12

  // ---------------------------------------------------------------- messages

  datatype Question = Question(name: ByteString, qtype: nat, qclass: nat)

  datatype Record = Record(name: ByteString, rtype: nat, class_: nat, ttl: nat, rdata: ByteString)

  datatype Message = Message(
    id: nat, flags: nat, questions: seq<Question>,
    answers: seq<Record>, authority: seq<Record>, additional: seq<Record>)

  /** Section 4.1.4 of RFC 1035: labels of 1 to 63 bytes, closed by the root or by a pointer. */
  predicate ValidName(n: ByteString)
  {
    n == [0] || (|n| == 2 && n[0] >= 0xC0)
    || (n != [] && 0 < n[0] <= 63 && |n| > 1 + n[0] && ValidName(n[1 + n[0]..]))
  }

  predicate ValidRecord(r: Record)
  {
    ValidName(r.name) && r.rtype < U16_LIMIT && r.class_ < U16_LIMIT && r.ttl < U32_LIMIT && |r.rdata| < U16_LIMIT
  }

  ghost predicate ValidRecords(rs: seq<Record>)
  {
    forall r | r in rs :: ValidRecord(r)
  }

  ghost predicate Valid(m: Message)
  {
    && m.id < U16_LIMIT && m.flags < U16_LIMIT
    && |m.questions| < U16_LIMIT && |m.answers| < U16_LIMIT && |m.authority| < U16_LIMIT && |m.additional| < U16_LIMIT
    && (forall q | q in m.questions :: ValidName(q.name) && q.qtype < U16_LIMIT && q.qclass < U16_LIMIT)
    && ValidRecords(m.answers) && ValidRecords(m.authority) && ValidRecords(m.additional)
  }

  /** A value cast to `u16`, in network order. */
  function Word(n: nat): (w: ByteString)
    ensures |w| == 2
  {
    [n / 256 % 256, n % 256]
  }

  lemma WordRoundTrip(n: nat)
    requires n < U16_LIMIT
    ensures U16(Word(n)[0], Word(n)[1]) == n
  {
  }

  function EncodeQuestion(q: Question): ByteString
  {
    q.name + Word(q.qtype) + Word(q.qclass)
  }

  function EncodeQuestions(qs: seq<Question>): ByteString
  {
    if qs == [] then [] else EncodeQuestion(qs[0]) + EncodeQuestions(qs[1..])
  }

  /** Type, class, TTL and RDLENGTH. */
  function RecordHead(rtype: nat, class_: nat, ttl: nat, rdlength: nat): (h: ByteString)
    ensures |h| == 10
  {
    Word(rtype) + Word(class_) + BE(ttl, 4) + Word(rdlength)
  }

  function EncodeRecord(r: Record): ByteString
  {
    r.name + RecordHead(r.rtype, r.class_, r.ttl, |r.rdata|) + r.rdata
  }

  function EncodeRecords(rs: seq<Record>): ByteString
  {
    if rs == [] then [] else EncodeRecord(rs[0]) + EncodeRecords(rs[1..])
  }

  function EncodeHeader(m: Message): (h: ByteString)
    ensures |h| == HEADER_LEN
  {
    Word(m.id) + Word(m.flags) + Word(|m.questions|) + Word(|m.answers|) + Word(|m.authority|) + Word(|m.additional|)
  }

  /** Everything between the header and the additional section. */
  function EncodeMiddle(m: Message): ByteString
  {
    EncodeQuestions(m.questions) + EncodeRecords(m.answers + m.authority)
  }

  function Encode(m: Message): ByteString
  {
    EncodeHeader(m) + EncodeMiddle(m) + EncodeRecords(m.additional)
  }

  // ---------------------------------------------------------------- walking

  predicate IsPointer(b: byte)
  {
    BitAnd(8, b, 0xC0) == 0xC0
  }

  lemma PointerBytes(b: byte)
    ensures IsPointer(b) <==> b >= 0xC0
  {
    assert Pow2(8) == 256 && Pow2(6) == 64;
    AndWithHighMask(8, 6, b);
    InBlock(b, 0xC0, 6);
    assert ClearLow(0xC0, 6) == 0xC0;
  }

  function SkipName(msg: ByteString, pos: nat): (r: Option<nat>)
    ensures r.Some? ==> r.value > pos
    decreases |msg| - pos
  {
    if pos >= |msg| then None
    else if msg[pos] == 0 then Some(pos + 1)
    else if IsPointer(msg[pos]) then Some(pos + 2)
    else SkipName(msg, pos + 1 + msg[pos])
  }

  /** Where the RDLENGTH-bearing head of the record at `pos` starts, if all of it is there. */
  function HeadAt(msg: ByteString, pos: nat): (head: Option<nat>)
    ensures head.Some? ==> pos < head.value && head.value + 10 <= |msg|
  {
    match SkipName(msg, pos)
    case None => None
    case Some(p) => if p + 10 > |msg| then None else Some(p)
  }

  function RecordEnd(msg: ByteString, head: nat): nat
    requires head + 10 <= |msg|
  {
    head + 10 + U16(msg[head + 8], msg[head + 9])
  }

  function SkipQuestions(msg: ByteString, pos: nat, n: nat): (r: Option<nat>)
    ensures r.Some? ==> r.value >= pos
    decreases n
  {
    if n == 0 then Some(pos)
    else
      match SkipName(msg, pos)
      case None => None
      case Some(p) => SkipQuestions(msg, p + 4, n - 1)
  }

  function SkipRecords(msg: ByteString, pos: nat, n: nat): (r: Option<nat>)
    ensures r.Some? ==> r.value >= pos
    decreases n
  {
    if n == 0 then Some(pos)
    else
      match HeadAt(msg, pos)
      case None => None
      case Some(head) => SkipRecords(msg, RecordEnd(msg, head), n - 1)
  }

  function CountAt(msg: ByteString, i: nat): (n: nat)
    requires i + 2 <= |msg|
  {
    U16(msg[i], msg[i + 1])
  }

  /** The start of the additional section. */
  function AdditionalStart(msg: ByteString): (r: Option<nat>)
    requires |msg| >= HEADER_LEN
    ensures r.Some? ==> r.value >= HEADER_LEN
  {
    match SkipQuestions(msg, HEADER_LEN, CountAt(msg, 4))
    case None => None
    case Some(pos) => SkipRecords(msg, pos, CountAt(msg, 6) + CountAt(msg, 8))
  }

  /** Where the scan of the additional section ended and where the last OPT head was. */
  datatype Scan = Scan(end: nat, opt: Option<nat>)

  function ScanAdditional(msg: ByteString, pos: nat, n: nat, opt: Option<nat>): (r: Option<Scan>)
    ensures r.Some? ==> r.value.end >= pos
    decreases n
  {
    if n == 0 then Some(Scan(pos, opt))
    else
      match HeadAt(msg, pos)
      case None => None
      case Some(head) =>
        ScanAdditional(msg, RecordEnd(msg, head), n - 1, if CountAt(msg, head) == OPT then Some(head) else opt)
  }

  function ScanMessage(msg: ByteString): Option<Scan>
    requires |msg| >= HEADER_LEN
  {
    match AdditionalStart(msg)
    case None => None
    case Some(pos) => ScanAdditional(msg, pos, CountAt(msg, 10), None)
  }

  lemma {:induction false} OptInsideScan(msg: ByteString, pos: nat, n: nat, opt: Option<nat>)
    requires ScanAdditional(msg, pos, n, opt).Some?
    requires opt.Some? ==> opt.value + 10 <= |msg| && RecordEnd(msg, opt.value) <= pos
    ensures var s := ScanAdditional(msg, pos, n, opt).value;
            s.opt.Some? ==> s.opt.value + 10 <= |msg| && RecordEnd(msg, s.opt.value) <= s.end
    decreases n
  {
    if n > 0 {
      var head := HeadAt(msg, pos).value;
      OptInsideScan(msg, RecordEnd(msg, head), n - 1, if CountAt(msg, head) == OPT then Some(head) else opt);
    }
  }

  // ---------------------------------------------------------------- injection

  datatype WireError = TooShort | Truncated

  /** A client-subnet option as section 6 of RFC 7871 lays it out, in a query: the scope prefix length is 0. */
  ghost predicate CarriesSubnet(o: ByteString, family: nat, prefixLen: nat, addr: ByteString)
  {
    && |o| == 8 + |addr|
    && o[0] == 0 && o[1] == 8
    && 0x100 * (o[2] as int) + o[3] as int == 4 + |addr|
    && 0x100 * (o[4] as int) + o[5] as int == family
    && o[6] == prefixLen && o[7] == 0
    && o[8..] == addr
  }

  function EcsOption(family: nat, prefixLen: byte, addr: ByteString): (o: ByteString)
    ensures family < 0x1_0000 && |addr| <= 0xfffb ==> CarriesSubnet(o, family, prefixLen, addr)
  {
    Word(EDNS_CLIENT_SUBNET) + Word(4 + |addr|) + Word(family) + [prefixLen, 0] + addr
  }

  /** The slices that `wire_inject_ecs` takes stay inside the message. */
  predicate SlicesInside(msg: ByteString)
  {
    |msg| >= HEADER_LEN && ScanMessage(msg).Some? ==> ScanMessage(msg).value.end <= |msg|
  }

  function NewOptRecord(option: ByteString): Record
  {
    Record([0], OPT, UDP_SIZE, 0, option)
  }

  /** What the function does once the scan has found the last OPT record, or none. */
  function Inject(msg: ByteString, scan: Scan, option: ByteString): ByteString
    requires HEADER_LEN <= scan.end <= |msg|
    requires scan.opt.Some? ==> scan.opt.value + 10 <= |msg| && RecordEnd(msg, scan.opt.value) <= scan.end
  {
    match scan.opt
    case Some(head) =>
      msg[..head + 8] + Word(RecordEnd(msg, head) - (head + 10) + |option|) + msg[head + 10..RecordEnd(msg, head)]
      + option + msg[scan.end..]
    case None =>
      msg[..10] + Word(CountAt(msg, 10) + 1) + msg[12..scan.end] + EncodeRecord(NewOptRecord(option)) + msg[scan.end..]
  }

  function InjectEcs(msg: ByteString, option: ByteString): Result<ByteString, WireError>
    requires SlicesInside(msg)
  {
    if |msg| < HEADER_LEN then Err(TooShort)
    else
      match ScanMessage(msg)
      case None => Err(Truncated)
      case Some(scan) =>
        var start := AdditionalStart(msg).value;
        OptInsideScan(msg, start, CountAt(msg, 10), None);
        Ok(Inject(msg, scan, option))
  }

  /** `skip_qname` of util.rs. */
  method SkipQname(msg: ByteString, start: nat) returns (ok: bool, pos: nat)
    ensures SkipName(msg, start) == if ok then Some(pos) else None
  {
    pos := start;
    while true
      invariant SkipName(msg, start) == SkipName(msg, pos)
      decreases |msg| - pos
    {
      if pos >= |msg| {
        return false, pos;
      }
      var len := msg[pos];
      if len == 0 {
        pos := pos + 1;
        return true, pos;
      }
      if IsPointer(len) {
        pos := pos + 2;
        return true, pos;
      }
      pos := pos + 1 + len;
    }
  }

  /** The record at `pos`, once its name was found to end at `p`. */
  lemma HeadAfterName(msg: ByteString, pos: nat, p: Option<nat>)
    requires SkipName(msg, pos) == p
    ensures p.None? || p.value + 10 > |msg| ==> HeadAt(msg, pos).None?
    ensures p.Some? && p.value + 10 <= |msg| ==>
              && HeadAt(msg, pos) == p
              && RecordEnd(msg, p.value) == p.value + 10 + U16(msg[p.value + 8], msg[p.value + 9])
  {
    hide SkipName, U16;
  }

  /** `skip_rr` of util.rs. */
  method SkipRr(msg: ByteString, start: nat) returns (ok: bool, pos: nat)
    ensures if HeadAt(msg, start).None? then !ok else ok && pos == RecordEnd(msg, HeadAt(msg, start).value)
  {
    hide *;
    ok, pos := SkipQname(msg, start);
    HeadAfterName(msg, start, if ok then Some(pos) else None);
    if !ok {
      return;
    }
    if pos + 10 > |msg| {
      return false, pos;
    }
    pos := pos + 10 + U16(msg[pos + 8], msg[pos + 9]);
  }

  lemma QuestionStep(msg: ByteString, pos: nat, n: nat, p: Option<nat>)
    requires n > 0 && SkipName(msg, pos) == p
    ensures SkipQuestions(msg, pos, n) == if p.None? then None else SkipQuestions(msg, p.value + 4, n - 1)
  {
    hide SkipName;
  }

  lemma NothingToSkip(msg: ByteString, pos: nat)
    ensures SkipQuestions(msg, pos, 0) == SkipRecords(msg, pos, 0) == Some(pos)
    ensures FirstOptSize(msg, pos, 0) == None
  {
  }

  lemma RecordStep(msg: ByteString, pos: nat, n: nat)
    requires n > 0
    ensures SkipRecords(msg, pos, n)
         == match HeadAt(msg, pos) case None => None case Some(head) => SkipRecords(msg, RecordEnd(msg, head), n - 1)
  {
    hide HeadAt, RecordEnd;
  }

  /** The two loops that lead to the additional section. */
  lemma AdditionalParts(msg: ByteString)
    requires |msg| >= HEADER_LEN
    ensures AdditionalStart(msg)
         == match SkipQuestions(msg, HEADER_LEN, U16(msg[4], msg[5]))
            case None => None
            case Some(pos) => SkipRecords(msg, pos, U16(msg[6], msg[7]) + U16(msg[8], msg[9]))
  {
    hide U16;
  }

  method FindAdditional(msg: ByteString) returns (ok: bool, pos: nat)
    requires |msg| >= HEADER_LEN
    ensures AdditionalStart(msg) == if ok then Some(pos) else None
  {
    var qdcount := U16(msg[4], msg[5]);
    var ancount := U16(msg[6], msg[7]);
    var nscount := U16(msg[8], msg[9]);
    AdditionalParts(msg);
    hide *;
    pos, ok := HEADER_LEN, true;
    for i := 0 to qdcount
      invariant ok
      invariant SkipQuestions(msg, HEADER_LEN, qdcount) == SkipQuestions(msg, pos, qdcount - i)
    {
      ghost var at := pos;
      ok, pos := SkipQname(msg, pos);
      QuestionStep(msg, at, qdcount - i, if ok then Some(pos) else None);
      if !ok {
        return;
      }
      pos := pos + 4;
    }
    NothingToSkip(msg, pos);
    ghost var start := pos;
    for i := 0 to ancount + nscount
      invariant ok
      invariant SkipRecords(msg, start, ancount + nscount) == SkipRecords(msg, pos, ancount + nscount - i)
    {
      RecordStep(msg, pos, ancount + nscount - i);
      ok, pos := SkipRr(msg, pos);
      if !ok {
        return;
      }
    }
    NothingToSkip(msg, pos);
  }

  /** `wire_inject_ecs`. */
  method WireInjectEcs(msg: ByteString, family: nat, prefixLen: byte, addr: ByteString)
    returns (r: Result<ByteString, WireError>)
    requires SlicesInside(msg)
    ensures r == InjectEcs(msg, EcsOption(family, prefixLen, addr))
    ensures family < 0x1_0000 && |addr| <= 0xfffb ==>
              CarriesSubnet(EcsOption(family, prefixLen, addr), family, prefixLen, addr)
  {
    hide CarriesSubnet;
    if |msg| < HEADER_LEN {
      return Err(TooShort);
    }
    var option := Word(EDNS_CLIENT_SUBNET);
    option := option + Word(4 + |addr|);
    option := option + Word(family);
    option := option + [prefixLen, 0];
    option := option + addr;

    var arcount := U16(msg[10], msg[11]);
    var ok, pos: nat := FindAdditional(msg);
    if !ok {
      return Err(Truncated);
    }
    var opt: Option<nat>;
    ghost var start := pos;
    ok, pos, opt := FindOpt(msg, pos, arcount);
    if !ok {
      return Err(Truncated);
    }
    OptInsideScan(msg, start, arcount, None);
    var out := Splice(msg, pos, opt, arcount, option);
    r := Ok(out);
  }

  /** One turn of the scan, after `name` was found to end at `p`, or not at all. */
  lemma ScanStep(msg: ByteString, pos: nat, n: nat, opt: Option<nat>, p: Option<nat>)
    requires n > 0 && SkipName(msg, pos) == p
    ensures p.None? || p.value + 10 > |msg| ==> ScanAdditional(msg, pos, n, opt) == None
    ensures p.Some? && p.value + 10 <= |msg| ==>
              ScanAdditional(msg, pos, n, opt)
                == ScanAdditional(msg, p.value + 10 + U16(msg[p.value + 8], msg[p.value + 9]), n - 1,
                                  if U16(msg[p.value], msg[p.value + 1]) == OPT then Some(p.value) else opt)
  {
    hide SkipName, U16;
  }

  lemma ScanEnd(msg: ByteString, pos: nat, opt: Option<nat>)
    ensures ScanAdditional(msg, pos, 0, opt) == Some(Scan(pos, opt))
  {
  }

  /** The scan of the additional section; the last OPT record wins. */
  method FindOpt(msg: ByteString, start: nat, arcount: nat) returns (ok: bool, pos: nat, opt: Option<nat>)
    ensures ScanAdditional(msg, start, arcount, None) == if ok then Some(Scan(pos, opt)) else None
  {
    hide *;
    pos, opt := start, None;
    for i := 0 to arcount
      invariant ScanAdditional(msg, start, arcount, None) == ScanAdditional(msg, pos, arcount - i, opt)
    {
      ghost var at := pos;
      ok, pos := SkipQname(msg, pos);
      ScanStep(msg, at, arcount - i, opt, if ok then Some(pos) else None);
      if !ok || pos + 10 > |msg| {
        return false, pos, opt;
      }
      if U16(msg[pos], msg[pos + 1]) == OPT {
        opt := Some(pos);
      }
      pos := pos + 10 + U16(msg[pos + 8], msg[pos + 9]);
    }
    ScanEnd(msg, pos, opt);
    ok := true;
  }

  /** `Inject` around an OPT record, with the lengths that the code computes. */
  lemma InjectOld(msg: ByteString, end: nat, head: nat, option: ByteString)
    requires HEADER_LEN <= end <= |msg| && head + 10 <= |msg| && RecordEnd(msg, head) <= end
    ensures var rdlength := U16(msg[head + 8], msg[head + 9]);
            && head + 10 + rdlength <= |msg|
            && Inject(msg, Scan(end, Some(head)), option)
                 == msg[..head + 8] + Word(rdlength + |option|) + msg[head + 10..head + 10 + rdlength] + option
                     + msg[end..]
  {
    hide U16, Word;
  }

  lemma InjectNew(msg: ByteString, end: nat, option: ByteString)
    requires HEADER_LEN <= end <= |msg|
    ensures Inject(msg, Scan(end, None), option)
         == msg[..10] + Word(CountAt(msg, 10) + 1) + msg[12..end] + EncodeRecord(NewOptRecord(option)) + msg[end..]
  {
  }

  lemma TruncatedTwice(msg: ByteString, end: nat, k: nat)
    requires k <= end <= |msg|
    ensures msg[..end][..k] == msg[..k]
    ensures end == |msg| ==> msg[end..] == []
  {
  }

  /** The end of `wire_inject_ecs`: rebuild the message around the old or the new OPT record. */
  method Splice(msg: ByteString, additionalEnd: nat, opt: Option<nat>, arcount: nat, option: ByteString)
    returns (out: ByteString)
    requires HEADER_LEN <= additionalEnd <= |msg| && arcount == CountAt(msg, 10)
    requires opt.Some? ==> opt.value + 10 <= |msg| && RecordEnd(msg, opt.value) <= additionalEnd
    ensures out == Inject(msg, Scan(additionalEnd, opt), option)
  {
    match opt {
      case Some(head) =>
        out := SpliceOld(msg, additionalEnd, head, option);
      case None =>
        out := SpliceNew(msg, additionalEnd, arcount, option);
    }
  }

  method SpliceOld(msg: ByteString, additionalEnd: nat, head: nat, option: ByteString) returns (out: ByteString)
    requires HEADER_LEN <= additionalEnd <= |msg| && head + 10 <= |msg| && RecordEnd(msg, head) <= additionalEnd
    ensures out == Inject(msg, Scan(additionalEnd, Some(head)), option)
  {
    InjectOld(msg, additionalEnd, head, option);
    TruncatedTwice(msg, additionalEnd, head + 8);
    hide *;
    out := msg[..additionalEnd];
    var rdlength := U16(msg[head + 8], msg[head + 9]);
    out := out[..head + 8];
    out := out + Word(rdlength + |option|);
    out := out + msg[head + 10..head + 10 + rdlength];
    out := out + option;
    out := out + if additionalEnd < |msg| then msg[additionalEnd..] else [];
  }

  method SpliceNew(msg: ByteString, additionalEnd: nat, arcount: nat, option: ByteString) returns (out: ByteString)
    requires HEADER_LEN <= additionalEnd <= |msg| && arcount == CountAt(msg, 10)
    ensures out == Inject(msg, Scan(additionalEnd, None), option)
  {
    InjectNew(msg, additionalEnd, option);
    TruncatedTwice(msg, additionalEnd, 0);
    hide *;
    var rr := EncodeRecord(NewOptRecord(option));
    var count := Word(arcount + 1);
    PatchCount(msg, additionalEnd, rr, msg[additionalEnd..], count);
    out := msg[..additionalEnd];
    out := out + rr;
    out := out + if additionalEnd < |msg| then msg[additionalEnd..] else [];
    out := out[10 := count[0]];
    out := out[11 := count[1]];
  }

  lemma PatchCount(msg: ByteString, end: nat, rr: ByteString, tail: ByteString, count: ByteString)
    requires HEADER_LEN <= end <= |msg| && |count| == 2
    ensures (msg[..end] + rr + tail)[10 := count[0]][11 := count[1]] == msg[..10] + count + msg[12..end] + rr + tail
  {
  }

  // ---------------------------------------------------------------- the configured subnet

  /** The octets of the configured address. */
  datatype Subnet = Ipv4(octets: ByteString) | Ipv6(octets: ByteString)
  {
    predicate Valid() {
      |octets| == if Ipv4? then 4 else 16
    }
  }

  /** `inject_client_subnet`: how many address bytes go into the option. */
  function EcsAddressLen(prefixLen: nat, addrLen: nat): nat
  {
    var n := (prefixLen + 7) / 8;
    var atLeastOne := if n < 1 then 1 else n;
    if atLeastOne < addrLen then atLeastOne else addrLen
  }

  /** The fewest octets that hold the prefix, but one at least and no more than there are. */
  ghost predicate HoldsPrefix(k: nat, prefixLen: nat, addrLen: nat)
  {
    1 <= k <= addrLen && (prefixLen <= 8 * k || k == addrLen) && (k > 1 ==> 8 * (k - 1) < prefixLen)
  }

  /** `inject_client_subnet` on the bytes of a request: family 1 is IPv4, family 2 is IPv6. */
  method InjectClientSubnet(msg: ByteString, subnet: Subnet, prefixLen: byte)
    returns (r: Result<ByteString, WireError>, ghost option: ByteString, ghost k: nat)
    requires SlicesInside(msg) && subnet.Valid()
    ensures r == InjectEcs(msg, option)
    ensures HoldsPrefix(k, prefixLen, |subnet.octets|)
    ensures CarriesSubnet(option, if subnet.Ipv4? then 1 else 2, prefixLen, subnet.octets[..k])
  {
    hide CarriesSubnet, EcsOption, SlicesInside;
    var family, addrBytes;
    match subnet {
      case Ipv4(octets) => family, addrBytes := 1, octets;
      case Ipv6(octets) => family, addrBytes := 2, octets;
    }
    var addrByteLen := EcsAddressLen(prefixLen, |addrBytes|);
    option, k := EcsOption(family, prefixLen, addrBytes[..addrByteLen]), addrByteLen;
    r := WireInjectEcs(msg, family, prefixLen, addrBytes[..addrByteLen]);
  }

  // ---------------------------------------------------------------- the other walker

  /** `skip_qname` of udp.rs. */
  method UdpSkipQname(msg: ByteString, start: nat) returns (ok: bool, pos: nat)
    ensures SkipName(msg, start) == if ok then Some(pos) else None
  {
    pos := start;
    while true
      invariant SkipName(msg, start) == SkipName(msg, pos)
      decreases |msg| - pos
    {
      if pos >= |msg| {
        return false, pos;
      }
      var len := msg[pos];
      if len == 0 {
        return true, pos + 1;
      }
      if IsPointer(len) {
        return true, pos + 2;
      }
      pos := pos + 1 + len;
    }
  }

  /** `skip_rr` of udp.rs. */
  method UdpSkipRr(msg: ByteString, start: nat) returns (ok: bool, pos: nat)
    ensures if HeadAt(msg, start).None? then !ok else ok && pos == RecordEnd(msg, HeadAt(msg, start).value)
  {
    hide *;
    ok, pos := UdpSkipQname(msg, start);
    HeadAfterName(msg, start, if ok then Some(pos) else None);
    if !ok {
      return;
    }
    if pos + 10 > |msg| {
      return false, pos;
    }
    pos := pos + 10 + U16(msg[pos + 8], msg[pos + 9]);
  }

  function FirstOptSize(msg: ByteString, pos: nat, n: nat): Option<nat>
    decreases n
  {
    if n == 0 then None
    else
      match HeadAt(msg, pos)
      case None => None
      case Some(head) =>
        if CountAt(msg, head) == OPT then Some(CountAt(msg, head + 2))
        else FirstOptSize(msg, RecordEnd(msg, head), n - 1)
  }

  function EdnsUdpSize(msg: ByteString): Option<nat>
  {
    if |msg| < HEADER_LEN then None
    else
      match AdditionalStart(msg)
      case None => None
      case Some(pos) => FirstOptSize(msg, pos, CountAt(msg, 10))
  }

  method UdpFindAdditional(msg: ByteString) returns (ok: bool, pos: nat)
    requires |msg| >= HEADER_LEN
    ensures AdditionalStart(msg) == if ok then Some(pos) else None
  {
    var qdcount := U16(msg[4], msg[5]);
    var ancount := U16(msg[6], msg[7]);
    var nscount := U16(msg[8], msg[9]);
    AdditionalParts(msg);
    hide *;
    pos, ok := HEADER_LEN, true;
    for i := 0 to qdcount
      invariant ok
      invariant SkipQuestions(msg, HEADER_LEN, qdcount) == SkipQuestions(msg, pos, qdcount - i)
    {
      ghost var at := pos;
      ok, pos := UdpSkipQname(msg, pos);
      QuestionStep(msg, at, qdcount - i, if ok then Some(pos) else None);
      if !ok {
        return;
      }
      pos := pos + 4;
    }
    NothingToSkip(msg, pos);
    ghost var start := pos;
    for i := 0 to ancount + nscount
      invariant ok
      invariant SkipRecords(msg, start, ancount + nscount) == SkipRecords(msg, pos, ancount + nscount - i)
    {
      RecordStep(msg, pos, ancount + nscount - i);
      ok, pos := UdpSkipRr(msg, pos);
      if !ok {
        return;
      }
    }
    NothingToSkip(msg, pos);
  }

  lemma SizeStep(msg: ByteString, pos: nat, n: nat, p: Option<nat>)
    requires n > 0 && SkipName(msg, pos) == p
    ensures p.None? || p.value + 10 > |msg| ==> FirstOptSize(msg, pos, n) == None
    ensures p.Some? && p.value + 10 <= |msg| ==>
              FirstOptSize(msg, pos, n)
                == if U16(msg[p.value], msg[p.value + 1]) == OPT then Some(U16(msg[p.value + 2], msg[p.value + 3]))
                   else FirstOptSize(msg, p.value + 10 + U16(msg[p.value + 8], msg[p.value + 9]), n - 1)
  {
    hide SkipName, U16;
  }

  lemma SizeParts(msg: ByteString)
    requires |msg| >= HEADER_LEN
    ensures EdnsUdpSize(msg) == match AdditionalStart(msg)
                                case None => None
                                case Some(pos) => FirstOptSize(msg, pos, U16(msg[10], msg[11]))
  {
    hide AdditionalStart, U16;
  }

  /** `extract_edns_udp_size`. */
  method ExtractEdnsUdpSize(msg: ByteString) returns (size: Option<nat>)
    ensures size == EdnsUdpSize(msg)
  {
    if |msg| < HEADER_LEN {
      return None;
    }
    SizeParts(msg);
    hide *;
    var arcount := U16(msg[10], msg[11]);
    var ok, pos: nat := UdpFindAdditional(msg);
    if !ok {
      return None;
    }
    size := UdpFirstOpt(msg, pos, arcount);
  }

  /** The loop over the additional section. */
  method UdpFirstOpt(msg: ByteString, start: nat, arcount: nat) returns (size: Option<nat>)
    ensures size == FirstOptSize(msg, start, arcount)
  {
    hide *;
    var ok, pos: nat := true, start;
    for i := 0 to arcount
      invariant FirstOptSize(msg, start, arcount) == FirstOptSize(msg, pos, arcount - i)
    {
      ghost var at := pos;
      ok, pos := UdpSkipQname(msg, pos);
      SizeStep(msg, at, arcount - i, if ok then Some(pos) else None);
      if !ok || pos + 10 > |msg| {
        return None;
      }
      var rtype := U16(msg[pos], msg[pos + 1]);
      var class_ := U16(msg[pos + 2], msg[pos + 3]);
      pos := pos + 10 + U16(msg[pos + 8], msg[pos + 9]);
      if rtype == OPT {
        return Some(class_);
      }
    }
    NothingToSkip(msg, pos);
    return None;
  }
}
