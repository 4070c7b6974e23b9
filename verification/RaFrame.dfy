/**
  Router advertisements: the frame builder (src/dhcp/ra/builder.rs) and the listener that
  learns prefixes from advertisements (src/dhcp/ra/listener.rs).
*/
module RaFrame {
  import opened Wrappers
  import opened Bytes
  import opened NetworkOrder

  const RA_TYPE: byte := 134
  const RA_HEADER_LEN: nat := 16
  const PREFIX_OPTION: byte := 3
  const PREFIX_OPTION_LEN: nat := 32
  const VALID_LIFETIME: nat := 86400
  const PREFERRED_LIFETIME: nat := 14400
  const RECV_BUFFER: nat := 1500

  type Ipv6 = a: ByteString | |a| == 16 witness seq(16, _ => 0)
  type Mac = a: ByteString | |a| == 6 witness seq(6, _ => 0)

  const ALL_NODES: Ipv6 := [0xff, 0x02, 0, 0, 0, 0, 0, 0, 0, 0, 0, 0, 0, 0, 0, 1]

  datatype Preference = Low | Medium | High
  {
    function Bits(): byte { match this case Low => 0x18 case Medium => 0x00 case High => 0x08 }
  }

  datatype RaParams = RaParams(
    srcMac: Mac, srcIp: Ipv6, prefixes: seq<(Ipv6, byte)>, rdnss: seq<Ipv6>, dnsLifetime: Word32,
    routerLifetime: Word16, managed: bool, other: bool, preference: Preference, mtu: Option<Word32>)

  // ---------------------------------------------------------------- the body

  /** The M, O and preference bits never overlap, so or-ing them adds them. */
  function Flags(p: RaParams): byte
  {
    (if p.managed then 0x80 else 0) + (if p.other then 0x40 else 0) + p.preference.Bits()
  }

  function Head(p: RaParams): (h: ByteString)
    ensures |h| == RA_HEADER_LEN
  {
    [RA_TYPE, 0, 0, 0, 64, Flags(p)] + BE(p.routerLifetime, 2) + BE(0, 4) + BE(0, 4)
  }

  function LinkOption(p: RaParams): (o: ByteString)
    ensures |o| == 8
  {
    [1, 1] + p.srcMac
  }

  function MtuOption(p: RaParams): (o: ByteString)
    ensures |o| == if p.mtu.Some? then 8 else 0
  {
    if p.mtu.Some? then [5, 1, 0, 0] + BE(p.mtu.value, 4) else []
  }

  function PrefixOption(prefix: Ipv6, len: byte): (o: ByteString)
    ensures |o| == 32
  {
    [PREFIX_OPTION, 4, len, 0xC0] + BE(VALID_LIFETIME, 4) + BE(PREFERRED_LIFETIME, 4) + [0, 0, 0, 0] + prefix
  }

  function PrefixOptions(prefixes: seq<(Ipv6, byte)>): ByteString
  {
    if prefixes == [] then [] else PrefixOption(prefixes[0].0, prefixes[0].1) + PrefixOptions(prefixes[1..])
  }

  function Addresses(rdnss: seq<Ipv6>): (a: ByteString)
    ensures |a| == 16 * |rdnss|
  {
    if rdnss == [] then [] else rdnss[0] + Addresses(rdnss[1..])
  }

  /** The length byte counts one unit per address, where section 5.1 of RFC 8106 has two. */
  function RdnssOption(rdnss: seq<Ipv6>, lifetime: nat): (o: ByteString)
    ensures |o| == if rdnss == [] then 0 else 8 + 16 * |rdnss|
  {
    if rdnss == [] then []
    else [25, (1 + |rdnss|) % 256, 0, 0] + BE(lifetime, 4) + Addresses(rdnss)
  }

  function Options(p: RaParams): ByteString
  {
    LinkOption(p) + MtuOption(p) + (PrefixOptions(p.prefixes) + RdnssOption(p.rdnss, p.dnsLifetime))
  }

  /** `build_ra_icmpv6`: the body with a zero checksum. */
  function Body(p: RaParams): ByteString
  {
    Head(p) + Options(p)
  }

  method BuildRaIcmpv6(p: RaParams) returns (buf: ByteString)
    ensures buf == Body(p)
  {
    hide Options, BE;
    buf := [RA_TYPE];
    buf := buf + [0];
    buf := buf + [0, 0];
    buf := buf + [64];
    var flags := 0;
    if p.managed { flags := flags + 0x80; }
    if p.other { flags := flags + 0x40; }
    flags := flags + p.preference.Bits();
    buf := buf + [flags];
    buf := buf + BE(p.routerLifetime, 2);
    buf := buf + BE(0, 4);
    buf := buf + BE(0, 4);
    assert buf == Head(p);
    var options := BuildOptions(p);
    buf := buf + options;
  }

  /** The option-pushing half of `build_ra_icmpv6`. */
  method BuildOptions(p: RaParams) returns (buf: ByteString)
    ensures buf == Options(p)
  {
    buf := [1, 1] + p.srcMac;
    if p.mtu.Some? {
      buf := buf + ([5, 1, 0, 0] + BE(p.mtu.value, 4));
    }
    assert buf == LinkOption(p) + MtuOption(p);
    ghost var front := buf;
    for i := 0 to |p.prefixes|
      invariant buf + PrefixOptions(p.prefixes[i..]) == front + PrefixOptions(p.prefixes)
    {
      assert p.prefixes[i..][1..] == p.prefixes[i + 1..];
      var (prefix, len) := p.prefixes[i];
      Associative(buf, PrefixOption(prefix, len), PrefixOptions(p.prefixes[i + 1..]));
      buf := buf + PrefixOption(prefix, len);
    }
    assert buf + [] == buf;
    if p.rdnss != [] {
      ghost var before := buf;
      var option: ByteString := [25, (1 + |p.rdnss|) % 256, 0, 0] + BE(p.dnsLifetime, 4);
      for i := 0 to |p.rdnss|
        invariant option + Addresses(p.rdnss[i..]) == RdnssOption(p.rdnss, p.dnsLifetime)
      {
        assert p.rdnss[i..][1..] == p.rdnss[i + 1..];
        Associative(option, p.rdnss[i], Addresses(p.rdnss[i + 1..]));
        option := option + p.rdnss[i];
      }
      assert option + [] == option;
      buf := buf + option;
    }
    Associative(front, PrefixOptions(p.prefixes), RdnssOption(p.rdnss, p.dnsLifetime));
  }

  // ---------------------------------------------------------------- what the body says

  /**
    Section 4.2 of RFC 4861 and section 2.2 of RFC 4191: type 134, code 0, hop limit 64, the flags M and O in
    the two high bits, the preference in bits 4 and 3, no other flag, the lifetime, and two unspecified timers.
    */
  ghost predicate HasHead(p: RaParams, b: ByteString)
  {
    && |b| >= 16 && b[0] == 134 && b[1] == 0 && b[4] == 64
    && (b[5] / 128 == 1 <==> p.managed) && (b[5] / 64 % 2 == 1 <==> p.other)
    && b[5] / 8 % 4 == (match p.preference case Low => 3 case Medium => 0 case High => 1)
    && b[5] / 32 % 2 == 0 && b[5] % 8 == 0
    && Reads16(b, 6, p.routerLifetime) && Reads32(b, 8, 0) && Reads32(b, 12, 0)
  }

  /** Section 4.6 of RFC 4861: the link-layer address, then the MTU if there is one. */
  ghost predicate HasLinkAndMtu(p: RaParams, b: ByteString)
  {
    && |b| >= 24 && b[16] == 1 && b[17] == 1 && b[18..24] == p.srcMac
    && (p.mtu.Some? ==> Reads32(b, 28, p.mtu.value) && b[24..28] == [5, 1, 0, 0])
  }

  /** Section 4.6.2 of RFC 4861: an on-link, autonomous prefix for a day, preferred for four hours. */
  ghost predicate HasPrefix(b: ByteString, at: nat, prefix: Ipv6, len: byte)
  {
    && at + 32 <= |b| && b[at] == 3 && b[at + 1] == 4 && b[at + 2] == len && b[at + 3] == 0xC0
    && Reads32(b, at + 4, 86400) && Reads32(b, at + 8, 14400) && Reads32(b, at + 12, 0)
    && b[at + 16..at + 32] == prefix
  }

  /** Section 5.1 of RFC 8106, but for the length byte, which has 1 + n. */
  ghost predicate HasServers(b: ByteString, at: nat, rdnss: seq<Ipv6>, lifetime: nat)
  {
    && at + 8 + 16 * |rdnss| == |b| && b[at] == 25 && b[at + 1] == (1 + |rdnss|) % 256
    && b[at + 2] == b[at + 3] == 0 && Reads32(b, at + 4, lifetime)
    && forall q | 0 <= q < |rdnss| :: b[at + 8 + 16 * q..at + 24 + 16 * q] == rdnss[q]
  }

  /** Where the prefix options start. */
  function PrefixesAt(p: RaParams): nat
  {
    if p.mtu.Some? then 32 else 24
  }

  /** The body as a receiver reads it, byte for byte but for the checksum. */
  ghost predicate IsAdvertisement(p: RaParams, b: ByteString)
  {
    var end := PrefixesAt(p) + 32 * |p.prefixes|;
    && HasHead(p, b) && HasLinkAndMtu(p, b)
    && (forall i | 0 <= i < |p.prefixes| :: HasPrefix(b, PrefixesAt(p) + 32 * i, p.prefixes[i].0, p.prefixes[i].1))
    && if p.rdnss == [] then |b| == end else HasServers(b, end, p.rdnss, p.dnsLifetime)
  }

  lemma FlagsRead(p: RaParams)
    ensures var f := Flags(p);
            && (f / 128 == 1 <==> p.managed) && (f / 64 % 2 == 1 <==> p.other)
            && f / 8 % 4 == (match p.preference case Low => 3 case Medium => 0 case High => 1)
            && f / 32 % 2 == 0 && f % 8 == 0
  {
  }

  lemma HeadBytes(p: RaParams, rest: ByteString)
    ensures var b, h := Head(p) + rest, Head(p);
            && b[0] == RA_TYPE && b[1] == 0 && b[4] == 64 && b[5] == Flags(p)
            && b[6..8] == BE(p.routerLifetime, 2) && b[8..12] == BE(0, 4) && b[12..16] == BE(0, 4)
  {
    hide BE, Flags;
    var b, h := Head(p) + rest, Head(p);
    assert b[..16] == h;
    assert b[6..8] == h[6..8] && b[8..12] == h[8..12] && b[12..16] == h[12..16];
  }

  lemma HeadReads(p: RaParams, rest: ByteString)
    ensures HasHead(p, Head(p) + rest)
  {
    BE16Reads(p.routerLifetime);
    BE32Reads(0);
    FlagsRead(p);
    HeadBytes(p, rest);
    hide BE, Reads16, Reads32, Flags, Head;
    var b := Head(p) + rest;
    ReadsInside(b, 6, BE(p.routerLifetime, 2), p.routerLifetime);
    ReadsInside(b, 8, BE(0, 4), 0);
    ReadsInside(b, 12, BE(0, 4), 0);
  }

  lemma LinkAndMtuRead(p: RaParams, rest: ByteString)
    ensures HasLinkAndMtu(p, Head(p) + (LinkOption(p) + MtuOption(p) + rest))
  {
    hide Head, BE, Reads32;
    var b := Head(p) + (LinkOption(p) + MtuOption(p) + rest);
    assert b[16] == LinkOption(p)[0] && b[17] == LinkOption(p)[1] && b[18..24] == LinkOption(p)[2..];
    if p.mtu.Some? {
      BE32Reads(p.mtu.value);
      assert b[28..32] == MtuOption(p)[4..] == BE(p.mtu.value, 4);
      assert b[24..28] == MtuOption(p)[..4];
      ReadsInside(b, 28, BE(p.mtu.value, 4), p.mtu.value);
    }
  }

  lemma PrefixBytes(prefix: Ipv6, len: byte, front: ByteString, rest: ByteString)
    ensures var b, at := front + (PrefixOption(prefix, len) + rest), |front|;
            && at + 32 <= |b| && b[at] == 3 && b[at + 1] == 4 && b[at + 2] == len && b[at + 3] == 0xC0
            && b[at + 4..at + 8] == BE(86400, 4) && b[at + 8..at + 12] == BE(14400, 4)
            && b[at + 12..at + 16] == [0, 0, 0, 0] && b[at + 16..at + 32] == prefix
  {
    hide BE;
    var o, b, at := PrefixOption(prefix, len), front + (PrefixOption(prefix, len) + rest), |front|;
    assert b[at..at + 32] == o;
    assert b[at + 4..at + 8] == o[4..8] && b[at + 8..at + 12] == o[8..12];
    assert b[at + 12..at + 16] == o[12..16] && b[at + 16..at + 32] == o[16..32];
    assert b[at] == o[0] && b[at + 1] == o[1] && b[at + 2] == o[2] && b[at + 3] == o[3];
  }

  lemma PrefixReads(prefix: Ipv6, len: byte, front: ByteString, rest: ByteString)
    ensures HasPrefix(front + (PrefixOption(prefix, len) + rest), |front|, prefix, len)
  {
    BE32Reads(86400);
    BE32Reads(14400);
    PrefixBytes(prefix, len, front, rest);
    hide BE, Reads32, PrefixOption;
    var b, at := front + (PrefixOption(prefix, len) + rest), |front|;
    ReadsInside(b, at + 4, BE(86400, 4), 86400);
    ReadsInside(b, at + 8, BE(14400, 4), 14400);
    ZeroReads(b, at + 12);
  }

  lemma ZeroReads(b: ByteString, i: nat)
    requires i + 4 <= |b| && b[i..i + 4] == [0, 0, 0, 0]
    ensures Reads32(b, i, 0)
  {
    assert b[i] == b[i..i + 4][0] && b[i + 1] == b[i..i + 4][1] && b[i + 2] == b[i..i + 4][2];
    assert b[i + 3] == b[i..i + 4][3];
  }

  lemma {:induction false} PrefixesLength(prefixes: seq<(Ipv6, byte)>)
    ensures |PrefixOptions(prefixes)| == 32 * |prefixes|
    decreases |prefixes|
  {
    if prefixes != [] {
      hide PrefixOption;
      PrefixesLength(prefixes[1..]);
    }
  }

  /** The first option, cut off. */
  lemma PrefixesSplit(front: ByteString, prefixes: seq<(Ipv6, byte)>, rest: ByteString)
    requires prefixes != []
    ensures var first, more := PrefixOption(prefixes[0].0, prefixes[0].1), PrefixOptions(prefixes[1..]);
            && front + (PrefixOptions(prefixes) + rest) == front + (first + (more + rest))
            && front + (PrefixOptions(prefixes) + rest) == front + first + (more + rest)
  {
    hide PrefixOption;
    var first, more := PrefixOption(prefixes[0].0, prefixes[0].1), PrefixOptions(prefixes[1..]);
    Associative(first, more, rest);
    Associative(front, first, more + rest);
  }

  lemma {:induction false} PrefixAt(front: ByteString, prefixes: seq<(Ipv6, byte)>, rest: ByteString, i: nat, at: nat)
    requires i < |prefixes| && at == |front| + 32 * i
    ensures HasPrefix(front + (PrefixOptions(prefixes) + rest), at, prefixes[i].0, prefixes[i].1)
    decreases i
  {
    hide *;
    PrefixesSplit(front, prefixes, rest);
    var first, more := PrefixOption(prefixes[0].0, prefixes[0].1), prefixes[1..];
    if i == 0 {
      PrefixReads(prefixes[0].0, prefixes[0].1, front, PrefixOptions(more) + rest);
    } else {
      assert more[i - 1] == prefixes[i];
      PrefixAt(front + first, more, rest, i - 1, at);
    }
  }

  lemma {:induction false} AddressesRead(front: ByteString, rdnss: seq<Ipv6>, q: nat, at: nat, b: ByteString)
    requires q < |rdnss| && at == |front| + 16 * q && b == front + Addresses(rdnss)
    ensures at + 16 <= |b| && b[at..at + 16] == rdnss[q]
    decreases q
  {
    var first: ByteString, others := rdnss[0], Addresses(rdnss[1..]);
    assert b == front + (first + others);
    Associative(front, first, others);
    hide Addresses;
    if q > 0 {
      AddressesRead(front + first, rdnss[1..], q - 1, at, b);
    } else {
      assert b[at..at + 16] == first;
    }
  }

  lemma ServerBytes(front: ByteString, head: ByteString, lifetime: ByteString, rest: ByteString)
    requires |head| == 4 && |lifetime| == 4
    ensures var b, at := front + (head + lifetime + rest), |front|;
            && b == front + (head + lifetime) + rest && b[at + 4..at + 8] == lifetime
            && b[at] == head[0] && b[at + 1] == head[1] && b[at + 2] == head[2] && b[at + 3] == head[3]
  {
  }

  lemma RdnssParts(rdnss: seq<Ipv6>, lifetime: Word32)
    requires rdnss != []
    ensures RdnssOption(rdnss, lifetime) == [25, (1 + |rdnss|) % 256, 0, 0] + BE(lifetime, 4) + Addresses(rdnss)
  {
    hide BE, Addresses;
  }

  lemma ServersRead(front: ByteString, rdnss: seq<Ipv6>, lifetime: Word32)
    requires rdnss != []
    ensures HasServers(front + RdnssOption(rdnss, lifetime), |front|, rdnss, lifetime)
  {
    BE32Reads(lifetime);
    var head: ByteString, l := [25, (1 + |rdnss|) % 256, 0, 0], BE(lifetime, 4);
    var b, at := front + RdnssOption(rdnss, lifetime), |front|;
    RdnssParts(rdnss, lifetime);
    hide BE, Reads32, Addresses, RdnssOption;
    ServerBytes(front, head, l, Addresses(rdnss));
    ReadsInside(b, at + 4, l, lifetime);
    forall q | 0 <= q < |rdnss|
      ensures b[at + 8 + 16 * q..at + 24 + 16 * q] == rdnss[q]
    {
      AddressesRead(front + (head + l), rdnss, q, at + 8 + 16 * q, b);
    }
  }

  /** The built body says what the parameters ask for. */
  lemma BodyIsAdvertisement(p: RaParams)
    ensures IsAdvertisement(p, Body(p))
  {
    hide Head, HasHead, HasLinkAndMtu, HasPrefix, HasServers, PrefixOptions, RdnssOption, LinkOption, BE;
    var front, servers := LinkOption(p) + MtuOption(p), RdnssOption(p.rdnss, p.dnsLifetime);
    var options := PrefixOptions(p.prefixes) + servers;
    HeadReads(p, Options(p));
    LinkAndMtuRead(p, options);
    PrefixesLength(p.prefixes);
    Associative(Head(p), front, options);
    Associative(Head(p) + front, PrefixOptions(p.prefixes), servers);
    assert |Head(p) + front| == PrefixesAt(p);
    forall i | 0 <= i < |p.prefixes|
      ensures HasPrefix(Body(p), PrefixesAt(p) + 32 * i, p.prefixes[i].0, p.prefixes[i].1)
    {
      PrefixAt(Head(p) + front, p.prefixes, servers, i, PrefixesAt(p) + 32 * i);
    }
    if p.rdnss != [] {
      ServersRead(Head(p) + front + PrefixOptions(p.prefixes), p.rdnss, p.dnsLifetime);
    }
  }

  // ---------------------------------------------------------------- the listener

  datatype LearnedPrefix = LearnedPrefix(prefix: Ipv6, prefixLen: byte, validLifetime: nat, preferredLifetime: nat)

  predicate IsLoopback(a: Ipv6)
  {
    a == [0, 0, 0, 0, 0, 0, 0, 0, 0, 0, 0, 0, 0, 0, 0, 1]
  }

  /** `octets[0] == 0xfe && octets[1] & 0xc0 == 0x80`. */
  predicate IsLinkLocal(a: Ipv6)
  {
    a[0] == 0xfe && 0x80 <= a[1] < 0xC0
  }

  predicate Usable(a: Ipv6)
  {
    !IsLoopback(a) && !IsLinkLocal(a)
  }

  /** The length byte of an option counts units of eight bytes. */
  function OptionLen(units: byte): nat
  {
    8 * units
  }

  function AddressAt(buf: ByteString, i: nat): (a: Ipv6)
    requires i + 16 <= |buf|
    ensures a == buf[i..i + 16]
  {
    buf[i..i + 16]
  }

  /** What the prefix option at `i` teaches. */
  function LearnOption(buf: ByteString, i: nat): seq<LearnedPrefix>
    requires i + PREFIX_OPTION_LEN <= |buf|
  {
    var prefix := AddressAt(buf, i + 16);
    if Usable(prefix) then
      [LearnedPrefix(prefix, buf[i + 2], FromBE(buf[i + 4..i + 8]), FromBE(buf[i + 8..i + 12]))]
    else []
  }

  /** The option loop from byte `i` on, after what is learned already. */
  function Learn(buf: ByteString, i: nat, learned: seq<LearnedPrefix>): seq<LearnedPrefix>
    decreases |buf| - i
  {
    if i + 2 > |buf| then learned
    else
      var optLen := OptionLen(buf[i + 1]);
      if optLen == 0 || i + optLen > |buf| then learned
      else
        Learn(buf, i + optLen,
              if buf[i] == PREFIX_OPTION && optLen == PREFIX_OPTION_LEN then learned + LearnOption(buf, i) else learned)
  }

  /** What a received packet teaches: the receive buffer keeps 1500 bytes of it. */
  function LearnFrom(packet: ByteString): seq<LearnedPrefix>
  {
    var buf := if |packet| > RECV_BUFFER then packet[..RECV_BUFFER] else packet;
    if |buf| < RA_HEADER_LEN || buf[0] != RA_TYPE then [] else Learn(buf, RA_HEADER_LEN, [])
  }

  /** One turn of the receive loop of `listen_for_prefixes`. */
  method ParsePacket(packet: ByteString) returns (learned: seq<LearnedPrefix>)
    ensures learned == LearnFrom(packet)
  {
    var buf := if |packet| > RECV_BUFFER then packet[..RECV_BUFFER] else packet;
    var n := |buf|;
    learned := [];
    if n < RA_HEADER_LEN || buf[0] != RA_TYPE {
      return;
    }
    var i := RA_HEADER_LEN;
    while i + 2 <= n
      invariant i <= n
      invariant Learn(buf, RA_HEADER_LEN, []) == Learn(buf, i, learned)
      decreases n - i
    {
      var optType := buf[i];
      var optLen := OptionLen(buf[i + 1]);
      if optLen == 0 || i + optLen > n {
        break;
      }
      if optType == PREFIX_OPTION && optLen == PREFIX_OPTION_LEN {
        var prefix := AddressAt(buf, i + 16);
        if !IsLoopback(prefix) && !IsLinkLocal(prefix) {
          var valid, preferred := FromBE(buf[i + 4..i + 8]), FromBE(buf[i + 8..i + 12]);
          learned := learned + [LearnedPrefix(prefix, buf[i + 2], valid, preferred)];
        } else {
          assert learned + [] == learned;
        }
      }
      i := i + optLen;
    }
  }

  /** The loopback address, or one under fe80::/10. */
  ghost predicate IsLocal(a: Ipv6)
  {
    || (a[15] == 1 && forall i | 0 <= i < 15 :: a[i] == 0)
    || 0xfe80 <= 0x100 * (a[0] as int) + a[1] as int <= 0xfebf
  }

  lemma UsableIff(a: Ipv6)
    ensures Usable(a) <==> !IsLocal(a)
  {
    if a[15] == 1 && forall i | 0 <= i < 15 :: a[i] == 0 {
      assert a == [0, 0, 0, 0, 0, 0, 0, 0, 0, 0, 0, 0, 0, 0, 0, 1];
    }
  }

  /** What should be learned from an advertisement of these prefixes: all but local ones, for a day and four hours. */
  ghost function Expected(prefixes: seq<(Ipv6, byte)>): seq<LearnedPrefix>
  {
    if prefixes == [] then []
    else
      (if IsLocal(prefixes[0].0) then [] else [LearnedPrefix(prefixes[0].0, prefixes[0].1, 86400, 14400)])
      + Expected(prefixes[1..])
  }

  // ---------------------------------------------------------------- round trip

  /** An option that is not a prefix option is stepped over. */
  lemma SkipOption(buf: ByteString, i: nat, units: byte, learned: seq<LearnedPrefix>)
    requires i + 2 <= |buf| && buf[i + 1] == units && units > 0 && buf[i] != PREFIX_OPTION
    requires i + 8 * units <= |buf|
    ensures Learn(buf, i, learned) == Learn(buf, i + 8 * units, learned)
  {
  }

  lemma PrefixOptionFields(prefix: Ipv6, len: byte)
    ensures var o := PrefixOption(prefix, len);
            && o[0] == PREFIX_OPTION && o[1] == 4 && o[2] == len
            && FromBE(o[4..8]) == VALID_LIFETIME && FromBE(o[8..12]) == PREFERRED_LIFETIME && o[16..32] == prefix
  {
    var valid, preferred := BE(VALID_LIFETIME, 4), BE(PREFERRED_LIFETIME, 4);
    Pow256Values();
    BERoundTrip(VALID_LIFETIME, 4);
    BERoundTrip(PREFERRED_LIFETIME, 4);
    var head: ByteString, pad: ByteString := [PREFIX_OPTION, 4, len, 0xC0], [0, 0, 0, 0];
    assert PrefixOption(prefix, len) == head + valid + preferred + pad + prefix;
    assert head[0] == PREFIX_OPTION && head[1] == 4 && head[2] == len;
    FieldsOf(head, valid, preferred, pad, prefix);
  }

  lemma FieldsOf(head: ByteString, valid: ByteString, preferred: ByteString, pad: ByteString, prefix: ByteString)
    requires |head| == |valid| == |preferred| == |pad| == 4 && |prefix| == 16
    ensures var o := head + valid + preferred + pad + prefix;
            && o[0] == head[0] && o[1] == head[1] && o[2] == head[2]
            && o[4..8] == valid && o[8..12] == preferred && o[16..32] == prefix
  {
  }

  lemma PrefixOptionLearned(buf: ByteString, i: nat, prefix: Ipv6, len: byte, rest: ByteString,
      learned: seq<LearnedPrefix>)
    requires i <= |buf| && buf[i..] == PrefixOption(prefix, len) + rest
    ensures i + PREFIX_OPTION_LEN <= |buf| && buf[i + PREFIX_OPTION_LEN..] == rest
    ensures Learn(buf, i, learned) == Learn(buf, i + PREFIX_OPTION_LEN, learned + Expected([(prefix, len)]))
  {
    var o := PrefixOption(prefix, len);
    PrefixOptionFields(prefix, len);
    hide PrefixOption, FromBE;
    assert buf[i..][0] == o[0] && buf[i..][1] == o[1] && buf[i..][2] == o[2];
    SliceOfBlock(buf, i, o, rest, 4, 8);
    SliceOfBlock(buf, i, o, rest, 8, 12);
    SliceOfBlock(buf, i, o, rest, 16, 32);
    assert buf[i + PREFIX_OPTION_LEN..] == buf[i..][PREFIX_OPTION_LEN..] == rest;
    UsableIff(prefix);
    hide Usable, IsLocal;
    assert Expected([(prefix, len)]) == LearnOption(buf, i);
  }

  lemma ExpectedFirst(prefix: Ipv6, len: byte, more: seq<(Ipv6, byte)>)
    ensures Expected([(prefix, len)] + more) == Expected([(prefix, len)]) + Expected(more)
    ensures PrefixOptions([(prefix, len)] + more) == PrefixOption(prefix, len) + PrefixOptions(more)
  {
    var all := [(prefix, len)] + more;
    assert all[0] == (prefix, len) && all[1..] == more;
    assert Expected([(prefix, len)][1..]) == [];
  }

  lemma {:induction false} PrefixesLearned(buf: ByteString, i: nat, prefixes: seq<(Ipv6, byte)>, rest: ByteString,
                                           learned: seq<LearnedPrefix>, end: nat, after: seq<LearnedPrefix>)
    requires i <= |buf| && buf[i..] == PrefixOptions(prefixes) + rest
    requires end == i + |PrefixOptions(prefixes)| && after == learned + Expected(prefixes)
    ensures end <= |buf| && buf[end..] == rest && Learn(buf, i, learned) == Learn(buf, end, after)
    decreases |prefixes|
  {
    if prefixes == [] {
      assert [] + rest == rest && learned + [] == learned;
    } else {
      hide *;
      var (prefix, len) := prefixes[0];
      var more := prefixes[1..];
      assert prefixes == [(prefix, len)] + more;
      ExpectedFirst(prefix, len, more);
      var first, others := PrefixOption(prefix, len), PrefixOptions(more);
      Associative(first, others, rest);
      PrefixOptionLearned(buf, i, prefix, len, others + rest, learned);
      Associative(learned, Expected([(prefix, len)]), Expected(more));
      PrefixesLearned(buf, i + PREFIX_OPTION_LEN, more, rest, learned + Expected([(prefix, len)]), end, after);
    }
  }

  /** Fewer than 32 bytes hold no prefix option. */
  lemma {:induction false} ShortTailTeachesNothing(buf: ByteString, i: nat, learned: seq<LearnedPrefix>)
    requires |buf| < i + PREFIX_OPTION_LEN
    ensures Learn(buf, i, learned) == learned
    decreases |buf| - i
  {
    if i + 2 <= |buf| && buf[i + 1] > 0 && i + OptionLen(buf[i + 1]) <= |buf| {
      ShortTailTeachesNothing(buf, i + OptionLen(buf[i + 1]), learned);
    }
  }

  /** The link-layer and MTU options are stepped over. */
  lemma FrontSkipped(p: RaParams, buf: ByteString, rest: ByteString, i: nat)
    requires |buf| >= RA_HEADER_LEN && buf[RA_HEADER_LEN..] == LinkOption(p) + MtuOption(p) + rest
    requires i == RA_HEADER_LEN + 8 + |MtuOption(p)|
    ensures i <= |buf| && buf[i..] == rest && Learn(buf, RA_HEADER_LEN, []) == Learn(buf, i, [])
  {
    hide Learn, BE;
    var tail := buf[RA_HEADER_LEN..];
    assert buf[RA_HEADER_LEN] == tail[0] == 1 && buf[RA_HEADER_LEN + 1] == tail[1] == 1;
    var j := RA_HEADER_LEN + 8;
    assert buf[j..] == tail[8..] == MtuOption(p) + rest;
    SkipOption(buf, RA_HEADER_LEN, 1, []);
    if p.mtu.Some? {
      assert buf[j] == buf[j..][0] == 5 && buf[j + 1] == buf[j..][1] == 1;
      assert buf[j + 8..] == buf[j..][8..] == rest;
      SkipOption(buf, j, 1, []);
    } else {
      assert MtuOption(p) + rest == rest;
    }
  }

  lemma OptionParts(p: RaParams)
    ensures Options(p) == LinkOption(p) + MtuOption(p)
          + (PrefixOptions(p.prefixes) + RdnssOption(p.rdnss, p.dnsLifetime))
  {
  }

  lemma PrefixesLearnedFirst(buf: ByteString, i: nat, prefixes: seq<(Ipv6, byte)>, option: ByteString, end: int)
    requires i <= |buf| && buf[i..] == PrefixOptions(prefixes) + option && end == |buf| - |option|
    ensures i <= end && buf[end..] == option && Learn(buf, i, []) == Learn(buf, end, Expected(prefixes))
  {
    hide *;
    assert |buf[i..]| == |PrefixOptions(prefixes)| + |option|;
    assert [] + Expected(prefixes) == Expected(prefixes);
    PrefixesLearned(buf, i, prefixes, option, [], end, Expected(prefixes));
  }

  /** From byte `i` on there are prefix options, and `option` from byte `end` on. */
  ghost predicate PrefixesThen(buf: ByteString, i: nat, prefixes: seq<(Ipv6, byte)>, option: ByteString, end: int)
  {
    i <= |buf| && buf[i..] == PrefixOptions(prefixes) + option && end == |buf| - |option|
  }

  /** Everything up to the RDNSS option is learned as sent. */
  lemma OptionsLearned(p: RaParams, buf: ByteString)
    requires |buf| >= RA_HEADER_LEN && buf[RA_HEADER_LEN..] == Options(p)
    ensures var end := |buf| - |RdnssOption(p.rdnss, p.dnsLifetime)|;
            && RA_HEADER_LEN <= end && buf[end..] == RdnssOption(p.rdnss, p.dnsLifetime)
            && Learn(buf, RA_HEADER_LEN, []) == Learn(buf, end, Expected(p.prefixes))
  {
    hide *;
    var option := RdnssOption(p.rdnss, p.dnsLifetime);
    var i, end: int := RA_HEADER_LEN + 8 + |MtuOption(p)|, |buf| - |option|;
    ToPrefixes(p, buf, i, option, end);
    ThroughPrefixes(buf, i, p.prefixes, option, end);
  }

  lemma ToPrefixes(p: RaParams, buf: ByteString, i: nat, option: ByteString, end: int)
    requires |buf| >= RA_HEADER_LEN && buf[RA_HEADER_LEN..] == Options(p)
    requires i == RA_HEADER_LEN + 8 + |MtuOption(p)|
    requires option == RdnssOption(p.rdnss, p.dnsLifetime) && end == |buf| - |option|
    ensures PrefixesThen(buf, i, p.prefixes, option, end)
    ensures Learn(buf, RA_HEADER_LEN, []) == Learn(buf, i, [])
  {
    hide Learn, LinkOption, MtuOption, PrefixOptions, RdnssOption, Options;
    OptionParts(p);
    FrontSkipped(p, buf, PrefixOptions(p.prefixes) + option, i);
  }

  lemma ThroughPrefixes(buf: ByteString, i: nat, prefixes: seq<(Ipv6, byte)>, option: ByteString, end: int)
    requires PrefixesThen(buf, i, prefixes, option, end)
    ensures i <= end && buf[end..] == option && Learn(buf, i, []) == Learn(buf, end, Expected(prefixes))
  {
    hide Learn, PrefixOptions, Expected;
    PrefixesLearnedFirst(buf, i, prefixes, option, end);
  }

  /** An advertisement is learned as sent when it names at most three DNS servers. */
  lemma RoundTrip(p: RaParams, packet: ByteString)
    requires |packet| >= RA_HEADER_LEN && packet[RA_HEADER_LEN..] == Options(p) && packet[0] == RA_TYPE
    requires |packet| <= 1500 && |p.rdnss| <= 3
    ensures LearnFrom(packet) == Expected(p.prefixes)
  {
    hide Learn, Options, Expected;
    OptionsLearned(p, packet);
    var n := |p.rdnss|;
    if n > 0 {
      var end := |packet| - |RdnssOption(p.rdnss, p.dnsLifetime)|;
      var o := packet[end..];
      assert packet[end] == o[0] == 25 && packet[end + 1] == o[1] == 1 + n;
      SkipOption(packet, end, 1 + n, Expected(p.prefixes));
      ShortTailTeachesNothing(packet, end + 8 * (1 + n), Expected(p.prefixes));
    } else {
      ShortTailTeachesNothing(packet, |packet|, Expected(p.prefixes));
    }
  }

  lemma {:induction false} LearnGrows(buf: ByteString, i: nat, learned: seq<LearnedPrefix>)
    ensures |Learn(buf, i, learned)| >= |learned|
    decreases |buf| - i
  {
    if i + 2 <= |buf| && buf[i + 1] > 0 && i + OptionLen(buf[i + 1]) <= |buf| {
      var optLen := OptionLen(buf[i + 1]);
      LearnGrows(buf, i + optLen,
                 if buf[i] == PREFIX_OPTION && optLen == PREFIX_OPTION_LEN then learned + LearnOption(buf, i)
                 else learned);
    }
  }

  /** An address both of whose halves look like the start of a prefix option. */
  predicate IsDecoy(a: Ipv6)
  {
    a[0] == a[8] == PREFIX_OPTION && a[1] == a[9] == 4
  }

  lemma {:induction false} AddressByte(rdnss: seq<Ipv6>, q: nat, r: nat)
    requires q < |rdnss| && r < 16
    ensures 16 * q + r < |Addresses(rdnss)| && Addresses(rdnss)[16 * q + r] == rdnss[q][r]
    decreases q
  {
    var first: ByteString, others := rdnss[0], Addresses(rdnss[1..]);
    if q > 0 {
      AddressByte(rdnss[1..], q - 1, r);
      assert (first + others)[16 * q + r] == others[16 * (q - 1) + r];
    }
  }

  /** Half `h` of the listed addresses starts like a prefix option. */
  lemma DecoyHalf(rdnss: seq<Ipv6>, lifetime: nat, h: nat)
    requires h < 2 * |rdnss| && forall a | a in rdnss :: IsDecoy(a)
    ensures var o := RdnssOption(rdnss, lifetime);
            8 + 8 * h + 1 < |o| && o[8 + 8 * h] == PREFIX_OPTION && o[8 + 8 * h + 1] == 4
  {
    var q, r := h / 2, 8 * (h % 2);
    AddressByte(rdnss, q, r);
    AddressByte(rdnss, q, r + 1);
    assert IsDecoy(rdnss[q]);
    hide Addresses, BE;
    var front: ByteString := [25, (1 + |rdnss|) % 256, 0, 0] + BE(lifetime, 4);
    assert RdnssOption(rdnss, lifetime) == front + Addresses(rdnss);
    assert 16 * q + r == 8 * h;
  }

  lemma DecoyOption(packet: ByteString, i: nat, learned: seq<LearnedPrefix>)
    requires i + PREFIX_OPTION_LEN <= |packet|
    requires packet[i] == packet[i + 16] == PREFIX_OPTION && packet[i + 1] == 4
    ensures |Learn(packet, i, learned)| > |learned|
  {
    var prefix: Ipv6 := packet[i + 16..i + 32];
    assert prefix[0] == packet[i + 16];
    LearnGrows(packet, i + 32, learned + LearnOption(packet, i));
  }

  lemma DecoyTail(buf: ByteString, end: nat, rdnss: seq<Ipv6>, lifetime: nat, learned: seq<LearnedPrefix>)
    requires end <= |buf| && buf[end..] == RdnssOption(rdnss, lifetime)
    requires 4 <= |rdnss| < 255 && forall a | a in rdnss :: IsDecoy(a)
    ensures |Learn(buf, end, learned)| > |learned|
  {
    var n, o := |rdnss|, RdnssOption(rdnss, lifetime);
    var i := end + 8 * (1 + n);
    DecoyBytes(rdnss, lifetime);
    hide *;
    TailByte(buf, end, o, 0, end);
    TailByte(buf, end, o, 1, end + 1);
    TailByte(buf, end, o, 8 + 8 * n, i);
    TailByte(buf, end, o, 8 + 8 * n + 1, i + 1);
    TailByte(buf, end, o, 8 + 8 * (n + 2), i + 16);
    assert |buf| == end + 8 + 16 * n;
    SkipThenDecoy(buf, end, 1 + n, i, learned);
  }

  lemma SkipThenDecoy(buf: ByteString, end: nat, units: byte, i: nat, learned: seq<LearnedPrefix>)
    requires i == end + 8 * units && units > 0 && i + PREFIX_OPTION_LEN <= |buf|
    requires buf[end] != PREFIX_OPTION && buf[end + 1] == units
    requires buf[i] == buf[i + 16] == PREFIX_OPTION && buf[i + 1] == 4
    ensures |Learn(buf, end, learned)| > |learned|
  {
    hide Learn;
    SkipOption(buf, end, units, learned);
    DecoyOption(buf, i, learned);
  }

  lemma TailByte(buf: ByteString, end: nat, tail: ByteString, k: nat, i: nat)
    requires end <= |buf| && buf[end..] == tail && k < |tail| && i == end + k
    ensures i < |buf| && buf[i] == tail[k]
  {
  }

  /** The bytes of the option by which the loop is led astray. */
  lemma DecoyBytes(rdnss: seq<Ipv6>, lifetime: nat)
    requires 4 <= |rdnss| < 255 && forall a | a in rdnss :: IsDecoy(a)
    ensures var n, o := |rdnss|, RdnssOption(rdnss, lifetime);
            && |o| == 8 + 16 * n && o[0] != PREFIX_OPTION && o[1] == 1 + n
            && o[8 + 8 * n] == o[8 + 8 * (n + 2)] == PREFIX_OPTION && o[8 + 8 * n + 1] == 4
  {
    var n, o := |rdnss|, RdnssOption(rdnss, lifetime);
    assert o[0] == 25 && o[1] == 1 + n;
    hide RdnssOption, IsDecoy;
    DecoyHalf(rdnss, lifetime, n);
    DecoyHalf(rdnss, lifetime, n + 2);
  }

  /** With four or more DNS servers, the uncounted half of their addresses can be read as a prefix option. */
  lemma DecoyIsLearned(p: RaParams, packet: ByteString)
    requires |packet| >= RA_HEADER_LEN && packet[RA_HEADER_LEN..] == Options(p) && packet[0] == RA_TYPE
    requires |packet| <= 1500 && |p.rdnss| >= 4 && forall a | a in p.rdnss :: IsDecoy(a)
    ensures |LearnFrom(packet)| > |Expected(p.prefixes)|
  {
    OptionsLearned(p, packet);
    hide Options, Expected, RdnssOption, Learn, IsDecoy;
    DecoyTail(packet, |packet| - |RdnssOption(p.rdnss, p.dnsLifetime)|, p.rdnss, p.dnsLifetime, Expected(p.prefixes));
  }

  function Decoys(n: nat): (d: seq<Ipv6>)
    ensures |d| == n && forall a | a in d :: IsDecoy(a)
  {
    seq(n, _ => [3, 4, 32, 32, 32, 32, 32, 32, 3, 4, 32, 32, 32, 32, 32, 32])
  }

  lemma BodyLength(p: RaParams)
    ensures |Body(p)|
         == 24 + |MtuOption(p)| + |PrefixOptions(p.prefixes)| + if p.rdnss == [] then 0 else 8 + 16 * |p.rdnss|
  {
    hide PrefixOptions, RdnssOption, MtuOption, LinkOption, Head;
  }

  /**
    Advertisements with `n` DNS servers are learned as sent, whatever the servers' addresses,
    exactly when `n` is at most three.
    */
  lemma RoundTripIff(p: RaParams)
    requires |Body(p)| <= 1500
    ensures (forall rdnss: seq<Ipv6> | |rdnss| == |p.rdnss| ::
               LearnFrom(Body(p.(rdnss := rdnss))) == Expected(p.prefixes))
       <==> |p.rdnss| <= 3
  {
    hide LearnFrom, Expected, Options, Decoys;
    forall rdnss: seq<Ipv6> | |rdnss| == |p.rdnss|
      ensures |Body(p.(rdnss := rdnss))| == |Body(p)|
      ensures |p.rdnss| <= 3 ==> LearnFrom(Body(p.(rdnss := rdnss))) == Expected(p.prefixes)
      ensures |p.rdnss| >= 4 && rdnss == Decoys(|rdnss|) ==> LearnFrom(Body(p.(rdnss := rdnss))) != Expected(p.prefixes)
    {
      var q := p.(rdnss := rdnss);
      BodyLength(p);
      BodyLength(q);
      assert MtuOption(p) == MtuOption(q);
      assert Body(q)[RA_HEADER_LEN..] == Options(q);
      if |p.rdnss| <= 3 {
        RoundTrip(q, Body(q));
      } else if rdnss == Decoys(|rdnss|) {
        DecoyIsLearned(q, Body(q));
      }
    }
    assert |Decoys(|p.rdnss|)| == |p.rdnss|;
  }

  // ---------------------------------------------------------------- the shared table

  /** Update in place or append. */
  function Upsert(table: seq<LearnedPrefix>, lp: LearnedPrefix): seq<LearnedPrefix>
  {
    if table == [] then [lp]
    else if table[0].prefix == lp.prefix then [lp] + table[1..]
    else [table[0]] + Upsert(table[1..], lp)
  }

  function UpsertAll(table: seq<LearnedPrefix>, learned: seq<LearnedPrefix>): seq<LearnedPrefix>
    decreases learned
  {
    if learned == [] then table else UpsertAll(Upsert(table, learned[0]), learned[1..])
  }

  ghost predicate NoPrefixTwice(table: seq<LearnedPrefix>)
  {
    forall i, j | 0 <= i < j < |table| :: table[i].prefix != table[j].prefix
  }

  lemma {:induction false} UpsertKeeps(table: seq<LearnedPrefix>, lp: LearnedPrefix)
    requires NoPrefixTwice(table)
    ensures NoPrefixTwice(Upsert(table, lp))
    ensures forall x :: x in Upsert(table, lp) <==> x == lp || (x in table && x.prefix != lp.prefix)
  {
    if table != [] {
      var first, rest := table[0], table[1..];
      assert table == [first] + rest;
      if first.prefix != lp.prefix {
        UpsertKeeps(rest, lp);
      } else {
        assert forall x | x in rest :: x.prefix != first.prefix;
      }
    }
  }

  /** The last learned version of a prefix. */
  function LastLearned(learned: seq<LearnedPrefix>, prefix: Ipv6): Option<LearnedPrefix>
  {
    if learned == [] then None
    else if LastLearned(learned[1..], prefix).Some? then LastLearned(learned[1..], prefix)
    else if learned[0].prefix == prefix then Some(learned[0])
    else None
  }

  /**
    The table never holds a prefix twice; afterwards it holds the last version of every learned
    prefix, and what it held before of the others.
    */
  lemma {:induction false} TableUpdated(table: seq<LearnedPrefix>, learned: seq<LearnedPrefix>)
    requires NoPrefixTwice(table)
    ensures NoPrefixTwice(UpsertAll(table, learned))
    ensures forall x :: x in UpsertAll(table, learned) <==>
              LastLearned(learned, x.prefix) == Some(x) || (LastLearned(learned, x.prefix).None? && x in table)
    decreases learned
  {
    if learned != [] {
      UpsertKeeps(table, learned[0]);
      TableUpdated(Upsert(table, learned[0]), learned[1..]);
    }
  }

  /** The prefix vector shared with the advertising task. */
  class PrefixTable {
    var entries: seq<LearnedPrefix>

    constructor ()
      ensures entries == []
    {
      entries := [];
    }

    /** What one received advertisement does to the table. */
    method Update(learned: seq<LearnedPrefix>)
      requires NoPrefixTwice(entries)
      modifies this
      ensures entries == UpsertAll(old(entries), learned)
      ensures NoPrefixTwice(entries)
    {
      TableUpdated(entries, learned);
      for k := 0 to |learned|
        invariant UpsertAll(old(entries), learned) == UpsertAll(entries, learned[k..])
      {
        assert learned[k..][1..] == learned[k + 1..];
        UpdateOrInsert(learned[k]);
      }
    }

    method UpdateOrInsert(lp: LearnedPrefix)
      modifies this
      ensures entries == Upsert(old(entries), lp)
    {
      hide Upsert;
      var i := 0;
      UpsertFromStart(entries, lp);
      while i < |entries| && entries[i].prefix != lp.prefix
        invariant i <= |entries| && entries == old(entries)
        invariant Upsert(entries, lp) == entries[..i] + Upsert(entries[i..], lp)
      {
        UpsertPasses(entries, i, lp);
        i := i + 1;
      }
      UpsertStops(entries, i, lp);
      if i < |entries| {
        entries := entries[i := lp];
      } else {
        entries := entries + [lp];
      }
    }
  }

  lemma UpsertFromStart(table: seq<LearnedPrefix>, lp: LearnedPrefix)
    ensures Upsert(table, lp) == table[..0] + Upsert(table[0..], lp)
  {
    hide Upsert;
    assert table[0..] == table;
  }

  lemma UpsertPasses(table: seq<LearnedPrefix>, i: nat, lp: LearnedPrefix)
    requires i < |table| && table[i].prefix != lp.prefix
    ensures table[..i] + Upsert(table[i..], lp) == table[..i + 1] + Upsert(table[i + 1..], lp)
  {
    var rest := Upsert(table[i + 1..], lp);
    assert table[i..][1..] == table[i + 1..] && Upsert(table[i..], lp) == [table[i]] + rest;
    hide Upsert;
    assert table[..i + 1] == table[..i] + [table[i]];
    Associative(table[..i], [table[i]], rest);
  }

  lemma UpsertStops(table: seq<LearnedPrefix>, i: nat, lp: LearnedPrefix)
    requires i <= |table| && (i < |table| ==> table[i].prefix == lp.prefix)
    ensures table[..i] + Upsert(table[i..], lp) == if i < |table| then table[i := lp] else table + [lp]
  {
    if i < |table| {
      assert table[i..][1..] == table[i + 1..] && Upsert(table[i..], lp) == [lp] + table[i + 1..];
    }
  }
}
