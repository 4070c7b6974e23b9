/**
  The finished advertisement: checksum, IPv6 and Ethernet headers
  (src/dhcp/ra/builder.rs), and what a receiver makes of the frame.
*/
module RaChecksum {
  import opened Wrappers
  import opened Bytes
  import opened NetworkOrder
  import opened RaFrame

  const NEXT_HEADER: byte := 58
  const MAX_PAYLOAD: nat := 0xFFFF

  // ---------------------------------------------------------------- one's-complement sums

  /** Sixteen-bit words, the last one padded with a zero byte. */
  function WordSum(s: ByteString): nat
  {
    if |s| == 0 then 0
    else if |s| == 1 then 256 * s[0]
    else U16(s[0], s[1]) + WordSum(s[2..])
  }

  /** What the checksum covers: pseudo-header and body. */
  function Total(src: Ipv6, dst: Ipv6, icmp: ByteString): nat
  {
    WordSum(src) + WordSum(dst) + |icmp| + NEXT_HEADER + WordSum(icmp)
  }

  /** End-around carries: sixteen bits that agree with the sum modulo 65535. */
  function Fold(sum: nat): (r: nat)
    ensures r < U16_LIMIT
    ensures r % 0xFFFF == sum % 0xFFFF
    ensures r == 0 <==> sum == 0
    decreases sum
  {
    if sum < U16_LIMIT then sum
    else
      FoldStepKeeps(sum);
      Fold(sum % U16_LIMIT + sum / U16_LIMIT)
  }

  lemma FoldStepKeeps(sum: nat)
    ensures (sum % U16_LIMIT + sum / U16_LIMIT) % 0xFFFF == sum % 0xFFFF
    ensures sum >= U16_LIMIT ==> 0 < sum % U16_LIMIT + sum / U16_LIMIT < sum
  {
    var q, r := sum / U16_LIMIT, sum % U16_LIMIT;
    assert sum == (r + q) + 0xFFFF * q;
    ModShift(r + q, q);
  }

  lemma ModShift(n: nat, k: nat)
    ensures (n + 0xFFFF * k) % 0xFFFF == n % 0xFFFF
  {
    QuotientUnique(n + 0xFFFF * k, 0xFFFF, n / 0xFFFF + k, n % 0xFFFF);
  }

  /** The checksum of a message; a receiver accepts a message whose own checksum comes out as 0. */
  function Checksum(src: Ipv6, dst: Ipv6, icmp: ByteString): (c: nat)
    ensures c < 0xFFFF
    ensures c == 0 <==> Total(src, dst, icmp) % 0xFFFF == 0
  {
    var sum := Fold(Total(src, dst, icmp));
    assert sum != 0;
    0xFFFF - sum
  }

  lemma {:induction false} WordSumSplit(s: ByteString, t: ByteString)
    requires |s| % 2 == 0
    ensures WordSum(s + t) == WordSum(s) + WordSum(t)
  {
    if s == [] {
      assert s + t == t;
    } else {
      assert (s + t)[2..] == s[2..] + t;
      WordSumSplit(s[2..], t);
    }
  }

  /** `icmpv6_checksum`: the accumulator stays below 2^32 and the carry loop ends. */
  method Icmpv6Checksum(src: Ipv6, dst: Ipv6, icmp: ByteString) returns (c: nat)
    requires |icmp| <= MAX_PAYLOAD
    ensures c == Checksum(src, dst, icmp)
  {
    hide WordSum, U16, Fold, Total;
    TotalParts(src, dst, icmp);
    var sum: nat := 0;
    for k := 0 to 8
      invariant sum <= 0xFFFF * k
      invariant sum + WordSum(src[2 * k..]) == WordSum(src)
    {
      WordStep(src, 2 * k);
      sum := sum + U16(src[2 * k], src[2 * k + 1]);
    }
    WordsDone(src, 16);
    for k := 0 to 8
      invariant sum <= 0xFFFF * (8 + k)
      invariant sum + WordSum(dst[2 * k..]) == WordSum(src) + WordSum(dst)
    {
      WordStep(dst, 2 * k);
      sum := sum + U16(dst[2 * k], dst[2 * k + 1]);
    }
    WordsDone(dst, 16);
    sum := sum + |icmp|;
    sum := sum + NEXT_HEADER;
    var i := 0;
    assert icmp[0..] == icmp;
    while i + 1 < |icmp|
      invariant i <= |icmp|
      invariant sum <= 0x200000 + 0x8000 * i < U32_LIMIT
      invariant sum + WordSum(icmp[i..]) == Total(src, dst, icmp)
    {
      WordStep(icmp, i);
      sum := sum + U16(icmp[i], icmp[i + 1]);
      i := i + 2;
    }
    WordsDone(icmp, i);
    if i < |icmp| {
      sum := sum + U16(icmp[i], 0);
    }
    assert sum < U32_LIMIT;
    c := FoldCarries(sum);
    c := 0xFFFF - c;
  }

  /** The loop that folds the carries back in. */
  method FoldCarries(total: nat) returns (sum: nat)
    requires total < U32_LIMIT
    ensures sum == Fold(total)
  {
    sum := total;
    while sum / U16_LIMIT != 0
      invariant sum < U32_LIMIT
      invariant Fold(sum) == Fold(total)
      decreases sum
    {
      FoldStepKeeps(sum);
      sum := sum % U16_LIMIT + sum / U16_LIMIT;
    }
  }

  lemma TotalParts(src: Ipv6, dst: Ipv6, icmp: ByteString)
    ensures Total(src, dst, icmp) == WordSum(src) + WordSum(dst) + |icmp| + NEXT_HEADER + WordSum(icmp)
    ensures src[0..] == src && dst[0..] == dst
  {
    hide WordSum;
  }

  lemma WordStep(s: ByteString, i: nat)
    requires i + 1 < |s|
    ensures WordSum(s[i..]) == U16(s[i], s[i + 1]) + WordSum(s[i + 2..])
  {
    assert s[i..][2..] == s[i + 2..];
  }

  lemma WordsDone(s: ByteString, i: nat)
    requires |s| <= i + 1 <= |s| + 1
    ensures WordSum(s[i..]) == if i == |s| then 0 else U16(s[i], 0)
  {
  }

  // ---------------------------------------------------------------- what a receiver checks

  /** Bytes at even places weigh 256, the others 1. */
  ghost function Weighted(s: ByteString): nat
  {
    if s == [] then 0
    else
      var n := |s| - 1;
      Weighted(s[..n]) + if n % 2 == 0 then 256 * (s[n] as int) else s[n] as int
  }

  /**
    Section 2.3 of RFC 4443: addresses, length, the number 58 and the message, as 16-bit words,
    add up to a multiple of 65535.
    */
  ghost predicate PassesCheck(src: ByteString, dst: ByteString, icmp: ByteString)
  {
    (Weighted(src) + Weighted(dst) + |icmp| + 58 + Weighted(icmp)) % 0xFFFF == 0
  }

  lemma {:induction false} WordSumSnoc(s: ByteString, x: byte)
    ensures WordSum(s + [x]) == WordSum(s) + (if |s| % 2 == 0 then 256 else 1) * x
  {
    if |s| >= 2 {
      assert (s + [x])[2..] == s[2..] + [x];
      WordSumSnoc(s[2..], x);
    } else if |s| == 1 {
      assert (s + [x])[2..] == [];
    }
  }

  lemma {:induction false} WordSumIsWeighted(s: ByteString)
    ensures WordSum(s) == Weighted(s)
  {
    if s != [] {
      var n := |s| - 1;
      WordSumIsWeighted(s[..n]);
      WordSumSnoc(s[..n], s[n]);
      assert s == s[..n] + [s[n]];
      hide WordSum;
    }
  }

  /** The checksum of a message is 0 exactly when the message passes. */
  lemma ZeroIffPasses(src: Ipv6, dst: Ipv6, icmp: ByteString)
    ensures Checksum(src, dst, icmp) == 0 <==> PassesCheck(src, dst, icmp)
  {
    WordSumIsWeighted(src);
    WordSumIsWeighted(dst);
    WordSumIsWeighted(icmp);
    hide WordSum, Weighted, Fold;
  }

  // ---------------------------------------------------------------- writing and checking

  /** Big-endian into bytes 2 and 3. */
  function Patched(icmp: ByteString, c: nat): (r: ByteString)
    requires |icmp| >= 4 && c < U16_LIMIT
    ensures |r| == |icmp|
  {
    icmp[2 := c / 256][3 := c % 256]
  }

  lemma PatchedSum(icmp: ByteString, c: nat)
    requires |icmp| >= 4 && icmp[2] == icmp[3] == 0 && c < U16_LIMIT
    ensures WordSum(Patched(icmp, c)) == WordSum(icmp) + c
  {
    var r := Patched(icmp, c);
    assert icmp[..4] + icmp[4..] == icmp && r[..4] + icmp[4..] == r;
    WordSumSplit(icmp[..4], icmp[4..]);
    WordSumSplit(r[..4], icmp[4..]);
    assert r[..4][2..] == [c / 256, c % 256] && icmp[..4][2..] == [0, 0];
  }

  /** The message with its checksum written into bytes 2 and 3 passes, for even and odd lengths. */
  lemma ChecksumVerifies(src: Ipv6, dst: Ipv6, icmp: ByteString)
    requires |icmp| >= 4 && icmp[2] == icmp[3] == 0
    ensures var c := Checksum(src, dst, icmp);
            PassesCheck(src, dst, icmp[2 := c / 256][3 := c % 256])
  {
    hide PassesCheck, Checksum, Total;
    VerifiesAsZero(src, dst, icmp);
    ZeroIffPasses(src, dst, Patched(icmp, Checksum(src, dst, icmp)));
  }

  lemma VerifiesAsZero(src: Ipv6, dst: Ipv6, icmp: ByteString)
    requires |icmp| >= 4 && icmp[2] == icmp[3] == 0
    ensures Checksum(src, dst, Patched(icmp, Checksum(src, dst, icmp))) == 0
  {
    var total := Total(src, dst, icmp);
    var sum := Fold(total);
    PatchedSum(icmp, 0xFFFF - sum);
    assert Total(src, dst, Patched(icmp, 0xFFFF - sum)) == total + 0xFFFF - sum;
    var q, q', r := total / 0xFFFF, sum / 0xFFFF, total % 0xFFFF;
    assert total + 0xFFFF - sum == 0xFFFF * (q - q' + 1);
    QuotientUnique(0xFFFF * (q - q' + 1), 0xFFFF, q - q' + 1, 0);
  }

  lemma WordSumUpdate(s: ByteString, k: nat, b: byte)
    requires k < |s|
    ensures WordSum(s[k := b]) - WordSum(s) == (if k % 2 == 0 then 256 else 1) * (b - s[k])
  {
    var t, even := s[k := b], k - k % 2;
    assert s == s[..even] + s[even..] && t == s[..even] + t[even..];
    WordSumSplit(s[..even], s[even..]);
    WordSumSplit(s[..even], t[even..]);
    if even + 2 <= |s| {
      assert s[even..][2..] == t[even..][2..];
    }
  }

  lemma NotMultiple(n: nat, delta: int)
    requires n % 0xFFFF == 0 && 0 <= n + delta && delta != 0 && -0xFFFF < delta < 0xFFFF
    ensures (n + delta) % 0xFFFF != 0
  {
  }

  lemma {:induction false} WeightedUpdate(s: ByteString, k: nat, b: byte)
    requires k < |s|
    ensures Weighted(s[k := b]) - Weighted(s) == (if k % 2 == 0 then 256 else 1) * (b - s[k])
  {
    WordSumUpdate(s, k, b);
    WordSumIsWeighted(s);
    WordSumIsWeighted(s[k := b]);
    hide Weighted, WordSum;
  }

  /** Messages and addresses that pass no longer pass when any one byte of them is changed. */
  lemma OneWrongByteIsCaught(src: Ipv6, dst: Ipv6, icmp: ByteString, k: nat, b: byte)
    requires PassesCheck(src, dst, icmp)
    ensures k < |icmp| && b != icmp[k] ==> !PassesCheck(src, dst, icmp[k := b])
    ensures k < 16 && b != src[k] ==> !PassesCheck(src[k := b], dst, icmp)
    ensures k < 16 && b != dst[k] ==> !PassesCheck(src, dst[k := b], icmp)
  {
    if k < |icmp| && b != icmp[k] {
      WeightedUpdate(icmp, k, b);
      ChangeIsCaught(icmp, icmp[k := b], Weighted(src) + Weighted(dst) + |icmp| + 58, k, b);
    }
    if k < 16 && b != src[k] {
      WeightedUpdate(src, k, b);
      ChangeIsCaught(src, src[k := b], Weighted(dst) + |icmp| + 58 + Weighted(icmp), k, b);
    }
    if k < 16 && b != dst[k] {
      WeightedUpdate(dst, k, b);
      ChangeIsCaught(dst, dst[k := b], Weighted(src) + |icmp| + 58 + Weighted(icmp), k, b);
    }
  }

  lemma ChangeIsCaught(s: ByteString, t: ByteString, others: nat, k: nat, b: byte)
    requires k < |s| && b != s[k] && (others + Weighted(s)) % 0xFFFF == 0
    requires Weighted(t) - Weighted(s) == (if k % 2 == 0 then 256 else 1) * (b - s[k])
    ensures (others + Weighted(t)) % 0xFFFF != 0
  {
    var before: int, after: int := others + Weighted(s), others + Weighted(t);
    hide *;
    assert after - before == (if k % 2 == 0 then 256 * (b - s[k]) else b - s[k]);
    NotMultiple(before, after - before);
  }

  /** The smallest body, from fe80::1 to all nodes. */
  lemma ChecksumExample(src: Ipv6)
    requires src == [0xfe, 0x80, 0, 0, 0, 0, 0, 0, 0, 0, 0, 0, 0, 0, 0, 1]
    ensures Checksum(src, ALL_NODES, [134, 0, 0, 0]) == 0x7c3b
  {
    var icmp: ByteString := [134, 0, 0, 0];
    SumOfEnds(src, 0xfe, 0x80);
    SumOfEnds(ALL_NODES, 0xff, 0x02);
    ShortSum(icmp);
    FoldOnce(164802);
    hide WordSum, Fold;
    assert Total(src, ALL_NODES, icmp) == 164802;
  }

  lemma ShortSum(s: ByteString)
    requires |s| == 4
    ensures WordSum(s) == U16(s[0], s[1]) + U16(s[2], s[3])
  {
    assert WordSum(s[2..]) == U16(s[2], s[3]) + WordSum(s[2..][2..]);
  }

  lemma FoldOnce(sum: nat)
    requires U16_LIMIT <= sum && sum % U16_LIMIT + sum / U16_LIMIT < U16_LIMIT
    ensures Fold(sum) == sum % U16_LIMIT + sum / U16_LIMIT
  {
  }

  lemma SumOfEnds(s: ByteString, hi: byte, lo: byte)
    requires |s| == 16 && s[0] == hi && s[1] == lo && s[15] == 1 && forall i | 2 <= i < 15 :: s[i] == 0
    ensures WordSum(s) == 256 * hi + lo + 1
  {
    WordSumIsWeighted(s);
    WeightedZeros(s, 15);
    assert s[..15 + 1] == s && s[..16][..15] == s[..15];
  }

  lemma {:induction false} WeightedZeros(s: ByteString, n: nat)
    requires 2 <= n <= |s| && forall i | 2 <= i < n :: s[i] == 0
    ensures Weighted(s[..n]) == 256 * (s[0] as int) + s[1] as int
  {
    if n > 2 {
      WeightedZeros(s, n - 1);
      assert s[..n][..n - 1] == s[..n - 1];
    } else {
      assert s[..2][..1] == [s[0]] && s[..1][..0] == [];
      assert Weighted([s[0]]) == 256 * (s[0] as int);
    }
  }

  // ---------------------------------------------------------------- the frame

  function EthHeader(srcMac: Mac): (h: ByteString)
    ensures |h| == 14
  {
    [0x33, 0x33, 0, 0, 0, 1] + srcMac + [0x86, 0xdd]
  }

  function Ipv6Header(src: Ipv6, dst: Ipv6, payloadLen: nat): (h: ByteString)
    ensures |h| == 40
  {
    [0x60, 0, 0, 0] + BE(payloadLen, 2) + [NEXT_HEADER, 255] + src + dst
  }

  lemma BodyZeroed(p: RaParams)
    ensures |Body(p)| >= RA_HEADER_LEN && Body(p)[2] == Body(p)[3] == 0 && Body(p)[0] == RA_TYPE
    ensures Body(p)[RA_HEADER_LEN..] == Options(p)
  {
    hide Options, BE;
  }

  /** `build_ra_frame`: body, checksum, IPv6 header, Ethernet header. */
  method BuildRaFrame(p: RaParams) returns (eth: ByteString)
    requires |Body(p)| <= MAX_PAYLOAD
    ensures IsSoundFrame(p, eth)
    ensures |eth| <= 1554 && |p.rdnss| <= 3 ==> LearnFrom(eth[54..]) == Expected(p.prefixes)
  {
    BodyZeroed(p);
    FrameParts(p);
    FrameIsSound(p);
    hide *;
    var icmp := BuildRaIcmpv6(p);
    var checksum := Icmpv6Checksum(p.srcIp, ALL_NODES, icmp);
    icmp := icmp[2 := checksum / 256];
    icmp := icmp[3 := checksum % 256];
    var ip := Ipv6Header(p.srcIp, ALL_NODES, |icmp|);
    ip := ip + icmp;
    eth := EthHeader(p.srcMac);
    eth := eth + ip;
  }

  /** The body with its checksum. */
  function Icmp(p: RaParams): (icmp: ByteString)
    ensures |icmp| == |Body(p)|
  {
    BodyZeroed(p);
    Patched(Body(p), Checksum(p.srcIp, ALL_NODES, Body(p)))
  }

  function FrameOf(p: RaParams): ByteString
  {
    EthHeader(p.srcMac) + (Ipv6Header(p.srcIp, ALL_NODES, |Icmp(p)|) + Icmp(p))
  }

  lemma FrameParts(p: RaParams)
    ensures |Body(p)| >= 4
    ensures var c := Checksum(p.srcIp, ALL_NODES, Body(p));
            FrameOf(p) == EthHeader(p.srcMac)
                          + (Ipv6Header(p.srcIp, ALL_NODES, |Body(p)|) + Body(p)[2 := c / 256][3 := c % 256])
  {
    BodyZeroed(p);
    hide Body, EthHeader, Ipv6Header, Checksum;
  }

  /**
    An Ethernet frame to 33:33:00:00:00:01 with an IPv6 packet from the router to ff02::1, hop limit 255
    and true length, whose ICMPv6 message passes the check and is the advertisement of `p`.
    */
  ghost predicate IsSoundFrame(p: RaParams, frame: ByteString)
  {
    && |frame| >= 54
    && frame[0..6] == [0x33, 0x33, 0, 0, 0, 1] && frame[6..12] == p.srcMac && frame[12] == 0x86 && frame[13] == 0xdd
    && frame[14..18] == [0x60, 0, 0, 0] && Reads16(frame, 18, |frame| - 54) && frame[20] == 58 && frame[21] == 255
    && frame[22..38] == p.srcIp
    && frame[38..54] == [0xff, 0x02, 0, 0, 0, 0, 0, 0, 0, 0, 0, 0, 0, 0, 0, 1]
    && PassesCheck(frame[22..38], frame[38..54], frame[54..])
    && IsAdvertisement(p, frame[54..])
  }

  lemma FrameFields(srcMac: Mac, src: Ipv6, icmp: ByteString)
    requires |icmp| <= MAX_PAYLOAD
    ensures var frame := EthHeader(srcMac) + (Ipv6Header(src, ALL_NODES, |icmp|) + icmp);
            && frame[0..6] == [0x33, 0x33, 0, 0, 0, 1] && frame[6..12] == srcMac
            && frame[12] == 0x86 && frame[13] == 0xdd && frame[14..18] == [0x60, 0, 0, 0]
            && Reads16(frame, 18, |icmp|) && frame[20] == 58 && frame[21] == 255
            && frame[22..38] == src && frame[38..54] == ALL_NODES && frame[54..] == icmp
  {
    BE16Reads(|icmp|);
    hide BE, Reads16;
    var eth, ip := EthHeader(srcMac), Ipv6Header(src, ALL_NODES, |icmp|);
    var frame := eth + (ip + icmp);
    assert frame[0..6] == eth[0..6] && frame[6..12] == eth[6..12] && frame[12] == eth[12] && frame[13] == eth[13];
    assert frame[14..18] == ip[0..4] && frame[18..20] == ip[4..6] == BE(|icmp|, 2);
    assert frame[20] == ip[6] && frame[21] == ip[7];
    assert frame[22..38] == ip[8..24] == src;
    assert frame[38..54] == ip[24..40] == ALL_NODES;
    ReadsInside(frame, 18, BE(|icmp|, 2), |icmp|);
  }

  lemma FrameIsSound(p: RaParams)
    requires |Body(p)| <= MAX_PAYLOAD
    ensures IsSoundFrame(p, FrameOf(p))
    ensures |Body(p)| <= 1500 && |p.rdnss| <= 3 ==> LearnFrom(FrameOf(p)[54..]) == Expected(p.prefixes)
  {
    var icmp := Icmp(p);
    FrameFields(p.srcMac, p.srcIp, icmp);
    PayloadIsSound(p, icmp);
    hide Icmp, EthHeader, Ipv6Header, Body, LearnFrom, Expected, PassesCheck, IsAdvertisement, Reads16;
  }

  lemma PayloadIsSound(p: RaParams, icmp: ByteString)
    requires |Body(p)| <= MAX_PAYLOAD && icmp == Icmp(p)
    ensures PassesCheck(p.srcIp, ALL_NODES, icmp) && IsAdvertisement(p, icmp)
    ensures |Body(p)| <= 1500 && |p.rdnss| <= 3 ==> LearnFrom(icmp) == Expected(p.prefixes)
  {
    BodyZeroed(p);
    IcmpParts(p);
    hide *;
    ChecksumVerifies(p.srcIp, ALL_NODES, Body(p));
    BodyIsAdvertisement(p);
    PatchedAdvertisement(p, Body(p), icmp);
    if |Body(p)| <= 1500 && |p.rdnss| <= 3 {
      RoundTrip(p, icmp);
    }
  }

  lemma IcmpParts(p: RaParams)
    ensures |Body(p)| >= 16 && Icmp(p)[..2] == Body(p)[..2] && Icmp(p)[4..] == Body(p)[4..]
    ensures Icmp(p)[0] == RA_TYPE && Icmp(p)[RA_HEADER_LEN..] == Options(p)
    ensures var c := Checksum(p.srcIp, ALL_NODES, Body(p)); Icmp(p) == Body(p)[2 := c / 256][3 := c % 256]
  {
    BodyZeroed(p);
    hide Body, Options, Checksum;
    assert Icmp(p)[RA_HEADER_LEN..] == Body(p)[RA_HEADER_LEN..];
  }

  /** The checksum field is not part of the advertisement's contents. */
  lemma PatchedAdvertisement(p: RaParams, b: ByteString, c: ByteString)
    requires IsAdvertisement(p, b) && |c| == |b| && c[..2] == b[..2] && c[4..] == b[4..]
    ensures IsAdvertisement(p, c)
  {
  }
}
