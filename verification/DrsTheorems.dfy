/**
  What a ruleset file answers: every list of rules that can be written is read back, and the
  loaded file answers every name and every address as the list of rules does.
*/
module DrsTheorems {
  import opened Wrappers
  import opened Bytes
  import opened IpRanges
  import opened SuffixIndex
  import opened DrsFormat
  import opened DrsFiles
  import opened DrsLoader

  // ---------------------------------------------------------------- meaning of a rule list

  /** The keyword stands somewhere in the name. */
  ghost predicate KeywordHits(keywords: seq<ByteString>, d: ByteString)
  {
    exists k | k in keywords :: |k| <= 255 && exists a, b :: d == a + k + b
  }

  ghost predicate RegexHits(env: Env, regexes: seq<ByteString>, d: ByteString)
  {
    exists p | p in regexes :: |p| <= 255 && env.regexHit(p, d)
  }

  /** The suffix, or something and a dot (byte 46) in front of it. The matcher refuses the empty name up front. */
  ghost predicate SuffixHits(suffixes: seq<ByteString>, d: ByteString)
  {
    d != [] && exists s | s in suffixes :: d == s || exists front :: d == front + [46] + s
  }

  ghost predicate RulesExclude(env: Env, r: Rules, d: ByteString)
  {
    d in r.excludeDomains || SuffixHits(r.excludeSuffixes, d) || RegexHits(env, r.excludeRegexes, d)
  }

  /** Exceptions veto; then exact names, suffixes, keywords and regexes, in that order. */
  ghost function RulesAnswer(env: Env, r: Rules, d: ByteString): Option<MatchResult>
  {
    if RulesExclude(env, r, d) then None
    else if d in r.domains then Some(MDomain)
    else if SuffixHits(r.suffixes, d) then Some(MSuffix)
    else if KeywordHits(r.keywords, d) then Some(MKeyword)
    else if RegexHits(env, r.regexes, d) then Some(MRegex)
    else None
  }

  ghost predicate SomeCidrHas(width: nat, cidrs: seq<Cidr>, addr: nat)
    requires CidrsValid(width, cidrs)
  {
    exists c | c in cidrs :: SharesPrefix(width, c.1 as nat, addr, c.0)
  }

  /** IPv4-mapped IPv6 addresses ask the IPv4 list only. */
  ghost function RulesIpAnswer(r: Rules, ip: IpAddr): Option<MatchResult>
    requires CidrsValid(32, r.ipv4) && CidrsValid(128, r.ipv6)
  {
    match ip
    case V4(v) => if SomeCidrHas(32, r.ipv4, v) then Some(MIpv4Cidr) else None
    case V6(v) =>
      if 0xffff_0000_0000 <= v <= 0xffff_ffff_ffff
      then if SomeCidrHas(32, r.ipv4, v - 0xffff_0000_0000) then Some(MIpv4Cidr) else None
      else if SomeCidrHas(128, r.ipv6, v) then Some(MIpv6Cidr) else None
  }

  ghost predicate Listed(entries: seq<RuleEntry>, ty: EntryType, s: ByteString)
  {
    exists e | e in entries :: e.ruleType == ty && e.domain == s
  }

  /** The lists hold what the entries say, each kind in its own list. */
  ghost predicate SortedInto(entries: seq<RuleEntry>, r: Rules)
  {
    && (forall s :: s in r.domains <==> Listed(entries, EDomain, s))
    && (forall s :: s in r.suffixes <==> Listed(entries, ESuffix, s))
    && (forall s :: s in r.keywords <==> Listed(entries, EKeyword, s))
    && (forall s :: s in r.regexes <==> Listed(entries, ERegex, s))
    && (forall s :: s in r.excludeDomains <==> Listed(entries, EExcludeDomain, s))
    && (forall s :: s in r.excludeSuffixes <==> Listed(entries, EExcludeSuffix, s))
    && (forall s :: s in r.excludeRegexes <==> Listed(entries, EExcludeRegex, s))
    && (forall c :: c in r.ipv4 <==>
        exists e | e in entries :: e.ruleType == EIpv4 && e.cidr == Some((V4(c.0), c.1)))
    && (forall c :: c in r.ipv6 <==>
        exists e | e in entries :: e.ruleType == EIpv6 && e.cidr == Some((V6(c.0), c.1)))
    && (forall p :: p in r.ports <==> exists e | e in entries :: e.ruleType == EPort && e.port == Some(p))
  }

  lemma RulesAreSorted(entries: seq<RuleEntry>)
    ensures SortedInto(entries, RulesOf(entries))
  {
    hide StringsOf, Ipv4Of, Ipv6Of, PortsOf;
    forall ty, s ensures s in StringsOf(entries, ty) <==> Listed(entries, ty, s) {
      StringsOfMembers(entries, ty, s);
    }
    forall c ensures c in Ipv4Of(entries)
                <==> exists e | e in entries :: e.ruleType == EIpv4 && e.cidr == Some((V4(c.0), c.1)) {
      Ipv4OfMembers(entries, c);
    }
    forall c ensures c in Ipv6Of(entries)
                <==> exists e | e in entries :: e.ruleType == EIpv6 && e.cidr == Some((V6(c.0), c.1)) {
      Ipv6OfMembers(entries, c);
    }
    forall p ensures p in PortsOf(entries)
                <==> exists e | e in entries :: e.ruleType == EPort && e.port == Some(p) {
      PortsOfMembers(entries, p);
    }
  }

  // ---------------------------------------------------------------- hypotheses

  /** What the types of the source say about rule lists. */
  ghost predicate RulesValid(env: Env, r: Rules)
  {
    && AllUtf8(env, r.keywords) && AllUtf8(env, r.regexes) && AllUtf8(env, r.excludeRegexes)
    && CidrsValid(32, r.ipv4) && CidrsValid(128, r.ipv6) && PortsValid(r.ports)
  }

  /** Section sizes and entry counts survive their casts to `u32`. */
  ghost predicate SectionsFit(ss: seq<Section>)
  {
    forall s | s in ss :: s.count < U32_LIMIT && |s.body| < U32_LIMIT
  }

  ghost predicate KeyCountsFit(r: Rules)
  {
    && |KeySet(r.domains)| < U32_LIMIT && |KeySet(SuffixKeys(r.suffixes))| < U32_LIMIT
    && |KeySet(r.excludeDomains)| < U32_LIMIT && |KeySet(SuffixKeys(r.excludeSuffixes))| < U32_LIMIT
  }

  ghost predicate RegexSetsCompile(env: Env, r: Rules)
  {
    && (Kept(r.regexes) != [] ==> env.setCompiles(Kept(r.regexes)))
    && (Kept(r.excludeRegexes) != [] ==> env.setCompiles(Kept(r.excludeRegexes)))
  }

  /** Everything the round trip asks of rules that were written successfully. */
  ghost predicate Loadable(env: Env, r: Rules)
  {
    && env.Valid() && RulesValid(env, r) && KeyCountsFit(r) && RegexSetsCompile(env, r)
    && BuildSections(env, r).Ok? && SectionsFit(BuildSections(env, r).value)
  }

  // ---------------------------------------------------------------- the section loop undoes the printer

  function LoadAll(env: Env, ss: seq<Section>, p: Parsed): Result<Parsed, DrsError>
  {
    if ss == [] then Ok(p)
    else
      match LoadSection(env, p, ss[0].ty, ss[0].count, ss[0].body)
      case Err(e) => Err(e)
      case Ok(next) => LoadAll(env, ss[1..], next)
  }

  /** One printed section is read back at the place it was printed to. */
  lemma OnePrintedSection(env: Env, data: ByteString, offset: nat, s: Section, rest: ByteString, n: nat, p: Parsed)
    requires offset <= |data| && data[offset..] == PrintSection(s) + rest
    requires s.count < U32_LIMIT && |s.body| < U32_LIMIT
    ensures var next := offset + SECTION_HEADER_LEN + |s.body|;
            && next <= |data| && data[next..] == rest
            && LoadSections(env, data, offset, n + 1, p) ==
               match LoadSection(env, p, s.ty, s.count, s.body)
               case Err(e) => Err(e)
               case Ok(q) => LoadSections(env, data, next, n, q)
  {
    hide LoadSection, ReadSectionHeader;
    var tail, header := data[offset..], SectionHeader(s.ty, s.count, |s.body|);
    var start := offset + SECTION_HEADER_LEN;
    var next := start + |s.body|;
    assert tail == header + s.body + rest;
    assert data[offset..start] == tail[..SECTION_HEADER_LEN] == header;
    HeaderRoundTrip(data, offset, s.ty, s.count, |s.body|);
    assert data[start..next] == tail[SECTION_HEADER_LEN..SECTION_HEADER_LEN + |s.body|] == s.body;
    assert data[next..] == tail[SECTION_HEADER_LEN + |s.body|..] == rest;
  }

  lemma {:induction false} PrintedSectionsLoad(env: Env, data: ByteString, offset: nat, ss: seq<Section>, p: Parsed)
    requires offset <= |data| && data[offset..] == PrintSections(ss)
    requires SectionsFit(ss)
    ensures LoadSections(env, data, offset, |ss|, p) == LoadAll(env, ss, p)
    decreases ss
  {
    hide LoadSection, PrintSection, ReadSectionHeader;
    if ss != [] {
      var s, rest := ss[0], ss[1..];
      assert s in ss && SectionsFit(rest);
      OnePrintedSection(env, data, offset, s, PrintSections(rest), |rest|, p);
      var one := LoadSection(env, p, s.ty, s.count, s.body);
      if one.Ok? {
        PrintedSectionsLoad(env, data, offset + SECTION_HEADER_LEN + |s.body|, rest, one.value);
      }
    }
  }

  // ---------------------------------------------------------------- ten sections, one field each

  /** What the section loop holds after the first `k` of the ten sections, if all ten give `e`. */
  function After(e: Parsed, k: nat): Parsed
  {
    Parsed(
      if k >= 1 then e.domainFst else None, if k >= 2 then e.suffixFst else None,
      if k >= 8 then e.excludeDomainFst else None, if k >= 9 then e.excludeSuffixFst else None,
      if k >= 3 then e.keywords else [], if k >= 4 then e.regexes else [], if k >= 10 then e.excludeRegexes else [],
      if k >= 5 then e.ipv4 else [], if k >= 6 then e.ipv6 else [], if k >= 7 then e.ports else [],
      BuildStats(
        if k >= 1 then e.stats.domainCount else 0, if k >= 2 then e.stats.suffixCount else 0,
        if k >= 3 then e.stats.keywordCount else 0, if k >= 4 then e.stats.regexCount else 0,
        if k >= 5 then e.stats.ipv4Count else 0, if k >= 6 then e.stats.ipv6Count else 0,
        if k >= 7 then e.stats.portCount else 0, if k >= 8 then e.stats.excludeDomainCount else 0,
        if k >= 9 then e.stats.excludeSuffixCount else 0, if k >= 10 then e.stats.excludeRegexCount else 0))
  }

  /** A section with an empty body was not written, so it is not read. */
  function LoadIfWritten(env: Env, s: Section, p: Parsed): Result<Parsed, DrsError>
  {
    if s.body == [] then Ok(p) else LoadSection(env, p, s.ty, s.count, s.body)
  }

  /** The section moves the loop from step `k` to step `k + 1`. */
  ghost predicate Steps(env: Env, s: Section, e: Parsed, k: nat)
  {
    LoadIfWritten(env, s, After(e, k)) == Ok(After(e, k + 1))
  }

  ghost predicate FstSection(env: Env, body: ByteString, count: nat, keys: Option<Index>)
  {
    if body == [] then keys == None && count == 0 else keys.Some? && env.fstDecode(body) == keys
  }

  lemma FstSectionSteps(env: Env, body: ByteString, e: Parsed)
    ensures FstSection(env, body, e.stats.domainCount, e.domainFst)
        ==> Steps(env, Section(DomainFst, e.stats.domainCount, body), e, 0)
    ensures FstSection(env, body, e.stats.suffixCount, e.suffixFst)
        ==> Steps(env, Section(DomainSuffixFst, e.stats.suffixCount, body), e, 1)
  {
  }

  lemma ExcludeFstSectionSteps(env: Env, body: ByteString, e: Parsed)
    ensures FstSection(env, body, e.stats.excludeDomainCount, e.excludeDomainFst)
        ==> Steps(env, Section(ExcludeDomainFst, e.stats.excludeDomainCount, body), e, 7)
    ensures FstSection(env, body, e.stats.excludeSuffixCount, e.excludeSuffixFst)
        ==> Steps(env, Section(ExcludeSuffixFst, e.stats.excludeSuffixCount, body), e, 8)
  {
  }

  ghost predicate StringSection(env: Env, body: ByteString, count: nat, items: seq<ByteString>)
  {
    (body == [] ==> items == [] && count == 0) && DecodeStrings(env, body, 0, []) == Ok(items)
  }

  lemma StringSectionSteps(env: Env, body: ByteString, e: Parsed)
    ensures StringSection(env, body, e.stats.keywordCount, e.keywords)
        ==> Steps(env, Section(DomainKeyword, e.stats.keywordCount, body), e, 2)
    ensures StringSection(env, body, e.stats.regexCount, e.regexes)
        ==> Steps(env, Section(DomainRegex, e.stats.regexCount, body), e, 3)
    ensures StringSection(env, body, e.stats.excludeRegexCount, e.excludeRegexes)
        ==> Steps(env, Section(ExcludeDomainRegex, e.stats.excludeRegexCount, body), e, 9)
  {
    hide DecodeStrings;
    assert [] + e.keywords == e.keywords && [] + e.regexes == e.regexes && [] + e.excludeRegexes == e.excludeRegexes;
  }

  lemma EmptyCidrSection(width: nat)
    ensures DecodeCidrSection(width, []) == Ok([])
  {
  }

  lemma Ipv4SectionSteps(env: Env, body: ByteString, e: Parsed)
    ensures (body == [] ==> e.stats.ipv4Count == 0) && DecodeCidrSection(32, body) == Ok(e.ipv4)
        ==> Steps(env, Section(IpCidrV4, e.stats.ipv4Count, body), e, 4)
  {
    hide DecodeCidrSection;
    EmptyCidrSection(32);
    assert [] + e.ipv4 == e.ipv4;
  }

  lemma Ipv6SectionSteps(env: Env, body: ByteString, e: Parsed)
    ensures (body == [] ==> e.stats.ipv6Count == 0) && DecodeCidrSection(128, body) == Ok(e.ipv6)
        ==> Steps(env, Section(IpCidrV6, e.stats.ipv6Count, body), e, 5)
  {
    hide DecodeCidrSection;
    EmptyCidrSection(128);
    assert [] + e.ipv6 == e.ipv6;
  }

  lemma PortSectionSteps(env: Env, body: ByteString, e: Parsed)
    ensures (body == [] ==> e.stats.portCount == 0) && DecodePortSection(body) == Ok(e.ports)
        ==> Steps(env, Section(Port, e.stats.portCount, body), e, 6)
  {
    assert DecodePortSection([]) == Ok([]);
    hide DecodePortSection;
    assert [] + e.ports == e.ports;
  }

  // ---------------------------------------------------------------- the sections of a rule list

  function FstOf(keys: seq<ByteString>): Option<Index>
  {
    if keys == [] then None else Some(KeySet(keys))
  }

  /** What reading all ten sections of a rule list must give. */
  function Expected(r: Rules): Parsed
    requires CidrsValid(32, r.ipv4) && CidrsValid(128, r.ipv6)
  {
    Parsed(
      FstOf(r.domains), FstOf(SuffixKeys(r.suffixes)), FstOf(r.excludeDomains), FstOf(SuffixKeys(r.excludeSuffixes)),
      Kept(r.keywords), Kept(r.regexes), Kept(r.excludeRegexes),
      RangesOf(32, r.ipv4), RangesOf(128, r.ipv6), r.ports, StatsOf(r))
  }

  lemma FstRoundTrip(env: Env, keys: seq<ByteString>)
    requires env.Valid() && BuildSetFst(env, keys).Ok?
    ensures FstSection(env, BuildSetFst(env, keys).value, |KeySet(keys)| % U32_LIMIT, FstOf(keys))
  {
    if keys == [] {
      assert KeySet(keys) == {};
    }
  }

  lemma {:induction false} StringsEmpty(items: seq<ByteString>)
    ensures EncodeStrings(items) == [] ==> Kept(items) == []
  {
    if items != [] {
      StringsEmpty(items[1..]);
    }
  }

  lemma StringRoundTrip(env: Env, items: seq<ByteString>)
    requires AllUtf8(env, items)
    ensures StringSection(env, EncodeStrings(items), |Kept(items)|, Kept(items))
  {
    StringsEmpty(items);
    StringSectionRoundTrip(env, items);
  }

  lemma FstsWritten(env: Env, r: Rules, f: Fsts)
    requires env.Valid() && BuildFsts(env, r) == Ok(f)
    requires CidrsValid(32, r.ipv4) && CidrsValid(128, r.ipv6)
    ensures var e := Expected(r);
            && FstSection(env, f.domain, e.stats.domainCount, e.domainFst)
            && FstSection(env, f.suffix, e.stats.suffixCount, e.suffixFst)
            && FstSection(env, f.excludeDomain, e.stats.excludeDomainCount, e.excludeDomainFst)
            && FstSection(env, f.excludeSuffix, e.stats.excludeSuffixCount, e.excludeSuffixFst)
  {
    FstRoundTrip(env, r.domains);
    FstRoundTrip(env, SuffixKeys(r.suffixes));
    FstRoundTrip(env, r.excludeDomains);
    FstRoundTrip(env, SuffixKeys(r.excludeSuffixes));
    hide Kept, RangesOf, SuffixKeys, FstSection, KeySet, FstOf;
  }

  lemma CidrsWritten(width: nat, cidrs: seq<Cidr>)
    requires (width == 32 || width == 128) && CidrsValid(width, cidrs)
    ensures EncodeCidrs(width, cidrs) == [] ==> |cidrs| == 0
    ensures DecodeCidrSection(width, EncodeCidrs(width, cidrs)) == Ok(RangesOf(width, cidrs))
  {
    CidrSectionRoundTrip(width, cidrs);
    EncodeCidrsLength(width, cidrs);
  }

  lemma NumbersWritten(r: Rules)
    requires CidrsValid(32, r.ipv4) && CidrsValid(128, r.ipv6) && PortsValid(r.ports)
    ensures var body, e := EncodeCidrs(32, r.ipv4), Expected(r);
            (body == [] ==> e.stats.ipv4Count == 0) && DecodeCidrSection(32, body) == Ok(e.ipv4)
    ensures var body, e := EncodeCidrs(128, r.ipv6), Expected(r);
            (body == [] ==> e.stats.ipv6Count == 0) && DecodeCidrSection(128, body) == Ok(e.ipv6)
    ensures var body, e := EncodePorts(r.ports), Expected(r);
            (body == [] ==> e.stats.portCount == 0) && DecodePortSection(body) == Ok(e.ports)
  {
    hide Kept, RangesOf, SuffixKeys, DecodeCidrSection, DecodePortSection, EncodeCidrs, CidrsValid, KeySet, FstOf;
    CidrsWritten(32, r.ipv4);
    CidrsWritten(128, r.ipv6);
    PortSectionRoundTrip(r.ports);
  }

  lemma WrittenSectionSteps(env: Env, r: Rules, f: Fsts, k: nat)
    requires env.Valid() && RulesValid(env, r) && BuildFsts(env, r) == Ok(f) && k < 10
    ensures Steps(env, AllSections(f, r)[k], Expected(r), k)
  {
    hide Steps, DecodeStrings, DecodeCidrSection, DecodePortSection, Kept, EncodeStrings, EncodePorts, EncodeCidrs,
         RangesOf, SuffixKeys, FstSection, StringSection, BuildFsts, KeySet, FstOf;
    var e := Expected(r);
    FstsWritten(env, r, f);
    NumbersWritten(r);
    var s := AllSections(f, r)[k];
    if k < 2 {
      FstSectionSteps(env, s.body, e);
    } else if k < 4 || k == 9 {
      StringRoundTrip(env, if k == 2 then r.keywords else if k == 3 then r.regexes else r.excludeRegexes);
      StringSectionSteps(env, s.body, e);
    } else if k < 7 {
      Ipv4SectionSteps(env, s.body, e);
      Ipv6SectionSteps(env, s.body, e);
      PortSectionSteps(env, s.body, e);
    } else {
      ExcludeFstSectionSteps(env, s.body, e);
    }
  }

  lemma {:induction false} WrittenSectionsLoad(env: Env, r: Rules, f: Fsts, k: nat)
    requires env.Valid() && RulesValid(env, r) && BuildFsts(env, r) == Ok(f) && k <= 10
    ensures LoadAll(env, DropEmpty(AllSections(f, r)[k..]), After(Expected(r), k)) == Ok(After(Expected(r), 10))
    decreases 10 - k
  {
    hide LoadSection, After, Expected, AllSections, BuildFsts;
    if k < 10 {
      var ss := AllSections(f, r);
      var rest := DropEmpty(ss[k + 1..]);
      WrittenSectionSteps(env, r, f, k);
      WrittenSectionsLoad(env, r, f, k + 1);
      DropEmptyStep(ss, k);
      assert ([ss[k]] + rest)[1..] == rest;
    }
  }

  lemma {:induction false} DropEmptyLength(ss: seq<Section>)
    ensures |DropEmpty(ss)| <= |ss|
  {
    if ss != [] {
      DropEmptyLength(ss[1..]);
    }
  }

  lemma HeaderFields(buildTime: nat, sourceHash: ByteString, n: nat, rest: ByteString)
    requires |sourceHash| == 32 && n < U32_LIMIT
    ensures var data := FileHeader(buildTime, sourceHash, n) + rest;
            && data[..4] == MAGIC && data[4] == VERSION_V2 && data[6..14] == LE(buildTime, 8)
            && data[14..46] == sourceHash && FromLE(data[46..50]) == n && data[V2_HEADER_LEN..] == rest
  {
    var h := FileHeader(buildTime, sourceHash, n);
    var data := h + rest;
    assert data[..4] == h[..4] == MAGIC;
    assert data[6..14] == h[6..14] == LE(buildTime, 8);
    assert data[14..46] == h[14..46] == sourceHash;
    assert data[46..50] == h[46..50] == LE(n, 4);
    Pow256Values();
    LERoundTrip(n, 4);
  }

  /** The file that `write_v2` prints. */
  function Written(env: Env, r: Rules, buildTime: nat, sourceHash: ByteString): ByteString
    requires |sourceHash| == 32 && BuildSections(env, r).Ok?
  {
    PrintFile(buildTime, sourceHash, BuildSections(env, r).value)
  }

  function FromParsed(r: Rules, buildTime: nat, sourceHash: ByteString): DrsFile
    requires CidrsValid(32, r.ipv4) && CidrsValid(128, r.ipv6)
  {
    var e := Expected(r);
    FileOf(e, MergeRanges(e.ipv4), MergeRanges(e.ipv6), buildTime, sourceHash)
  }

  /** Reading back what was written: exactly the sets, strings, ranges and counts of the rules. */
  lemma WrittenFileLoads(env: Env, v1: ByteString -> Result<DrsFile, DrsError>, r: Rules,
                         buildTime: nat, sourceHash: ByteString)
    requires Loadable(env, r) && |sourceHash| == 32 && buildTime < Pow256(8)
    ensures Load(env, v1, Written(env, r, buildTime, sourceHash)) == Ok(FromParsed(r, buildTime, sourceHash))
  {
    hide LoadSection, AllSections, BuildFsts, MergeRanges, DropEmpty, Kept, SuffixKeys, StatsOf, RangesOf, FileHeader,
         PrintSections, LoadSections, LoadAll;
    var f := BuildFsts(env, r).value;
    var ss := BuildSections(env, r).value;
    var data := Written(env, r, buildTime, sourceHash);
    DropEmptyLength(AllSections(f, r));
    HeaderFields(buildTime, sourceHash, |ss|, PrintSections(ss));
    LERoundTrip(buildTime, 8);
    PrintedSectionsLoad(env, data, V2_HEADER_LEN, ss, NOTHING);
    assert AllSections(f, r)[0..] == AllSections(f, r);
    assert After(Expected(r), 0) == NOTHING && After(Expected(r), 10) == Expected(r);
    WrittenSectionsLoad(env, r, f, 0);
  }

  /** The fields that no query reads. */
  lemma LoadedFields(r: Rules, buildTime: nat, sourceHash: ByteString)
    requires CidrsValid(32, r.ipv4) && CidrsValid(128, r.ipv6)
    ensures var f := FromParsed(r, buildTime, sourceHash);
            && f.ports == r.ports && (f.hasPort <==> r.ports != [])
            && f.buildTime == buildTime && f.sourceHash == sourceHash
    ensures var counts := FromParsed(r, buildTime, sourceHash).stats;
            && counts.domainCount == |set d | d in r.domains| % 0x1_0000_0000
            && counts.excludeDomainCount == |set d | d in r.excludeDomains| % 0x1_0000_0000
            && counts.keywordCount == |Kept(r.keywords)| && counts.regexCount == |Kept(r.regexes)|
            && counts.excludeRegexCount == |Kept(r.excludeRegexes)|
            && counts.ipv4Count == |r.ipv4| % 0x1_0000_0000 && counts.ipv6Count == |r.ipv6| % 0x1_0000_0000
            && counts.portCount == |r.ports| % 0x1_0000_0000
  {
    hide Kept, SuffixKeys, RangesOf, MergeRanges, FstOf;
  }

  // ---------------------------------------------------------------- answers

  lemma SetIsNonEmpty(keys: seq<ByteString>)
    ensures |KeySet(keys)| > 0 <==> keys != []
  {
    if keys != [] {
      assert keys[0] in KeySet(keys);
    }
  }

  lemma SuffixSetHits(suffixes: seq<ByteString>, d: ByteString)
    ensures d != [] && KeyHit(KeySet(SuffixKeys(suffixes)), d) <==> SuffixHits(suffixes, d)
  {
    SuffixKeysAreKeys(suffixes);
    LookupIsSuffixMatch(suffixes, d);
    hide KeyHit, SuffixKeys, KeySet, KeysOf;
    forall s ensures UnderSuffix(d, s) <==> d == s || exists front :: d == front + [46] + s {
      UnderSuffixSpelled(d, s);
    }
  }

  lemma UnderSuffixSpelled(d: ByteString, s: ByteString)
    ensures UnderSuffix(d, s) <==> d == s || exists front :: d == front + [46] + s
  {
    if EndsWith(d, [46] + s) {
      var k := |d| - |s| - 1;
      assert d == d[..k] + ([46] + s);
      Associative(d[..k], [46], s);
    }
    if exists front :: d == front + [46] + s {
      var front :| d == front + [46] + s;
      Associative(front, [46], s);
      EndsWithTail(front, [46] + s);
    }
  }

  lemma KeptRegexHits(env: Env, regexes: seq<ByteString>, d: ByteString)
    ensures AnyRegexHits(env, Kept(regexes), d) <==> RegexHits(env, regexes, d)
  {
    forall p ensures p in Kept(regexes) <==> p in regexes && |p| <= MAX_STRING {
      KeptMembers(regexes, p);
    }
  }

  lemma KeptKeywordHits(keywords: seq<ByteString>, d: ByteString)
    ensures AnyKeywordIn(Kept(keywords), d) <==> KeywordHits(keywords, d)
  {
    forall k ensures k in Kept(keywords) <==> k in keywords && |k| <= MAX_STRING {
      KeptMembers(keywords, k);
    }
    forall k ensures Contains(d, k) <==> exists a, b :: d == a + k + b {
      ContainsIff(d, k);
    }
    hide Contains, Kept;
  }

  lemma LoadedExcludes(env: Env, r: Rules, buildTime: nat, sourceHash: ByteString, d: ByteString)
    requires CidrsValid(32, r.ipv4) && CidrsValid(128, r.ipv6)
    ensures FileExcludes(env, FromParsed(r, buildTime, sourceHash), d) <==> RulesExclude(env, r, d)
  {
    SuffixSetHits(r.excludeSuffixes, d);
    KeptRegexHits(env, r.excludeRegexes, d);
  }

  lemma LoadedDomains(r: Rules, buildTime: nat, sourceHash: ByteString, d: ByteString)
    requires CidrsValid(32, r.ipv4) && CidrsValid(128, r.ipv6) && KeyCountsFit(r)
    ensures var f := FromParsed(r, buildTime, sourceHash);
            f.hasDomain && f.domainFst.Some? && d in f.domainFst.value <==> d in r.domains
  {
    hide KeyHit, SuffixHits, Kept, SuffixKeys, RangesOf, MergeRanges;
    SetIsNonEmpty(r.domains);
  }

  lemma NoSuffixes(d: ByteString)
    ensures !SuffixHits([], d)
  {
  }

  lemma LoadedSuffixes(r: Rules, buildTime: nat, sourceHash: ByteString, d: ByteString)
    requires CidrsValid(32, r.ipv4) && CidrsValid(128, r.ipv6) && KeyCountsFit(r)
    ensures var f := FromParsed(r, buildTime, sourceHash);
            f.hasSuffix && f.suffixFst.Some? && d != [] && KeyHit(f.suffixFst.value, d) <==> SuffixHits(r.suffixes, d)
  {
    hide KeyHit, SuffixHits, Kept, SuffixKeys, RangesOf, MergeRanges, KeySet;
    NoSuffixes(d);
    SetIsNonEmpty(SuffixKeys(r.suffixes));
    SuffixSetHits(r.suffixes, d);
  }

  lemma LoadedStrings(env: Env, r: Rules, buildTime: nat, sourceHash: ByteString, d: ByteString)
    requires CidrsValid(32, r.ipv4) && CidrsValid(128, r.ipv6)
    ensures var f := FromParsed(r, buildTime, sourceHash);
            && (f.hasKeyword && AnyKeywordIn(f.keywords, d) <==> KeywordHits(r.keywords, d))
            && (f.hasRegex && f.regexes.Some? && AnyRegexHits(env, f.regexes.value, d)
                <==> RegexHits(env, r.regexes, d))
  {
    KeptKeywordHits(r.keywords, d);
    KeptRegexHits(env, r.regexes, d);
    assert !AnyKeywordIn([], d) && !AnyRegexHits(env, [], d);
    hide Kept, SuffixKeys, RangesOf, MergeRanges, AnyKeywordIn, AnyRegexHits, KeywordHits, RegexHits, StatsOf, FstOf;
  }

  /** The loaded file answers every name as the rule list does. */
  lemma LoadedFileAnswers(env: Env, r: Rules, buildTime: nat, sourceHash: ByteString, d: ByteString)
    requires CidrsValid(32, r.ipv4) && CidrsValid(128, r.ipv6) && KeyCountsFit(r)
    ensures FileAnswer(env, FromParsed(r, buildTime, sourceHash), d) == RulesAnswer(env, r, d)
  {
    hide FromParsed, KeyHit, SuffixHits, FileExcludes, RulesExclude, AnyRegexHits, RegexHits, AnyKeywordIn, KeywordHits;
    LoadedExcludes(env, r, buildTime, sourceHash, d);
    LoadedDomains(r, buildTime, sourceHash, d);
    LoadedSuffixes(r, buildTime, sourceHash, d);
    LoadedStrings(env, r, buildTime, sourceHash, d);
  }

  lemma {:induction false} RangesAreCidrs(width: nat, cidrs: seq<Cidr>, addr: nat)
    requires CidrsValid(width, cidrs) && addr < Pow2(width)
    ensures WellFormed(RangesOf(width, cidrs))
    ensures Covered(RangesOf(width, cidrs), addr) <==> SomeCidrHas(width, cidrs, addr)
  {
    if cidrs != [] {
      var c, rest := cidrs[0], cidrs[1..];
      assert c in cidrs && CidrsValid(width, rest);
      RangesAreCidrs(width, rest, addr);
      CidrRangeIsPrefixClass(width, c.0, c.1, addr);
      var head := CidrToRange(width, c.0, c.1);
      assert InRange(head, addr) <==> SharesPrefix(width, c.1 as nat, addr, c.0);
      assert forall x :: x in RangesOf(width, cidrs) <==> x == head || x in RangesOf(width, rest);
      assert Covered(RangesOf(width, cidrs), addr) <==> InRange(head, addr) || Covered(RangesOf(width, rest), addr);
      assert forall x :: x in cidrs <==> x == c || x in rest;
      hide CidrToRange, RangesOf;
    }
  }

  ghost predicate IpValid(ip: IpAddr)
  {
    match ip
    case V4(v) => v < Pow2(32)
    case V6(v) => v < Pow2(128)
  }

  /** Merged ranges are ready for the binary search and hit what some CIDR of the list hits. */
  lemma MergedRangesAreCidrs(width: nat, cidrs: seq<Cidr>, addr: nat)
    requires CidrsValid(width, cidrs) && addr < Pow2(width)
    ensures var merged := MergeRanges(RangesOf(width, cidrs));
            Disjoint(merged) && (Covered(merged, addr) <==> SomeCidrHas(width, cidrs, addr))
  {
    RangesAreCidrs(width, cidrs, addr);
    MergeKeepsUnion(RangesOf(width, cidrs));
  }

  lemma MappedIsRange(v: nat)
    requires v < 0x1_0000_0000_0000_0000_0000_0000_0000_0000
    ensures MappedV4(v) == if 0xffff_0000_0000 <= v <= 0xffff_ffff_ffff then Some(v - 0xffff_0000_0000) else None
  {
  }

  lemma LoadedRanges(r: Rules, buildTime: nat, sourceHash: ByteString)
    requires CidrsValid(32, r.ipv4) && CidrsValid(128, r.ipv6)
    ensures var f := FromParsed(r, buildTime, sourceHash);
            && f.ipv4Ranges == MergeRanges(RangesOf(32, r.ipv4)) && f.ipv6Ranges == MergeRanges(RangesOf(128, r.ipv6))
            && (f.hasIp <==> f.ipv4Ranges != [] || f.ipv6Ranges != [])
  {
    hide MergeRanges, RangesOf, Kept, SuffixKeys, StatsOf, FstOf;
  }

  /** The loaded file is ready for `matches_ip` and answers every address as the CIDR lists do. */
  lemma LoadedFileAnswersIp(r: Rules, buildTime: nat, sourceHash: ByteString, ip: IpAddr)
    requires CidrsValid(32, r.ipv4) && CidrsValid(128, r.ipv6) && IpValid(ip)
    ensures var f := FromParsed(r, buildTime, sourceHash);
            Disjoint(f.ipv4Ranges) && Disjoint(f.ipv6Ranges) && FileIpAnswer(f, ip) == RulesIpAnswer(r, ip)
  {
    hide FromParsed, SomeCidrHas, CidrsValid, MergeRanges, RangesOf, Covered, Disjoint, MappedV4, Pow2;
    Pow2Values();
    LoadedRanges(r, buildTime, sourceHash);
    var v4 := if ip.V4? then ip.v4
              else if 0xffff_0000_0000 <= ip.v6 <= 0xffff_ffff_ffff then ip.v6 - 0xffff_0000_0000 else 0;
    var v6 := if ip.V6? then ip.v6 else 0;
    MappedIsRange(v6);
    MergedRangesAreCidrs(32, r.ipv4, v4);
    MergedRangesAreCidrs(128, r.ipv6, v6);
    NothingCovered(v4);
    NothingCovered(v6);
  }

  lemma NothingCovered(v: nat)
    ensures !Covered([], v)
  {
  }

  // ---------------------------------------------------------------- files from anywhere

  lemma {:induction false} DecodedWellFormed(width: nat, body: ByteString, i: nat, ranges: seq<Range>)
    requires (width == 32 || width == 128) && WellFormed(ranges)
    ensures DecodeCidrs(width, body, i, ranges).Ok? ==> WellFormed(DecodeCidrs(width, body, i, ranges).value)
    decreases |body| - i
  {
    var n := AddrLen(width);
    if i + n + 1 <= |body| && body[i + n] <= width {
      var addr := DecodeAddr(width, body[i..i + n]);
      DecodedInRange(width, body[i..i + n]);
      CidrRangeIsPrefixClass(width, addr, body[i + n], addr);
      hide CidrToRange, DecodeAddr;
      DecodedWellFormed(width, body, i + n + 1, ranges + [CidrToRange(width, addr, body[i + n])]);
    }
  }

  lemma DecodedInRange(width: nat, s: ByteString)
    requires (width == 32 && |s| == 4) || (width == 128 && |s| == 16)
    ensures DecodeAddr(width, s) < Pow2(width)
  {
    NumbersBounded(s);
    Pow2Values();
    Pow256Values();
    hide FromLE, FromBE, Pow2, Pow256;
  }

  lemma SectionWellFormed(env: Env, p: Parsed, ty: SectionType, count: nat, body: ByteString)
    requires WellFormed(p.ipv4) && WellFormed(p.ipv6)
    ensures var r := LoadSection(env, p, ty, count, body);
            r.Ok? ==> WellFormed(r.value.ipv4) && WellFormed(r.value.ipv6)
  {
    DecodedWellFormed(32, body, 0, []);
    DecodedWellFormed(128, body, 0, []);
    hide DecodeCidrs, DecodeStrings, DecodePorts;
  }

  lemma {:induction false} SectionsWellFormed(env: Env, data: ByteString, offset: nat, n: nat, p: Parsed)
    requires offset <= |data| && WellFormed(p.ipv4) && WellFormed(p.ipv6)
    ensures var r := LoadSections(env, data, offset, n, p);
            r.Ok? ==> WellFormed(r.value.ipv4) && WellFormed(r.value.ipv6)
    decreases n
  {
    hide LoadSection, WellFormed, ReadSectionHeader;
    if n > 0 && ReadSectionHeader(data, offset).Ok? {
      var h := ReadSectionHeader(data, offset).value;
      var start := offset + SECTION_HEADER_LEN;
      if start + h.byteLen <= |data| {
        var body := data[start..start + h.byteLen];
        SectionWellFormed(env, p, h.ty, h.count, body);
        var next := LoadSection(env, p, h.ty, h.count, body);
        if next.Ok? {
          SectionsWellFormed(env, data, start + h.byteLen, n - 1, next.value);
        }
      }
    }
  }

  /** Whatever its bytes, a version 2 file that loads is ready for the binary searches of `matches_ip`. */
  lemma LoadedIsSearchable(env: Env, data: ByteString)
    requires |data| >= V2_HEADER_LEN && LoadV2(env, data).Ok?
    ensures Disjoint(LoadV2(env, data).value.ipv4Ranges) && Disjoint(LoadV2(env, data).value.ipv6Ranges)
  {
    SectionsWellFormed(env, data, V2_HEADER_LEN, FromLE(data[46..50]), NOTHING);
    var p := LoadSections(env, data, V2_HEADER_LEN, FromLE(data[46..50]), NOTHING).value;
    MergeKeepsUnion(p.ipv4);
    MergeKeepsUnion(p.ipv6);
    hide LoadSections, MergeRanges, Disjoint, FromLE, WellFormed;
  }

  // ---------------------------------------------------------------- end to end

  /** Sorts entries into buckets and prints them. */
  method BuildFile(env: Env, entries: seq<RuleEntry>, buildTime: nat, sourceHash: ByteString) returns (data: ByteString)
    requires BuildSections(env, RulesOf(entries)).Ok? && |sourceHash| == 32
    requires forall e | e in entries :: Acceptable(env, e)
    ensures data == Written(env, RulesOf(entries), buildTime, sourceHash)
  {
    hide RulesOf, BuildSections, PrintFile, Acceptable, StatsOf;
    var buckets := new EntryBuckets();
    for i := 0 to |entries|
      invariant buckets.Valid() && fresh(buckets)
      invariant buckets.pushed == entries[..i]
    {
      assert entries[i] in entries;
      var error := buckets.Push(env, entries[i]);
    }
    assert entries[..|entries|] == entries;
    var writer := new Writer();
    var written := buckets.WriteTo(env, writer, buildTime, sourceHash);
    data := writer.out;
  }

  /**
    End to end: entries sorted into buckets, printed, read back and asked. Every file that
    could be written loads, and answers each name and each address as its entries say.
    */
  method BuildAndAsk(env: Env, v1: ByteString -> Result<DrsFile, DrsError>, entries: seq<RuleEntry>,
                     buildTime: nat, sourceHash: ByteString, d: ByteString, ip: IpAddr)
    returns (name: Option<MatchResult>, address: Option<MatchResult>, ports: seq<PortRange>)
    requires Loadable(env, RulesOf(entries)) && |sourceHash| == 32 && buildTime < Pow256(8)
    requires (forall e | e in entries :: Acceptable(env, e)) && IpValid(ip)
    ensures SortedInto(entries, RulesOf(entries)) && ports == RulesOf(entries).ports
    ensures IsNormalForm(d, Normalize(d)) && name == RulesAnswer(env, RulesOf(entries), Normalize(d))
    ensures address == RulesIpAnswer(RulesOf(entries), ip)
  {
    hide RulesAnswer, RulesIpAnswer, FileAnswer, FileIpAnswer, RulesOf, BuildSections, PrintFile, FromParsed, Load,
         SectionsFit, CidrsValid, KeyCountsFit, RegexSetsCompile, Acceptable, StatsOf, Written, SortedInto,
         IsNormalForm, Normalize;
    ghost var r := RulesOf(entries);
    var data := BuildFile(env, entries, buildTime, sourceHash);
    WrittenFileLoads(env, v1, r, buildTime, sourceHash);
    var loaded := FromBytes(env, v1, data);
    LoadedFileAnswers(env, r, buildTime, sourceHash, Normalize(d));
    LoadedFileAnswersIp(r, buildTime, sourceHash, ip);
    LoadedFields(r, buildTime, sourceHash);
    RulesAreSorted(entries);
    name := Matches(env, loaded.value, d);
    address := MatchesIp(loaded.value, ip);
    ports := loaded.value.ports;
  }
}
