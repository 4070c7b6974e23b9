/**
  A ruleset file from rule entries to query answers: `EntryBuckets`, `write_v2`,
  `from_bytes`, `matches_normalized` and `matches_ip`
  (src/ruleset/builder.rs and src/ruleset/drs.rs).
*/
module DrsFiles {
  import opened Wrappers
  import opened Bytes
  import opened IpRanges
  import opened SuffixIndex
  import opened DrsFormat

  // ---------------------------------------------------------------- rule entries and buckets

  datatype EntryType =
    | EDomain | ESuffix | EKeyword | ERegex | EIpv4 | EIpv6 | EPort
    | EExcludeDomain | EExcludeSuffix | EExcludeRegex

  datatype IpAddr = V4(v4: nat) | V6(v6: nat)

  datatype RuleEntry = RuleEntry(
    ruleType: EntryType, domain: ByteString, cidr: Option<(IpAddr, byte)>, port: Option<PortRange>)

  /** The rule lists that `write_v2` takes. */
  datatype Rules = Rules(
    domains: seq<ByteString>, suffixes: seq<ByteString>, keywords: seq<ByteString>, regexes: seq<ByteString>,
    ipv4: seq<Cidr>, ipv6: seq<Cidr>, ports: seq<PortRange>,
    excludeDomains: seq<ByteString>, excludeSuffixes: seq<ByteString>, excludeRegexes: seq<ByteString>)

  const NO_RULES := Rules([], [], [], [], [], [], [], [], [], [])

  /** The entries that `push` takes: a regex compiles, an address has the family of its type. */
  ghost predicate Acceptable(env: Env, e: RuleEntry)
  {
    && (e.ruleType == ERegex || e.ruleType == EExcludeRegex ==> env.compiles(e.domain))
    && (e.ruleType == EIpv4 && e.cidr.Some? ==> e.cidr.value.0.V4?)
    && (e.ruleType == EIpv6 && e.cidr.Some? ==> e.cidr.value.0.V6?)
  }

  /** The strings of the entries of one type, in order. */
  function StringsOf(entries: seq<RuleEntry>, ty: EntryType): seq<ByteString>
  {
    if entries == [] then []
    else
      var n := |entries| - 1;
      StringsOf(entries[..n], ty) + if entries[n].ruleType == ty then [entries[n].domain] else []
  }

  function Ipv4Of(entries: seq<RuleEntry>): seq<Cidr>
  {
    if entries == [] then []
    else
      var e := entries[|entries| - 1];
      Ipv4Of(entries[..|entries| - 1])
      + if e.ruleType == EIpv4 && e.cidr.Some? && e.cidr.value.0.V4? then [(e.cidr.value.0.v4, e.cidr.value.1)] else []
  }

  function Ipv6Of(entries: seq<RuleEntry>): seq<Cidr>
  {
    if entries == [] then []
    else
      var e := entries[|entries| - 1];
      Ipv6Of(entries[..|entries| - 1])
      + if e.ruleType == EIpv6 && e.cidr.Some? && e.cidr.value.0.V6? then [(e.cidr.value.0.v6, e.cidr.value.1)] else []
  }

  function PortsOf(entries: seq<RuleEntry>): seq<PortRange>
  {
    if entries == [] then []
    else
      var e := entries[|entries| - 1];
      PortsOf(entries[..|entries| - 1]) + if e.ruleType == EPort && e.port.Some? then [e.port.value] else []
  }

  /** The entries of each kind, in the order they were pushed. */
  function RulesOf(entries: seq<RuleEntry>): Rules
  {
    Rules(
      StringsOf(entries, EDomain), StringsOf(entries, ESuffix),
      StringsOf(entries, EKeyword), StringsOf(entries, ERegex),
      Ipv4Of(entries), Ipv6Of(entries), PortsOf(entries),
      StringsOf(entries, EExcludeDomain), StringsOf(entries, EExcludeSuffix), StringsOf(entries, EExcludeRegex))
  }

  /** The buckets after one accepted entry. */
  function Pushed(r: Rules, e: RuleEntry): Rules
  {
    match e.ruleType
    case EDomain => r.(domains := r.domains + [e.domain])
    case ESuffix => r.(suffixes := r.suffixes + [e.domain])
    case EKeyword => r.(keywords := r.keywords + [e.domain])
    case ERegex => r.(regexes := r.regexes + [e.domain])
    case EIpv4 =>
      if e.cidr.Some? && e.cidr.value.0.V4? then r.(ipv4 := r.ipv4 + [(e.cidr.value.0.v4, e.cidr.value.1)]) else r
    case EIpv6 =>
      if e.cidr.Some? && e.cidr.value.0.V6? then r.(ipv6 := r.ipv6 + [(e.cidr.value.0.v6, e.cidr.value.1)]) else r
    case EPort => if e.port.Some? then r.(ports := r.ports + [e.port.value]) else r
    case EExcludeDomain => r.(excludeDomains := r.excludeDomains + [e.domain])
    case EExcludeSuffix => r.(excludeSuffixes := r.excludeSuffixes + [e.domain])
    case EExcludeRegex => r.(excludeRegexes := r.excludeRegexes + [e.domain])
  }

  lemma StringsOfSnoc(entries: seq<RuleEntry>, e: RuleEntry, ty: EntryType)
    ensures StringsOf(entries + [e], ty)
         == if e.ruleType == ty then StringsOf(entries, ty) + [e.domain] else StringsOf(entries, ty)
  {
    assert (entries + [e])[..|entries|] == entries;
  }

  lemma RulesOfSnoc(entries: seq<RuleEntry>, e: RuleEntry)
    ensures RulesOf(entries + [e]) == Pushed(RulesOf(entries), e)
  {
    assert (entries + [e])[..|entries|] == entries;
    StringsOfSnoc(entries, e, EDomain);
    StringsOfSnoc(entries, e, ESuffix);
    StringsOfSnoc(entries, e, EKeyword);
    StringsOfSnoc(entries, e, ERegex);
    StringsOfSnoc(entries, e, EExcludeDomain);
    StringsOfSnoc(entries, e, EExcludeSuffix);
    StringsOfSnoc(entries, e, EExcludeRegex);
    assert Ipv4Of(entries) + [] == Ipv4Of(entries);
    assert Ipv6Of(entries) + [] == Ipv6Of(entries);
    assert PortsOf(entries) + [] == PortsOf(entries);
  }

  lemma {:induction false} StringsOfMembers(entries: seq<RuleEntry>, ty: EntryType, s: ByteString)
    ensures s in StringsOf(entries, ty) <==> exists e | e in entries :: e.ruleType == ty && e.domain == s
  {
    if entries != [] {
      var n := |entries| - 1;
      assert entries == entries[..n] + [entries[n]];
      StringsOfMembers(entries[..n], ty, s);
    }
  }

  lemma {:induction false} Ipv4OfMembers(entries: seq<RuleEntry>, c: Cidr)
    ensures c in Ipv4Of(entries)
       <==> exists e | e in entries :: e.ruleType == EIpv4 && e.cidr == Some((V4(c.0), c.1))
  {
    if entries != [] {
      var n := |entries| - 1;
      assert entries == entries[..n] + [entries[n]];
      Ipv4OfMembers(entries[..n], c);
    }
  }

  lemma {:induction false} Ipv6OfMembers(entries: seq<RuleEntry>, c: Cidr)
    ensures c in Ipv6Of(entries)
       <==> exists e | e in entries :: e.ruleType == EIpv6 && e.cidr == Some((V6(c.0), c.1))
  {
    if entries != [] {
      var n := |entries| - 1;
      assert entries == entries[..n] + [entries[n]];
      Ipv6OfMembers(entries[..n], c);
    }
  }

  lemma {:induction false} PortsOfMembers(entries: seq<RuleEntry>, p: PortRange)
    ensures p in PortsOf(entries) <==> exists e | e in entries :: e.ruleType == EPort && e.port == Some(p)
  {
    if entries != [] {
      var n := |entries| - 1;
      assert entries == entries[..n] + [entries[n]];
      PortsOfMembers(entries[..n], p);
    }
  }

  class EntryBuckets {
    var domains: seq<ByteString>
    var suffixes: seq<ByteString>
    var keywords: seq<ByteString>
    var regexes: seq<ByteString>
    var ipv4Cidrs: seq<Cidr>
    var ipv6Cidrs: seq<Cidr>
    var ports: seq<PortRange>
    var excludeDomains: seq<ByteString>
    var excludeSuffixes: seq<ByteString>
    var excludeRegexes: seq<ByteString>
    ghost var pushed: seq<RuleEntry>

    function Contents(): Rules
      reads this
    {
      Rules(domains, suffixes, keywords, regexes, ipv4Cidrs, ipv6Cidrs, ports,
            excludeDomains, excludeSuffixes, excludeRegexes)
    }

    ghost predicate Valid()
      reads this
    {
      Contents() == RulesOf(pushed)
    }

    constructor ()
      ensures Valid() && pushed == []
    {
      domains, suffixes, keywords, regexes := [], [], [], [];
      ipv4Cidrs, ipv6Cidrs, ports := [], [], [];
      excludeDomains, excludeSuffixes, excludeRegexes := [], [], [];
      pushed := [];
    }

    /** `push`: one entry, after checking that a regex compiles. */
    method Push(env: Env, entry: RuleEntry) returns (error: Option<DrsError>)
      requires Valid()
      modifies this
      ensures Valid()
      ensures error.None? <==> Acceptable(env, entry)
      ensures error.Some? ==>
                error.value == if entry.ruleType == EIpv4 || entry.ruleType == EIpv6 then WrongFamily else InvalidRegex
      ensures pushed == if error.None? then old(pushed) + [entry] else old(pushed)
    {
      error := Sort(env, entry);
      if error.None? {
        RulesOfSnoc(pushed, entry);
        pushed := pushed + [entry];
      }
    }

    /** The match in `push` that appends to the bucket of the entry's type. */
    method Sort(env: Env, entry: RuleEntry) returns (error: Option<DrsError>)
      modifies this
      ensures error.None? <==> Acceptable(env, entry)
      ensures error.Some? ==>
                error.value == if entry.ruleType == EIpv4 || entry.ruleType == EIpv6 then WrongFamily else InvalidRegex
      ensures Contents() == if error.None? then Pushed(old(Contents()), entry) else old(Contents())
      ensures pushed == old(pushed)
    {
      match entry.ruleType {
        case EDomain => domains := domains + [entry.domain];
        case ESuffix => suffixes := suffixes + [entry.domain];
        case EKeyword => keywords := keywords + [entry.domain];
        case ERegex =>
          if !env.compiles(entry.domain) {
            return Some(InvalidRegex);
          }
          regexes := regexes + [entry.domain];
        case EIpv4 =>
          if entry.cidr.Some? {
            var (addr, prefix) := entry.cidr.value;
            if addr.V6? {
              return Some(WrongFamily);
            }
            ipv4Cidrs := ipv4Cidrs + [(addr.v4, prefix)];
          }
        case EIpv6 =>
          if entry.cidr.Some? {
            var (addr, prefix) := entry.cidr.value;
            if addr.V4? {
              return Some(WrongFamily);
            }
            ipv6Cidrs := ipv6Cidrs + [(addr.v6, prefix)];
          }
        case EPort =>
          if entry.port.Some? {
            ports := ports + [entry.port.value];
          }
        case EExcludeDomain => excludeDomains := excludeDomains + [entry.domain];
        case EExcludeSuffix => excludeSuffixes := excludeSuffixes + [entry.domain];
        case EExcludeRegex =>
          if !env.compiles(entry.domain) {
            return Some(InvalidRegex);
          }
          excludeRegexes := excludeRegexes + [entry.domain];
      }
      return None;
    }

    /** `write_to`: prints the buckets. */
    method WriteTo(env: Env, writer: Writer, buildTime: nat, sourceHash: ByteString)
      returns (r: Result<BuildStats, DrsError>)
      requires Valid() && |sourceHash| == 32
      modifies writer
      ensures var built := BuildSections(env, RulesOf(pushed));
              if built.Err? then r == Err(built.error) && writer.out == old(writer.out)
              else r == Ok(StatsOf(RulesOf(pushed)))
                   && writer.out == old(writer.out) + PrintFile(buildTime, sourceHash, built.value)
    {
      r := WriteV2(env, writer, Contents(), buildTime, sourceHash);
    }
  }

  // ---------------------------------------------------------------- writing

  /** The `std::io::Write` sink; it never fails here. */
  class Writer {
    var out: ByteString

    constructor ()
      ensures out == []
    {
      out := [];
    }

    method WriteAll(data: ByteString)
      modifies this
      ensures out == old(out) + data
    {
      out := out + data;
    }
  }

  datatype BuildStats = BuildStats(
    domainCount: nat, suffixCount: nat, keywordCount: nat, regexCount: nat,
    ipv4Count: nat, ipv6Count: nat, portCount: nat,
    excludeDomainCount: nat, excludeSuffixCount: nat, excludeRegexCount: nat)

  const NO_STATS := BuildStats(0, 0, 0, 0, 0, 0, 0, 0, 0, 0)

  function KeySet(keys: seq<ByteString>): Index
  {
    set k | k in keys
  }

  predicate KeysFit(keys: seq<ByteString>)
  {
    forall k | k in keys :: |k| <= MAX_DOMAIN
  }

  /** `build_set_fst`: sorted and deduplicated keys, none longer than 253 bytes. */
  function BuildSetFst(env: Env, keys: seq<ByteString>): Result<ByteString, DrsError>
  {
    if keys == [] then Ok([])
    else if !KeysFit(keys) then Err(DomainTooLong)
    else Ok(env.fstEncode(KeySet(keys)))
  }

  function SuffixKeys(suffixes: seq<ByteString>): (r: seq<ByteString>)
    ensures |r| == |suffixes|
  {
    if suffixes == [] then [] else [SuffixKey(suffixes[0])] + SuffixKeys(suffixes[1..])
  }

  lemma {:induction false} SuffixKeysAreKeys(suffixes: seq<ByteString>)
    ensures KeySet(SuffixKeys(suffixes)) == KeysOf(suffixes)
  {
    if suffixes != [] {
      var s, rest := suffixes[0], suffixes[1..];
      SuffixKeysAreKeys(rest);
      var keys, all := SuffixKeys(suffixes), KeysOf(suffixes);
      assert forall k :: k in keys <==> k == SuffixKey(s) || k in SuffixKeys(rest);
      assert forall x :: x in suffixes <==> x == s || x in rest;
      assert forall k :: k in SuffixKeys(rest) <==> k in KeySet(SuffixKeys(rest));
      assert forall k :: k in KeysOf(suffixes) <==> k == SuffixKey(s) || k in KeysOf(rest);
    }
  }

  function StatsOf(r: Rules): BuildStats
  {
    BuildStats(
      |KeySet(r.domains)| % U32_LIMIT, |KeySet(SuffixKeys(r.suffixes))| % U32_LIMIT,
      |Kept(r.keywords)|, |Kept(r.regexes)|,
      |r.ipv4| % U32_LIMIT, |r.ipv6| % U32_LIMIT, |r.ports| % U32_LIMIT,
      |KeySet(r.excludeDomains)| % U32_LIMIT, |KeySet(SuffixKeys(r.excludeSuffixes))| % U32_LIMIT,
      |Kept(r.excludeRegexes)|)
  }

  /** The bodies of the sections that hold an FST. */
  datatype Fsts = Fsts(domain: ByteString, suffix: ByteString, excludeDomain: ByteString, excludeSuffix: ByteString)

  function BuildFsts(env: Env, r: Rules): Result<Fsts, DrsError>
  {
    match BuildSetFst(env, r.domains)
    case Err(e) => Err(e)
    case Ok(domain) =>
      match BuildSetFst(env, SuffixKeys(r.suffixes))
      case Err(e) => Err(e)
      case Ok(suffix) =>
        match BuildSetFst(env, r.excludeDomains)
        case Err(e) => Err(e)
        case Ok(excludeDomain) =>
          match BuildSetFst(env, SuffixKeys(r.excludeSuffixes))
          case Err(e) => Err(e)
          case Ok(excludeSuffix) => Ok(Fsts(domain, suffix, excludeDomain, excludeSuffix))
  }

  /** The ten possible sections, in file order, with the empty ones. */
  function AllSections(f: Fsts, r: Rules): (ss: seq<Section>)
    ensures |ss| == 10
  {
    var stats := StatsOf(r);
    [ Section(DomainFst, stats.domainCount, f.domain),
      Section(DomainSuffixFst, stats.suffixCount, f.suffix),
      Section(DomainKeyword, stats.keywordCount, EncodeStrings(r.keywords)),
      Section(DomainRegex, stats.regexCount, EncodeStrings(r.regexes)),
      Section(IpCidrV4, stats.ipv4Count, EncodeCidrs(32, r.ipv4)),
      Section(IpCidrV6, stats.ipv6Count, EncodeCidrs(128, r.ipv6)),
      Section(Port, stats.portCount, EncodePorts(r.ports)),
      Section(ExcludeDomainFst, stats.excludeDomainCount, f.excludeDomain),
      Section(ExcludeSuffixFst, stats.excludeSuffixCount, f.excludeSuffix),
      Section(ExcludeDomainRegex, stats.excludeRegexCount, EncodeStrings(r.excludeRegexes)) ]
  }

  function DropEmpty(ss: seq<Section>): seq<Section>
  {
    if ss == [] then [] else (if ss[0].body == [] then [] else [ss[0]]) + DropEmpty(ss[1..])
  }

  function BuildSections(env: Env, r: Rules): Result<seq<Section>, DrsError>
  {
    match BuildFsts(env, r)
    case Err(e) => Err(e)
    case Ok(f) => Ok(DropEmpty(AllSections(f, r)))
  }

  /** A key has one byte more than its suffix. */
  lemma SuffixKeyLength(s: ByteString)
    ensures |SuffixKey(s)| == |s| + 1
  {
    SuffixKeyIsKey(s);
    KeyOfLength(s);
  }

  lemma {:induction false} KeyOfLength(d: ByteString)
    ensures |KeyOf(Split(d))| == |d| + 1
  {
    if d != [] {
      KeyOfLength(d[1..]);
      var rest := Split(d[1..]);
      var ls := Split(d);
      assert d[0] == DOT ==> ls[1..] == rest;
      assert d[0] != DOT ==> ls[1..] == rest[1..];
    }
  }

  /**
    The writer refuses exactly the lists with an exact name over 253 bytes or a suffix over 252:
    a suffix of 253 bytes, which is a legal name, has a key of 254.
    */
  lemma WritableIff(env: Env, r: Rules)
    ensures BuildSections(env, r).Ok? <==>
              && (forall d | d in r.domains || d in r.excludeDomains :: |d| <= 253)
              && (forall s | s in r.suffixes || s in r.excludeSuffixes :: |s| <= 252)
    ensures BuildSections(env, r).Err? ==> BuildSections(env, r).error == DomainTooLong
  {
    SuffixKeysFit(r.suffixes);
    SuffixKeysFit(r.excludeSuffixes);
    hide KeySet, SuffixKeys, AllSections, DropEmpty;
  }

  lemma {:induction false} SuffixKeysFit(suffixes: seq<ByteString>)
    ensures KeysFit(SuffixKeys(suffixes)) <==> forall s | s in suffixes :: |s| <= 252
  {
    if suffixes != [] {
      var s, rest := suffixes[0], suffixes[1..];
      SuffixKeyLength(s);
      SuffixKeysFit(rest);
      assert SuffixKeys(suffixes) == [SuffixKey(s)] + SuffixKeys(rest);
      assert forall k :: k in SuffixKeys(suffixes) <==> k == SuffixKey(s) || k in SuffixKeys(rest);
      assert forall x :: x in suffixes <==> x == s || x in rest;
    }
  }

  function PrintFile(buildTime: nat, sourceHash: ByteString, sections: seq<Section>): ByteString
    requires |sourceHash| == 32
  {
    FileHeader(buildTime, sourceHash, |sections|) + PrintSections(sections)
  }

  /** `write_section_header`. */
  method WriteSectionHeader(writer: Writer, ty: SectionType, count: nat, byteLen: nat)
    modifies writer
    ensures writer.out == old(writer.out) + SectionHeader(ty, count, byteLen)
  {
    writer.WriteAll([ty.Code()]);
    writer.WriteAll(LE(count, 4));
    writer.WriteAll(LE(byteLen, 4));
  }

  /** `write_v2`: builds all section bodies, counts the non-empty ones, prints header and sections. */
  method WriteV2(env: Env, writer: Writer, r: Rules, buildTime: nat, sourceHash: ByteString)
    returns (result: Result<BuildStats, DrsError>)
    requires |sourceHash| == 32
    modifies writer
    ensures var built := BuildSections(env, r);
            if built.Err? then result == Err(built.error) && writer.out == old(writer.out)
            else result == Ok(StatsOf(r))
                 && writer.out == old(writer.out) + PrintFile(buildTime, sourceHash, built.value)
  {
    var fsts := BuildFsts(env, r);
    if fsts.Err? {
      return Err(fsts.error);
    }
    var stats := StatsOf(r);
    var keywordBytes, keywordCount := BuildStringSection(r.keywords);
    var regexBytes, regexCount := BuildStringSection(r.regexes);
    var excludeRegexBytes, excludeRegexCount := BuildStringSection(r.excludeRegexes);
    var ipv4Bytes := BuildCidrSection(32, r.ipv4);
    var ipv6Bytes := BuildCidrSection(128, r.ipv6);
    var portBytes := BuildPortSection(r.ports);
    var sections :=
      [ Section(DomainFst, stats.domainCount, fsts.value.domain),
        Section(DomainSuffixFst, stats.suffixCount, fsts.value.suffix),
        Section(DomainKeyword, keywordCount, keywordBytes),
        Section(DomainRegex, regexCount, regexBytes),
        Section(IpCidrV4, stats.ipv4Count, ipv4Bytes),
        Section(IpCidrV6, stats.ipv6Count, ipv6Bytes),
        Section(Port, stats.portCount, portBytes),
        Section(ExcludeDomainFst, stats.excludeDomainCount, fsts.value.excludeDomain),
        Section(ExcludeSuffixFst, stats.excludeSuffixCount, fsts.value.excludeSuffix),
        Section(ExcludeDomainRegex, excludeRegexCount, excludeRegexBytes) ];
    WriteSections(writer, sections, buildTime, sourceHash);
    result := Ok(stats);
  }

  method WriteSections(writer: Writer, sections: seq<Section>, buildTime: nat, sourceHash: ByteString)
    requires |sourceHash| == 32
    modifies writer
    ensures writer.out == old(writer.out) + PrintFile(buildTime, sourceHash, DropEmpty(sections))
  {
    var sectionCount := CountSections(sections);
    WriteFileHeader(writer, buildTime, sourceHash, sectionCount);
    WriteBodies(writer, sections);
    Associative(old(writer.out), FileHeader(buildTime, sourceHash, sectionCount), PrintSections(DropEmpty(sections)));
  }

  /** The ten conditional increments of `section_count`. */
  method CountSections(sections: seq<Section>) returns (sectionCount: nat)
    ensures sectionCount == |DropEmpty(sections)|
  {
    sectionCount := 0;
    assert sections[0..] == sections;
    for i := 0 to |sections|
      invariant |DropEmpty(sections)| == sectionCount + |DropEmpty(sections[i..])|
    {
      DropEmptyStep(sections, i);
      if sections[i].body != [] {
        sectionCount := sectionCount + 1;
      }
    }
  }

  /** The ten conditional writes. */
  method WriteBodies(writer: Writer, sections: seq<Section>)
    modifies writer
    ensures writer.out == old(writer.out) + PrintSections(DropEmpty(sections))
  {
    ghost var target := writer.out + PrintSections(DropEmpty(sections));
    assert sections[0..] == sections;
    for i := 0 to |sections|
      invariant target == writer.out + PrintSections(DropEmpty(sections[i..]))
    {
      DropEmptyStep(sections, i);
      var s := sections[i];
      ghost var before := writer.out;
      if s.body != [] {
        WriteSectionHeader(writer, s.ty, s.count, |s.body|);
        writer.WriteAll(s.body);
        Associative(before, SectionHeader(s.ty, s.count, |s.body|), s.body);
        Associative(before, PrintSection(s), PrintSections(DropEmpty(sections[i + 1..])));
      }
    }
  }

  lemma DropEmptyStep(sections: seq<Section>, i: nat)
    requires i < |sections|
    ensures var rest := DropEmpty(sections[i + 1..]);
            if sections[i].body == [] then DropEmpty(sections[i..]) == rest
            else DropEmpty(sections[i..]) == [sections[i]] + rest
                 && PrintSections(DropEmpty(sections[i..])) == PrintSection(sections[i]) + PrintSections(rest)
  {
    assert sections[i..][1..] == sections[i + 1..];
    assert ([sections[i]] + DropEmpty(sections[i + 1..]))[1..] == DropEmpty(sections[i + 1..]);
  }

  method WriteFileHeader(writer: Writer, buildTime: nat, sourceHash: ByteString, sectionCount: nat)
    requires |sourceHash| == 32
    modifies writer
    ensures writer.out == old(writer.out) + FileHeader(buildTime, sourceHash, sectionCount)
  {
    writer.WriteAll(MAGIC);
    writer.WriteAll([VERSION_V2, 0]);
    writer.WriteAll(LE(buildTime, 8));
    writer.WriteAll(sourceHash);
    writer.WriteAll(LE(sectionCount, 4));
    writer.WriteAll([0, 0, 0, 0]);
  }
}
