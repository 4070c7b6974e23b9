/**
  Loading a ruleset file and answering queries from it: `from_bytes`, `from_bytes_v2`,
  `matches`, `matches_normalized` and `matches_ip` (src/ruleset/drs.rs).
*/
module DrsLoader {
  import opened Wrappers
  import opened Text
  import opened Bytes
  import opened IpRanges
  import opened SuffixIndex
  import opened DrsFormat
  import opened DrsFiles

  // ---------------------------------------------------------------- loading

  /** What the section loop has collected so far. */
  datatype Parsed = Parsed(
    domainFst: Option<Index>, suffixFst: Option<Index>,
    excludeDomainFst: Option<Index>, excludeSuffixFst: Option<Index>,
    keywords: seq<ByteString>, regexes: seq<ByteString>, excludeRegexes: seq<ByteString>,
    ipv4: seq<Range>, ipv6: seq<Range>, ports: seq<PortRange>,
    stats: BuildStats)

  const NOTHING := Parsed(None, None, None, None, [], [], [], [], [], [], NO_STATS)

  /** A loaded ruleset. A compiled regex set is the list of its patterns. */
  datatype DrsFile = DrsFile(
    domainFst: Option<Index>, suffixFst: Option<Index>,
    keywords: seq<ByteString>, regexes: Option<seq<ByteString>>,
    ipv4Ranges: seq<Range>, ipv6Ranges: seq<Range>, ports: seq<PortRange>,
    excludeDomainFst: Option<Index>, excludeSuffixFst: Option<Index>, excludeRegexes: Option<seq<ByteString>>,
    hasDomain: bool, hasSuffix: bool, hasKeyword: bool, hasRegex: bool, hasIp: bool, hasPort: bool,
    buildTime: nat, sourceHash: ByteString, stats: BuildStats)

  /** One turn of the section loop. */
  function LoadSection(env: Env, p: Parsed, ty: SectionType, count: nat, body: ByteString): Result<Parsed, DrsError>
  {
    match ty
    case DomainFst =>
      (match env.fstDecode(body)
       case None => Err(InvalidFst)
       case Some(keys) => Ok(p.(domainFst := Some(keys), stats := p.stats.(domainCount := count))))
    case DomainSuffixFst =>
      (match env.fstDecode(body)
       case None => Err(InvalidFst)
       case Some(keys) => Ok(p.(suffixFst := Some(keys), stats := p.stats.(suffixCount := count))))
    case ExcludeDomainFst =>
      (match env.fstDecode(body)
       case None => Err(InvalidFst)
       case Some(keys) => Ok(p.(excludeDomainFst := Some(keys), stats := p.stats.(excludeDomainCount := count))))
    case ExcludeSuffixFst =>
      (match env.fstDecode(body)
       case None => Err(InvalidFst)
       case Some(keys) => Ok(p.(excludeSuffixFst := Some(keys), stats := p.stats.(excludeSuffixCount := count))))
    case DomainKeyword =>
      (match DecodeStrings(env, body, 0, [])
       case Err(e) => Err(e)
       case Ok(items) => Ok(p.(keywords := p.keywords + items, stats := p.stats.(keywordCount := count))))
    case DomainRegex =>
      (match DecodeStrings(env, body, 0, [])
       case Err(e) => Err(e)
       case Ok(items) => Ok(p.(regexes := p.regexes + items, stats := p.stats.(regexCount := count))))
    case ExcludeDomainRegex =>
      (match DecodeStrings(env, body, 0, [])
       case Err(e) => Err(e)
       case Ok(items) =>
         Ok(p.(excludeRegexes := p.excludeRegexes + items, stats := p.stats.(excludeRegexCount := count))))
    case IpCidrV4 =>
      (match DecodeCidrSection(32, body)
       case Err(e) => Err(e)
       case Ok(ranges) => Ok(p.(ipv4 := p.ipv4 + ranges, stats := p.stats.(ipv4Count := count))))
    case IpCidrV6 =>
      (match DecodeCidrSection(128, body)
       case Err(e) => Err(e)
       case Ok(ranges) => Ok(p.(ipv6 := p.ipv6 + ranges, stats := p.stats.(ipv6Count := count))))
    case Port =>
      (match DecodePortSection(body)
       case Err(e) => Err(e)
       case Ok(ports) => Ok(p.(ports := p.ports + ports, stats := p.stats.(portCount := count))))
    case Domain => Ok(p)
    case DomainSuffix => Ok(p)
  }

  /** `n` more sections from `offset` on. */
  function LoadSections(env: Env, data: ByteString, offset: nat, n: nat, p: Parsed): Result<Parsed, DrsError>
    requires offset <= |data|
    decreases n
  {
    if n == 0 then Ok(p)
    else
      match ReadSectionHeader(data, offset)
      case Err(e) => Err(e)
      case Ok(h) =>
        var start := offset + SECTION_HEADER_LEN;
        if |data| < start + h.byteLen then Err(Truncated(start + h.byteLen, |data|))
        else
          match LoadSection(env, p, h.ty, h.count, data[start..start + h.byteLen])
          case Err(e) => Err(e)
          case Ok(next) => LoadSections(env, data, start + h.byteLen, n - 1, next)
  }

  /** What follows the section loop: merge ranges, compile regexes, precompute the flags. */
  function Finish(env: Env, p: Parsed, buildTime: nat, sourceHash: ByteString): Result<DrsFile, DrsError>
  {
    if p.regexes != [] && !env.setCompiles(p.regexes) then Err(LoadedInvalidRegex)
    else if p.excludeRegexes != [] && !env.setCompiles(p.excludeRegexes) then Err(LoadedInvalidRegex)
    else Ok(FileOf(p, MergeRanges(p.ipv4), MergeRanges(p.ipv6), buildTime, sourceHash))
  }

  function FileOf(p: Parsed, ipv4: seq<Range>, ipv6: seq<Range>, buildTime: nat, sourceHash: ByteString): DrsFile
  {
    DrsFile(
      p.domainFst, p.suffixFst, p.keywords, if p.regexes == [] then None else Some(p.regexes),
      ipv4, ipv6, p.ports,
      p.excludeDomainFst, p.excludeSuffixFst, if p.excludeRegexes == [] then None else Some(p.excludeRegexes),
      p.stats.domainCount > 0, p.stats.suffixCount > 0, p.keywords != [], p.regexes != [],
      ipv4 != [] || ipv6 != [], p.ports != [],
      buildTime, sourceHash, p.stats)
  }

  function LoadV2(env: Env, data: ByteString): Result<DrsFile, DrsError>
    requires |data| >= V2_HEADER_LEN
  {
    match LoadSections(env, data, V2_HEADER_LEN, FromLE(data[46..50]), NOTHING)
    case Err(e) => Err(e)
    case Ok(p) => Finish(env, p, FromLE(data[6..14]), data[14..46])
  }

  /** `from_bytes`; the v1 reader is a parameter. */
  function Load(env: Env, v1: ByteString -> Result<DrsFile, DrsError>, data: ByteString): Result<DrsFile, DrsError>
  {
    if |data| < V2_HEADER_LEN then Err(Truncated(V2_HEADER_LEN, |data|))
    else if data[..4] != MAGIC then Err(BadMagic)
    else if data[4] == VERSION_V1 then v1(data)
    else if data[4] == VERSION_V2 then LoadV2(env, data)
    else Err(UnsupportedVersion(data[4]))
  }

  /** One turn of the section loop, with the inner reading loops. */
  method ReadSection(env: Env, p: Parsed, ty: SectionType, count: nat, body: ByteString)
    returns (r: Result<Parsed, DrsError>)
    ensures r == LoadSection(env, p, ty, count, body)
  {
    match ty {
      case DomainKeyword =>
        var items := ReadStrings(env, body);
        r := if items.Err? then Err(items.error)
             else Ok(p.(keywords := p.keywords + items.value, stats := p.stats.(keywordCount := count)));
      case DomainRegex =>
        var items := ReadStrings(env, body);
        r := if items.Err? then Err(items.error)
             else Ok(p.(regexes := p.regexes + items.value, stats := p.stats.(regexCount := count)));
      case ExcludeDomainRegex =>
        var items := ReadStrings(env, body);
        r := if items.Err? then Err(items.error)
             else
               Ok(p.(excludeRegexes := p.excludeRegexes + items.value,
                     stats := p.stats.(excludeRegexCount := count)));
      case IpCidrV4 =>
        var ranges := ReadCidrs(32, body);
        r := if ranges.Err? then Err(ranges.error)
             else Ok(p.(ipv4 := p.ipv4 + ranges.value, stats := p.stats.(ipv4Count := count)));
      case IpCidrV6 =>
        var ranges := ReadCidrs(128, body);
        r := if ranges.Err? then Err(ranges.error)
             else Ok(p.(ipv6 := p.ipv6 + ranges.value, stats := p.stats.(ipv6Count := count)));
      case Port =>
        var ports := ReadPorts(body);
        r := if ports.Err? then Err(ports.error)
             else Ok(p.(ports := p.ports + ports.value, stats := p.stats.(portCount := count)));
      case DomainFst =>
        var keys := env.fstDecode(body);
        r := if keys.None? then Err(InvalidFst) else Ok(p.(domainFst := keys, stats := p.stats.(domainCount := count)));
      case DomainSuffixFst =>
        var keys := env.fstDecode(body);
        r := if keys.None? then Err(InvalidFst) else Ok(p.(suffixFst := keys, stats := p.stats.(suffixCount := count)));
      case ExcludeDomainFst =>
        var keys := env.fstDecode(body);
        r := if keys.None? then Err(InvalidFst)
             else Ok(p.(excludeDomainFst := keys, stats := p.stats.(excludeDomainCount := count)));
      case ExcludeSuffixFst =>
        var keys := env.fstDecode(body);
        r := if keys.None? then Err(InvalidFst)
             else Ok(p.(excludeSuffixFst := keys, stats := p.stats.(excludeSuffixCount := count)));
      case Domain => r := Ok(p);
      case DomainSuffix => r := Ok(p);
    }
  }

  /** `from_bytes_v2`. */
  method FromBytesV2(env: Env, data: ByteString) returns (r: Result<DrsFile, DrsError>)
    requires |data| >= V2_HEADER_LEN
    ensures r == LoadV2(env, data)
    ensures r.Ok? && r.value.regexes.Some? ==> env.setCompiles(r.value.regexes.value)
    ensures r.Ok? && r.value.excludeRegexes.Some? ==> env.setCompiles(r.value.excludeRegexes.value)
  {
    hide LoadSection, Finish, ReadSectionHeader, FromLE, MergeRanges;
    var sectionCount := FromLE(data[46..50]);
    var offset: nat := V2_HEADER_LEN;
    var p := NOTHING;
    for i := 0 to sectionCount
      invariant offset <= |data|
      invariant LoadSections(env, data, V2_HEADER_LEN, sectionCount, NOTHING)
             == LoadSections(env, data, offset, sectionCount - i, p)
    {
      var header := ReadSectionHeader(data, offset);
      if header.Err? {
        return Err(header.error);
      }
      var byteLen := header.value.byteLen;
      offset := offset + SECTION_HEADER_LEN;
      if |data| < offset + byteLen {
        return Err(Truncated(offset + byteLen, |data|));
      }
      var next := ReadSection(env, p, header.value.ty, header.value.count, data[offset..offset + byteLen]);
      if next.Err? {
        return Err(next.error);
      }
      offset := offset + byteLen;
      p := next.value;
    }
    var ipv4 := Merge(p.ipv4);
    var ipv6 := Merge(p.ipv6);
    r := FinishLoad(env, p, ipv4, ipv6, FromLE(data[6..14]), data[14..46]);
  }

  /** The end of `from_bytes_v2`. */
  method FinishLoad(env: Env, p: Parsed, ipv4: seq<Range>, ipv6: seq<Range>, buildTime: nat, sourceHash: ByteString)
    returns (r: Result<DrsFile, DrsError>)
    requires ipv4 == MergeRanges(p.ipv4) && ipv6 == MergeRanges(p.ipv6)
    ensures r == Finish(env, p, buildTime, sourceHash)
    ensures r.Ok? && r.value.regexes.Some? ==> env.setCompiles(r.value.regexes.value)
    ensures r.Ok? && r.value.excludeRegexes.Some? ==> env.setCompiles(r.value.excludeRegexes.value)
  {
    if p.regexes != [] && !env.setCompiles(p.regexes) {
      return Err(LoadedInvalidRegex);
    }
    if p.excludeRegexes != [] && !env.setCompiles(p.excludeRegexes) {
      return Err(LoadedInvalidRegex);
    }
    r := Ok(FileOf(p, ipv4, ipv6, buildTime, sourceHash));
  }

  /** `from_bytes`. */
  method FromBytes(env: Env, v1: ByteString -> Result<DrsFile, DrsError>, data: ByteString)
    returns (r: Result<DrsFile, DrsError>)
    ensures r == Load(env, v1, data)
    ensures |data| < 54 ==> r == Err(Truncated(54, |data|))
    ensures |data| >= 54 && data[..4] != [68, 82, 83, 0] ==> r == Err(BadMagic)
    ensures |data| >= 54 && data[..4] == [68, 82, 83, 0] && data[4] == 1 ==> r == v1(data)
    ensures |data| >= 54 && data[..4] == [68, 82, 83, 0] && data[4] !in {1, 2} ==> r == Err(UnsupportedVersion(data[4]))
  {
    if |data| < V2_HEADER_LEN {
      return Err(Truncated(V2_HEADER_LEN, |data|));
    }
    if data[..4] != MAGIC {
      return Err(BadMagic);
    }
    if data[4] == VERSION_V1 {
      return v1(data);
    } else if data[4] == VERSION_V2 {
      r := FromBytesV2(env, data);
    } else {
      return Err(UnsupportedVersion(data[4]));
    }
  }

  // ---------------------------------------------------------------- queries

  datatype MatchResult = MDomain | MSuffix | MKeyword | MRegex | MIpv4Cidr | MIpv6Cidr

  ghost predicate AnyRegexHits(env: Env, patterns: seq<ByteString>, d: ByteString)
  {
    exists p | p in patterns :: env.regexHit(p, d)
  }

  ghost predicate AnyKeywordIn(keywords: seq<ByteString>, d: ByteString)
  {
    exists k | k in keywords :: Contains(d, k)
  }

  /** The answer of a loaded file, in terms of its index sets. */
  ghost function FileAnswer(env: Env, f: DrsFile, d: ByteString): Option<MatchResult>
  {
    if FileExcludes(env, f, d) then None
    else if f.hasDomain && f.domainFst.Some? && d in f.domainFst.value then Some(MDomain)
    else if f.hasSuffix && f.suffixFst.Some? && d != [] && KeyHit(f.suffixFst.value, d) then Some(MSuffix)
    else if f.hasKeyword && AnyKeywordIn(f.keywords, d) then Some(MKeyword)
    else if f.hasRegex && f.regexes.Some? && AnyRegexHits(env, f.regexes.value, d) then Some(MRegex)
    else None
  }

  ghost predicate FileExcludes(env: Env, f: DrsFile, d: ByteString)
  {
    || (f.excludeDomainFst.Some? && d in f.excludeDomainFst.value)
    || (f.excludeSuffixFst.Some? && d != [] && KeyHit(f.excludeSuffixFst.value, d))
    || (f.excludeRegexes.Some? && AnyRegexHits(env, f.excludeRegexes.value, d))
  }

  /** `RegexSet::is_match`. */
  method IsMatch(env: Env, patterns: seq<ByteString>, d: ByteString) returns (hit: bool)
    ensures hit <==> AnyRegexHits(env, patterns, d)
  {
    hit := exists p | p in patterns :: env.regexHit(p, d);
  }

  /** `domain_is_excluded`. */
  method DomainIsExcluded(env: Env, f: DrsFile, d: ByteString) returns (excluded: bool)
    ensures excluded <==> FileExcludes(env, f, d)
  {
    if f.excludeDomainFst.Some? && d in f.excludeDomainFst.value {
      return true;
    }
    if f.excludeSuffixFst.Some? {
      var hit := SuffixMatchZeroAlloc(f.excludeSuffixFst.value, d);
      if hit {
        return true;
      }
    }
    if f.excludeRegexes.Some? {
      var hit := IsMatch(env, f.excludeRegexes.value, d);
      if hit {
        return true;
      }
    }
    return false;
  }

  /** `matches_normalized`. */
  method MatchesNormalized(env: Env, f: DrsFile, d: ByteString) returns (r: Option<MatchResult>)
    ensures r == FileAnswer(env, f, d)
  {
    var excluded := DomainIsExcluded(env, f, d);
    if excluded {
      return None;
    }
    if f.hasDomain && f.domainFst.Some? && d in f.domainFst.value {
      return Some(MDomain);
    }
    if f.hasSuffix && f.suffixFst.Some? {
      var hit := SuffixMatchZeroAlloc(f.suffixFst.value, d);
      if hit {
        return Some(MSuffix);
      }
    }
    if f.hasKeyword {
      for i := 0 to |f.keywords|
        invariant forall j | 0 <= j < i :: !Contains(d, f.keywords[j])
      {
        if Contains(d, f.keywords[i]) {
          return Some(MKeyword);
        }
      }
    }
    if f.hasRegex && f.regexes.Some? {
      var hit := IsMatch(env, f.regexes.value, d);
      if hit {
        return Some(MRegex);
      }
    }
    return None;
  }

  /** The IPv4 address inside `::ffff:a.b.c.d`. */
  function MappedV4(v6: nat): Option<nat>
  {
    if v6 / U32_LIMIT == 0xffff then Some(v6 % U32_LIMIT) else None
  }

  ghost function FileIpAnswer(f: DrsFile, ip: IpAddr): Option<MatchResult>
  {
    if !f.hasIp then None
    else
      match ip
      case V4(v) => if Covered(f.ipv4Ranges, v) then Some(MIpv4Cidr) else None
      case V6(v) =>
        match MappedV4(v)
        case Some(v4) => if Covered(f.ipv4Ranges, v4) then Some(MIpv4Cidr) else None
        case None => if Covered(f.ipv6Ranges, v) then Some(MIpv6Cidr) else None
  }

  /** `matches_ip`. The ranges of a loaded file are merged, so binary search applies. */
  method MatchesIp(f: DrsFile, ip: IpAddr) returns (r: Option<MatchResult>)
    requires Disjoint(f.ipv4Ranges) && Disjoint(f.ipv6Ranges)
    ensures r == FileIpAnswer(f, ip)
  {
    if !f.hasIp {
      return None;
    }
    match ip {
      case V4(v) =>
        var found := BinarySearch(f.ipv4Ranges, v);
        return if found then Some(MIpv4Cidr) else None;
      case V6(v) =>
        var mapped := MappedV4(v);
        if mapped.Some? {
          var found := BinarySearch(f.ipv4Ranges, mapped.value);
          return if found then Some(MIpv4Cidr) else None;
        }
        var found := BinarySearch(f.ipv6Ranges, v);
        return if found then Some(MIpv6Cidr) else None;
    }
  }

  // ---------------------------------------------------------------- normalisation

  predicate IsUpper(b: byte)
  {
    65 <= b <= 90
  }

  function ToAsciiLower(d: ByteString): (r: ByteString)
    ensures |r| == |d|
    ensures forall i | 0 <= i < |d| :: r[i] == if 65 <= d[i] <= 90 then d[i] + 32 else d[i]
  {
    if d == [] then []
    else
      var last := d[|d| - 1];
      ToAsciiLower(d[..|d| - 1]) + [if IsUpper(last) then last + 32 else last]
  }

  function Normalize(d: ByteString): ByteString
  {
    ToAsciiLower(TrimEnd(d, DOT))
  }

  /** `name` is `d` without its closing dots (byte 46) and with the letters A to Z (65 to 90) in lower case. */
  ghost predicate IsNormalForm(d: ByteString, name: ByteString)
  {
    && |name| <= |d| && (forall i | |name| <= i < |d| :: d[i] == 46)
    && (name != [] ==> d[|name| - 1] != 46)
    && forall i | 0 <= i < |name| :: name[i] == if 65 <= d[i] <= 90 then d[i] + 32 else d[i]
  }

  lemma NormalFormIff(d: ByteString, name: ByteString)
    ensures IsNormalForm(d, name) <==> name == Normalize(d)
  {
    TrimEndCuts(d, DOT);
    if IsNormalForm(d, name) {
      TrimEndIs(d, DOT, d[..|name|]);
    }
  }

  /** `matches`: skips the work for files without domain rules, and the copy for lower-case names. */
  method Matches(env: Env, f: DrsFile, d: ByteString) returns (r: Option<MatchResult>)
    ensures r == FileAnswer(env, f, Normalize(d))
    ensures forall name :: IsNormalForm(d, name) <==> name == Normalize(d)
  {
    forall name
      ensures IsNormalForm(d, name) <==> name == Normalize(d)
    {
      NormalFormIff(d, name);
    }
    if !f.hasDomain && !f.hasSuffix && !f.hasKeyword && !f.hasRegex {
      return None;
    }
    var trimmed := TrimEnd(d, DOT);
    if !exists b | b in trimmed :: IsUpper(b) {
      assert forall i | 0 <= i < |trimmed| :: trimmed[i] in trimmed;
      assert ToAsciiLower(trimmed) == trimmed;
      r := MatchesNormalized(env, f, trimmed);
      return;
    }
    r := MatchesNormalized(env, f, ToAsciiLower(trimmed));
  }
}
