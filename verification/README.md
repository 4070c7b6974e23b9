# Verified model of the DNS proxy

This project models the parts of the proxy whose behaviour is easiest to get subtly wrong, and
proves what they are for:

- **Ruleset files** (`SuffixIndex`, `IpRanges`, `DrsFormat`, `DrsFiles`, `DrsLoader`, `DrsTheorems`,
  `DrsAssumptions`).
  Rule entries are sorted into buckets, printed to a section-based `.drs` file, read back and asked.
  The end-to-end theorem says that every file that can be written loads and answers every name and
  every address as the list of rules does, with suffix rules meaning plain label suffixes and CIDR
  rules meaning shared leading bits. The FST library is assumed to read back the sets it writes;
  `DrsAssumptions` shows that this and the other hypotheses can be met.
- **AdGuard wildcards** (`AdGuardGlob`, `AdGuardRules`). Globs are compiled to the text of a small regex. A reader
  gives that text its meaning, and the meaning is compared with the glob. A rule becomes an entry
  that hits exactly what its pattern stands for.
- **DNS wire surgery** (`DnsWire`, `DnsWireTheorems`). Client-subnet injection works on bytes; its
  result is compared with the encoding of the message that it should have produced, and a second,
  separately written walker reads it.
- **Connection pools** (`UdpPool`, `DotPool`), as step machines over every interleaving.
- **Cache and router** (`DnsCache`, `Router`), over every run of operations.
- **Router advertisements** (`RaFrame`, `RaChecksum`): option builder, option parser, ICMPv6 checksum.
- **The rule page of the web UI** (`UiRules`, `UiRulesTheorems`, `UiSaving`): opening and saving keeps routing.
- **Statistics and round robin** (`LatencyEma`, `QueryStats`, `RoundRobin`).

Loops of the source are methods with loops, each proved equal to a specification function; the
lemmas are about those functions. Where tasks interleave, each atomic action is a step of a state
machine and the results are about every run. What a client sees is stated in terms of characters, bytes
and numbers, apart from the functions that the loops compute, with example bytes where a format is fixed.
`Common.dfy` holds the shared byte, text and set helpers. `dafny verify dfyconfig.toml` checks everything.

## Where code and documentation disagree

The model follows the code.

- `src/dns/upstream/util.rs:215` cuts the message at the last OPT record and never copies the
  additional records behind it, so they are lost (`ExtensionKeepsMessageIff`, `RecordLost`). The
  comment at line 136 says that OPT is the first additional record.
- `src/dns/upstream/util.rs:125` sends at least one address byte and does not clear the bits behind
  the prefix; section 6 of RFC 7871 asks for just enough bytes with those bits zero
  (`EcsAddressConformsIff`, `EcsAddressExamples`).
- `src/dhcp/ra/builder.rs:108` writes 1+n as the length of an RDNSS option with n addresses; section
  5.1 of RFC 8106 has 1+2n. With four or more addresses a listener can learn a prefix that nobody
  announced (`RoundTripIff`).
- `src/dns/upstream/dot.rs:95` keeps the lock of the idle queue through the reuse branch, so a query
  that was answered on a reused connection waits in `put_back` for its own lock
  (`ReusedConnectionNeverReturns`).
- `src/ruleset/parser/adguard.rs:410` gives every rule with a compiled wildcard the blocking type, so
  an exception such as `@@||**.org^` blocks (`ExceptionKeepsKindIff`, `ExceptionThatBlocks`). Line 408
  does not lower-case the pattern as lines 391 and 401 do, so `||**.ORG^` hits no normalised name
  (`WildcardKeepsCaseIff`, `UpperCaseHitsNothing`).
- `src/ruleset/parser/adguard.rs:419-444` compiles a `*.` at the start or behind another `*` to whole
  labels, which accepts more than the glob (`WildcardIsGlobIffQuiet`).
- `src/ruleset/drs.rs:1092` checks the 253 bytes that `src/ruleset/format.rs:141` allows a name on the key of a
  suffix, which has one byte more: one suffix rule of 253 bytes makes the whole write fail (`WritableIff`).
- `src/dns/router.rs:189` takes the blocked flag of a cache hit from the prefix of a group name, which
  a group named `rcode:...` imitates (`BlockedFromPrefixIff`, `MisleadingGroup`).
- `src/dns/router.rs:369` says that the secondary answers are dropped in one case; the code prepends
  them (`MergeResponses`).
- `src/stats/mod.rs:231` keeps one entry even with a log capacity of 0 (`LogIsLastPushes`).
- `web/ui/src/pages/config/UpstreamsTab.jsx:24` gives an empty name to a path that ends in a slash;
  such rulesets are lost on saving. Line 115 makes no group for the first rule named `__proto__`
  (`RoutingKeptIff`, `DefaultUntouched`, `ProtoLosesGroup`). An empty `client-subnet` is read as absent on saving.

## Model

| member | source | states |
|---|---|---|
| SuffixIndex.LookupIsSuffixMatch | src/ruleset/drs.rs:801-815 | for every name and every suffix list, some key grown label by label from the right is in the index exactly when the name is one of the suffixes or ends with a dot and one of them |
| SuffixIndex.SuffixKeyInjective | src/ruleset/drs.rs:811-815 | two different suffix rules never share an index key |
| SuffixIndex.KeyOfInjective | src/ruleset/drs.rs:891-908 | keys grown from different lists of labels differ, so a hit falls on a label boundary |
| SuffixIndex.JoinSplit | src/ruleset/drs.rs:801-807 | joining the labels of a name with dots gives the name back |
| SuffixIndex.LabelAt | src/ruleset/drs.rs:858-900 | the offsets recorded while scanning for dots cut the name into exactly its labels |
| SuffixIndex.SuffixMatchHeap | src/ruleset/drs.rs:913-928 | the heap matcher hits exactly when some closing run of labels is in the index |
| SuffixIndex.SuffixMatchZeroAlloc | src/ruleset/drs.rs:853-910 | the matcher with 128 label slots and 256 key bytes gives the heap matcher's answer for every non-empty name and key set, through both fallbacks; every array write is in bounds |
| SuffixIndex.MatchInBuffer | src/ruleset/drs.rs:881-910 | the half of that matcher that fills the key buffer, including the fallback taken midway |
| IpRanges.CidrRangeIsPrefixClass | src/ruleset/drs.rs:930-948 | an address lies in the range of a CIDR exactly when it shares the CIDR's leading prefix bits, for widths 32 and 128 and every prefix |
| IpRanges.AndWithHighMask | src/ruleset/drs.rs:930-948 | bitwise and with a prefix mask clears exactly the host bits |
| IpRanges.OrWithLowMask | src/ruleset/drs.rs:930-948 | bitwise or with the inverted mask adds the whole host part, so the range ends at the last address |
| IpRanges.Merge | src/ruleset/drs.rs:1034-1058 | the in-place merging loop over sorted ranges computes the specified merge |
| IpRanges.MergeKeepsUnion | src/ruleset/drs.rs:1034-1058 | for every list of ranges, merging covers exactly the same addresses and leaves sorted, disjoint ranges |
| IpRanges.BinarySearch | src/ruleset/drs.rs:1060-1076 | on sorted disjoint ranges, the search finds a range exactly when some range covers the value |
| DrsFormat.FromU8 | src/ruleset/format.rs:83-101 | a section code is read as the one section type that has it, and every other byte is refused by name |
| DrsFormat.HeaderRoundTrip | src/ruleset/format.rs:115-139 | a section header reads back as written, at any position of a file |
| DrsFormat.BuildStringSection | src/ruleset/drs.rs:1103-1119 | the printed bytes are the length-prefixed strings without those over 255 bytes, and the count is the number kept |
| DrsFormat.ReadStrings | src/ruleset/drs.rs:264-281 | the reading loop of the keyword, regex and exclude-regex sections, with its truncation and UTF-8 errors |
| DrsFormat.StringSectionRoundTrip | src/ruleset/drs.rs:1103-1119 | a string section reads back as the strings of at most 255 bytes, in order |
| DrsFormat.BuildCidrSection | src/ruleset/drs.rs:1121-1143 | the printed bytes are the addresses (IPv4 little-endian, IPv6 big-endian), each followed by its prefix length |
| DrsFormat.ReadCidrs | src/ruleset/drs.rs:332-369 | the reading loops of the CIDR sections, with the error for a partial entry |
| DrsFormat.CidrSectionRoundTrip | src/ruleset/drs.rs:1121-1143 | a CIDR section reads back as the ranges of the CIDRs it was printed from |
| DrsFormat.BuildPortSection | src/ruleset/drs.rs:1145-1155 | the printed bytes are the port pairs in order |
| DrsFormat.ReadPorts | src/ruleset/drs.rs:370-386 | the reading loop of the port section, with the error for a partial entry |
| DrsFormat.PortSectionRoundTrip | src/ruleset/drs.rs:1145-1155 | a port section reads back as the ports it was printed from |
| DrsFormat.CidrExamples | src/ruleset/drs.rs:1121-1143 | the exact bytes of the entries 10.0.0.1/8 and 2001:db8::1/32 |
| DrsFormat.PortAndStringExamples | src/ruleset/drs.rs:1103-1155 | the exact bytes of a port range and of a keyword |
| DrsFormat.SectionHeaderExamples | src/ruleset/format.rs:53-80 | the codes of the ten sections that are written and the exact bytes of a section header |
| DrsFormat.FileHeaderExample | src/ruleset/drs.rs:689-695 | the exact bytes of a file header around any source hash |
| DrsFiles.EntryBuckets.Push | src/ruleset/builder.rs:46-104 | the buckets always hold the accepted entries by type in push order; exactly a regex that does not compile and an address of the wrong family are refused, by name, and change nothing |
| DrsFiles.EntryBuckets.WriteTo | src/ruleset/builder.rs:128-144 | printing the buckets prints the file of the pushed entries, or fails and writes nothing |
| DrsFiles.WriteV2 | src/ruleset/drs.rs:609-751 | the output is the header with the number of non-empty sections followed by exactly those sections, and a key over 253 bytes fails before anything is written |
| DrsFiles.CountSections | src/ruleset/drs.rs:652-683 | the section count in the header is the number of sections that are printed |
| DrsFiles.SuffixKeysAreKeys | src/ruleset/drs.rs:609-751 | the set that the suffix index holds is the set of keys of the suffix rules |
| DrsFiles.WritableIff | src/ruleset/drs.rs:1082-1101 | a list is refused exactly for an exact name over 253 bytes or a suffix over 252: the key of a suffix has one byte more |
| DrsLoader.ReadSection | src/ruleset/drs.rs:249-392 | one turn of the section loop changes exactly the field of its section type |
| DrsLoader.FromBytesV2 | src/ruleset/drs.rs:204-452 | the loader's loop over sections computes the specified load, with all its errors, and only regex sets that compile are in the result |
| DrsLoader.FromBytes | src/ruleset/drs.rs:102-119 | length, magic and version checks before the version-specific loader |
| DrsLoader.DomainIsExcluded | src/ruleset/drs.rs:579-599 | a name is vetoed exactly when an exclude set, an exclude suffix or an exclude regex has it |
| DrsLoader.MatchesNormalized | src/ruleset/drs.rs:487-532 | veto first, then exact, suffix, keyword, regex; each index is asked through the stack-buffer matcher |
| DrsLoader.MatchesIp | src/ruleset/drs.rs:536-565 | an address is looked up by binary search in its family's ranges, IPv4-mapped addresses in the IPv4 ranges only |
| DrsLoader.Matches | src/ruleset/drs.rs:462-484 | with either shortcut, the answer is that of the name without closing dots and with the letters A to Z in lower case, letter by letter |
| Bytes.ContainsIff | src/ruleset/drs.rs:514-520 | a keyword is contained exactly when the name is something, the keyword and something |
| Text.TrimEndCuts | src/ruleset/drs.rs:831-838 | trimming cuts closing dots only, and all of them |
| Text.LowerLetters | src/ruleset/drs.rs:831-838 | lower case moves the letters A to Z by 32 and nothing else |
| DrsTheorems.PrintedSectionsLoad | src/ruleset/drs.rs:235-393 | any printed list of sections is consumed section by section by the loader, whatever the sections are |
| DrsTheorems.WrittenFileLoads | src/ruleset/drs.rs:609-751 | for every rule list that can be written, the printed file loads to exactly its sets, strings, ranges, ports and counts |
| DrsTheorems.LoadedFileAnswers | src/ruleset/drs.rs:487-532 | the loaded file answers every name as the rule list does: a keyword hits exactly when the name is something, the keyword and something, a suffix when the name is the suffix or something, a dot and the suffix; keyword and regex strings over 255 bytes are dropped |
| DrsTheorems.MergedRangesAreCidrs | src/ruleset/drs.rs:395-397 | the merged ranges are ready for binary search and cover an address exactly when some CIDR shares its prefix bits |
| DrsTheorems.LoadedFileAnswersIp | src/ruleset/drs.rs:536-565 | the loaded file answers every address as the CIDR lists do, IPv6 addresses from ::ffff:0:0 to ::ffff:ffff:ffff as the IPv4 address in their low 32 bits |
| DrsTheorems.RulesAreSorted | src/ruleset/builder.rs:46-104 | each of the ten lists holds exactly the texts, addresses or ports of the entries of its kind |
| DrsTheorems.LoadedFields | src/ruleset/drs.rs:400-452 | ports, build time, source hash and counts of a loaded file are those it was written with |
| DrsTheorems.LoadedIsSearchable | src/ruleset/drs.rs:332-397 | whatever its bytes, a file that loads has sorted, disjoint ranges, so the binary search applies to it |
| DrsTheorems.BuildFile | src/ruleset/builder.rs:163-176 | pushing entries one by one and printing gives the file of the whole list |
| DrsTheorems.BuildAndAsk | src/ruleset/builder.rs:278-309 | end to end: push, print, load and ask; every list holds what the entries of its kind say, every raw name is answered in its normal form and every address as those lists say, and the ports are the entries' ports |
| DrsAssumptions.CodecExists | src/ruleset/drs.rs:1082-1100 | a set codec with the assumed property exists |
| DrsAssumptions.RulesExist | src/ruleset/drs.rs:609-751 | for every name of at most 253 bytes, rules with that name and an exception for it meet the hypotheses of the end-to-end theorem |
| AdGuardGlob.EscapeRegexRange | src/ruleset/parser/adguard.rs:460-472 | appends the text with a backslash before every character that is not alphanumeric, hyphen or underscore |
| AdGuardGlob.ReadRender | src/ruleset/parser/adguard.rs:460-472 | the regex reader recovers the atoms from the written text, so escaping loses nothing and creates no operator |
| AdGuardGlob.BuildWildcardEndAnchored | src/ruleset/parser/adguard.rs:447-458 | the written text is the rendering of the specified atoms |
| AdGuardGlob.EndAnchoredMeaning | src/ruleset/parser/adguard.rs:447-458 | the regex read from that text finds a name exactly when some suffix of the name matches the glob |
| AdGuardGlob.BuildWildcardRegex | src/ruleset/parser/adguard.rs:419-444 | the written text is the rendering of the specified atoms |
| AdGuardGlob.WildRegexText | src/ruleset/parser/adguard.rs:419-444 | that text is read back as the anchored regex whose atoms are compiled character by character |
| AdGuardGlob.WildcardMeaning | src/ruleset/parser/adguard.rs:419-444 | the exact language on names without empty labels: a leading `*.` means the name itself or a subdomain, and a dot behind `**` may be missing |
| AdGuardGlob.WildcardAcceptsGlob | src/ruleset/parser/adguard.rs:419-444 | every name without empty labels that the glob accepts is accepted |
| AdGuardGlob.WildcardIsGlobIffQuiet | src/ruleset/parser/adguard.rs:419-444 | the regex means the glob on every one-line text exactly when the label rule never fires |
| AdGuardGlob.LabelRuleTest | src/ruleset/parser/adguard.rs:425-433 | the label rule fires exactly when the glob begins with `*.` or contains `**.` |
| AdGuardRules.ParseWildcardOrPlain | src/ruleset/parser/adguard.rs:376-414 | the host part is what is left before `/` or `^` without closing bars and outer blanks; a plain name, also behind `*.`, becomes the lower-cased entry of the default type, another text with `*` becomes a regex exactly when it compiles, anything else is refused; and the entry hits, among one-line names without empty labels, exactly those that its host pattern stands for |
| AdGuardRules.RuleOutcome | src/ruleset/parser/adguard.rs:376-414 | the same acceptance for every text: which rules are accepted and as what, in terms of characters alone |
| AdGuardRules.RuleHitsWhatItMeans | src/ruleset/parser/adguard.rs:376-414 | suffix rule or regex, the entry hits the plain host and its subdomains, or what the wildcard stands for as a glob |
| AdGuardRules.WildcardKeepsCaseIff | src/ruleset/parser/adguard.rs:407-413 | plain hosts are lower-cased and compiled wildcards are not: the regex finds the lower-case texts that the lower-cased pattern stands for exactly when the pattern has no upper-case letter |
| AdGuardRules.UpperCaseHitsNothing | src/ruleset/parser/adguard.rs:407-413 | a compiled wildcard with an upper-case letter hits no normalised name at all |
| AdGuardRules.StarSuffixIsItsRegex | src/ruleset/parser/adguard.rs:396-405 | turning `*.rest` into a suffix rule changes no answer: on names without empty labels the compiled regex means the same |
| AdGuardRules.ExceptionKeepsKindIff | src/ruleset/parser/adguard.rs:396-413 | an exception keeps its type exactly when its host has no `*` or is `*.` and a plain domain; every other one blocks the very names it was to except |
| AdGuardRules.ExceptionThatBlocks | src/ruleset/parser/adguard.rs:407-413 | a concrete exception that comes out as a blocking entry, and a name that it blocks |
| DnsWire.SkipQname | src/dns/upstream/util.rs:262-278 | the walker of the injector steps over a name or fails at the end of the message |
| DnsWire.SkipRr | src/dns/upstream/util.rs:280-288 | steps over a record, or fails when its head is cut off |
| DnsWire.WireInjectEcs | src/dns/upstream/util.rs:139-260 | scan, splice and count update compute the specified injection, no slice leaves the message when the scan ends inside it, and the option reads as section 6 of RFC 7871 says: code 8, length, family, source prefix length, scope 0, address |
| DnsWire.InjectClientSubnet | src/dns/upstream/util.rs:110-130 | for every configured subnet the injected option has family 1 or 2, the prefix length, and the fewest octets that hold the prefix, but at least one |
| DnsWire.UdpSkipQname | src/dns/upstream/udp.rs:324-340 | the second, separately written name walker computes the same function |
| DnsWire.UdpSkipRr | src/dns/upstream/udp.rs:342-352 | the second record walker computes the same function |
| DnsWire.ExtractEdnsUdpSize | src/dns/upstream/udp.rs:280-322 | the class of the first OPT record that the walk meets, or nothing |
| DnsWireTheorems.InjectionAppendsOpt | src/dns/upstream/util.rs:233-259 | without an OPT record, the result is the encoding of the same message with one OPT record added at the end of its additional section and counted |
| DnsWireTheorems.AppendedIsValid | src/dns/upstream/util.rs:253-256 | that message is well formed exactly when the additional count does not wrap at 65535 |
| DnsWireTheorems.InjectionExtendsOpt | src/dns/upstream/util.rs:208-232 | with an OPT record, its RDATA becomes the old RDATA and the option, RDLENGTH follows, everything before it is unchanged, and the message ends there |
| DnsWireTheorems.ExtensionKeepsMessageIff | src/dns/upstream/util.rs:208-232 | the result encodes the extended message exactly when the last OPT record is the last additional record, and that message is well formed exactly when the new RDLENGTH also fits 16 bits |
| DnsWireTheorems.ExtendedIsValidIff | src/dns/upstream/util.rs:217-219 | the extended message is well formed exactly when its RDLENGTH does not wrap |
| DnsWireTheorems.RecordLost | src/dns/upstream/util.rs:215 | a concrete message that loses the record behind its OPT record |
| DnsWireTheorems.InjectedSize | src/dns/upstream/udp.rs:280-322 | after injecting into a message without OPT the other walker reads 1232 |
| DnsWireTheorems.ExtensionKeepsSize | src/dns/upstream/udp.rs:280-322 | extending an OPT record never changes the size the other walker reads, even when records are lost |
| DnsWireTheorems.ResultCarriesSubnet | src/dns/upstream/util.rs:149-259 | whatever the message, with or without OPT records, the result ends with the option, at the end of its last OPT record |
| DnsWireTheorems.InjectionExample | src/dns/upstream/util.rs:149-259 | the exact bytes of a query before and after the injection of 192.0.2.0/24 |
| DnsWireTheorems.EcsAddressConformsIff | src/dns/upstream/util.rs:116-127 | the address in the option has the form of section 6 of RFC 7871 exactly when the prefix is not empty and no bit is set behind it |
| DnsWireTheorems.EcsAddressExamples | src/dns/upstream/util.rs:125-127 | two configured subnets whose option does not have that form |
| UdpPool.PickIsFreeIff | src/dns/upstream/udp.rs:196-206 | although its last candidate is unchecked, the scan of the id ring ends on a used id exactly when all 65,536 ids are used |
| UdpPool.PoolInner.Register | src/dns/upstream/udp.rs:196-206 | the waiter is registered under the picked id, which was free unless the table was full; no other entry changes |
| UdpPool.PoolInner.Prepare | src/dns/upstream/udp.rs:196-212 | the request goes out under the id it was registered with, otherwise unchanged |
| UdpPool.RunKeepsInv | src/dns/upstream/udp.rs:144-170 | over every interleaving the table holds exactly the waiting queries, each under its own id |
| UdpPool.WaitingIdsDistinct | src/dns/upstream/udp.rs:182-262 | two waiting queries never share an id |
| UdpPool.AtMostOneReply | src/dns/upstream/udp.rs:144-170 | a query gets at most one reply; it answers the id it was sent with and carries the caller's id and the rest of the datagram unchanged |
| UdpPool.BeginDisplacesIffFull | src/dns/upstream/udp.rs:190-206 | a new query leaves every other query alone exactly when fewer than 65,536 wait |
| UdpPool.RemovalSparesOthersIff | src/dns/upstream/udp.rs:214-257 | a query that times out, fails to send or finds its channel closed leaves every other query alone exactly when its id is free or still its own |
| UdpPool.DisplacedTakesNewcomer | src/dns/upstream/udp.rs:244-252 | a waiter displaced from a full table, on noticing, closes the query that displaced it |
| UdpPool.UdpPool.QueryLoop | src/dns/upstream/udp.rs:182-271 | with attempts that end as the steps of a socket can end: a second attempt follows only a failed send or a closed channel and uses another socket, there is no third, a socket that failed is given up, an answer carries the caller's id, and the code behind the loop is never reached |
| UdpPool.UdpPool.GetOrCreate | src/dns/upstream/udp.rs:114-180 | the current socket is kept; otherwise a new one is made current, or the attempt fails |
| UdpPool.UdpPool.Invalidate | src/dns/upstream/udp.rs:264-271 | only the socket that failed is given up |
| DotPool.ConnectionsBounded | src/dns/upstream/dot.rs:88-124 | over every interleaving idle and claimed connections together never exceed the capacity |
| DotPool.PutBackNeverDiscards | src/dns/upstream/dot.rs:162-168 | returning a connection always finds room |
| DotPool.ConnectionsExclusive | src/dns/upstream/dot.rs:88-124 | a connection is never idle and in use, nor used by two queries |
| DotPool.ReusedConnectionNeverReturns | src/dns/upstream/dot.rs:95-106 | a query in the reuse branch waits for a lock it holds itself: only cancelling it changes that, and meanwhile no query pops or returns a connection |
| DnsCache.CacheKeyInjective | src/dns/cache.rs:45-48 | two questions share a cache key exactly when their types agree and their names agree up to case |
| Text.DecimalValue | src/dns/cache.rs:45-48 | the decimal text of a type stands for it, without a zero in front |
| DnsCache.Cache.Get | src/dns/cache.rs:50-70 | a live entry is found, moved to the front and returned with its remaining TTL; an expired one is dropped |
| DnsCache.Cache.Insert | src/dns/cache.rs:72-97 | the entry goes to the front and is kept for the least TTL of its records, raised to the minimum and lowered to the maximum; a time of zero changes nothing |
| DnsCache.KeptForIff | src/dns/cache.rs:72-84 | the time that the code computes is the TTL of some record and at most that of every record, within the limits, and the minimum when there are no records |
| DnsCache.RunKeepsInv | src/dns/cache.rs:50-97 | over every run the slots hold the latest inserts in order of last use, within the capacity |
| DnsCache.HitIsLatestInsert | src/dns/cache.rs:50-70 | after any run with a monotone clock a hit serves the latest insert for that name, up to case, and type that stored anything; every answer and additional TTL is the time it is kept for minus the elapsed seconds, which are fewer |
| DnsCache.NoRecordOutlived | src/dns/cache.rs:50-84 | the TTL of a hit plus the elapsed seconds is at most every record's own TTL, or the minimum where that is larger, and at most the maximum; it is the TTL of some record unless a limit took hold |
| DnsCache.SizeBounded | src/dns/cache.rs:35-43 | after any run there are at most `capacity` entries and no key twice |
| DnsCache.EvictsLeastRecentlyUsed | src/dns/cache.rs:72-97 | an insert drops another entry only for a new key in a full cache, and then one that no hit or insert has used since every other entry was last used |
| DnsCache.LiveMissMeansEvicted | src/dns/cache.rs:50-70 | a question whose latest insert is still within its time is missed only after at least `capacity` different keys were used since its own last use |
| Router.SameNameSameAnswer | src/dns/router.rs:204-278 | attribution and static hosts depend on a name only up to case, like the cache key |
| Router.AnswersAreAttributed | src/dns/router.rs:183-300 | over every interleaving of calls, each giving way while its group is asked, every answer is the message and names the source that the question and the rules alone determine, a cache hit under the id of its own question; the group is that of the first rule that matches and has one; the cache never stores or serves a static host |
| Router.FirstMatchIff | src/dns/router.rs:235-246 | the walk takes the group of the first rule that matches and whose group exists |
| Router.WalkIff | src/dns/router.rs:233-284 | group, rule, recorded upstream and blocked flag are those of the first such rule, or of the default group if there is none |
| Router.CachedAnswersRepeat | src/dns/router.rs:183-201 | over every interleaving a cached answer repeats an answer that did not come from the cache, to a question for the same name up to case and the same type: code, source and records but for the TTLs |
| Router.RunKeepsInv | src/dns/router.rs:183-300 | over every interleaving everything stored is attributed as the first-match walk says, and every waiting call asked the group of that walk |
| Router.CleanHit | src/dns/router.rs:183-201 | on a cache of attributed entries, a hit reports the upstream of the first-match walk, and the name is not a static host |
| Router.BlockedFromPrefixIff | src/dns/router.rs:188-189 | the blocked flag read off the stored upstream is right exactly when the name does not go to a real group named `rcode:...` |
| Router.MisleadingGroup | src/dns/router.rs:188-189 | a configuration whose cache hits are reported as blocked although nothing was |
| Router.MergeResponses | src/dns/router.rs:370-400 | id, order and completeness of the merged answers, and that nothing else of the primary changes |
| Router.QueryWithStrategy | src/dns/router.rs:308-355 | under a preference for IPv4 the answers of type 1 come first, for IPv6 those of type 28, whichever was asked for, with the id of the request; otherwise the reply is passed on; the query fails exactly when the question itself fails |
| Router.QueryRouter.Resolve | src/dns/router.rs:183-300 | a call that no other call interrupts is the two halves below, and its answer names its source as the question and the rules determine |
| Router.QueryRouter.Begin | src/dns/router.rs:183-284 | the half before the first await: strategy, cache, static hosts, dynamic hosts, then the group of the first rule that matches and has one, else the default group, stated without the code's own walk |
| Router.QueryRouter.Finish | src/dns/router.rs:245-300 | the half after the group answered: exactly the returned response is stored, under the attributed upstream, and a failed query stores nothing |
| RaFrame.BuildRaIcmpv6 | src/dhcp/ra/builder.rs:48-117 | the pushes build header, link-layer, MTU, prefix and RDNSS options in that order |
| RaFrame.BodyIsAdvertisement | src/dhcp/ra/builder.rs:48-117 | the body reads as RFC 4861, RFC 4191 and RFC 8106 lay it out, but for the RDNSS length: type, flag and preference bits, lifetimes, link-layer, MTU, every prefix and every server at its place |
| RaFrame.ParsePacket | src/dhcp/ra/listener.rs:57-99 | the option loop ends on every packet and computes the specified prefixes |
| RaFrame.RoundTrip | src/dhcp/ra/listener.rs:68-99 | an advertisement of at most 1500 bytes with at most three DNS servers is learned as sent: its prefixes in order without ::1 and fe80::/10, lifetimes 86400 and 14400 |
| RaFrame.RoundTripIff | src/dhcp/ra/builder.rs:104-114 | for n DNS servers this holds for all their addresses exactly when n is at most three |
| RaFrame.DecoyIsLearned | src/dhcp/ra/builder.rs:107-108 | with four or more servers there are addresses from which a prefix is learned that was never sent |
| RaFrame.PrefixTable.Update | src/dhcp/ra/listener.rs:101-112 | the update-or-insert loop over the shared table, which never holds a prefix twice |
| RaFrame.TableUpdated | src/dhcp/ra/listener.rs:101-112 | afterwards the table has the last learned version of every learned prefix and its old entry for the others |
| RaChecksum.Icmpv6Checksum | src/dhcp/ra/builder.rs:142-169 | for bodies up to 65535 bytes the 32-bit accumulator never overflows, the carry loop ends, and the result is the specified checksum |
| RaChecksum.Fold | src/dhcp/ra/builder.rs:165-167 | folding carries keeps the sum modulo 65535 and gives 0 only for 0 |
| RaChecksum.ChecksumVerifies | src/dhcp/ra/builder.rs:33-37 | a message of even or odd length with its checksum written into bytes 2 and 3 adds up to a multiple of 65535 with the pseudo-header, each byte weighed by its place |
| RaChecksum.ZeroIffPasses | src/dhcp/ra/builder.rs:142-169 | the checksum comes out as 0 exactly when those words add up to a multiple of 65535 |
| RaChecksum.ChecksumExample | src/dhcp/ra/builder.rs:142-169 | the checksum of the smallest body from fe80::1 to ff02::1 is 0x7c3b |
| RaChecksum.OneWrongByteIsCaught | src/dhcp/ra/builder.rs:142-169 | changing any single byte of a message or of its addresses that pass the check makes them fail |
| RaChecksum.BuildRaFrame | src/dhcp/ra/builder.rs:33-45 | every byte of the Ethernet and IPv6 headers, the checksum and the contents of the frame are right as a receiver reads them, and its payload is learned as sent |
| UiRules.FromBackend | web/ui/src/pages/config/UpstreamsTab.jsx:37-81 | the loop over rulesets, with its renaming loop, ends and computes the specified names and rules |
| UiRules.GroupNameForRule | web/ui/src/pages/config/UpstreamsTab.jsx:83-97 | the renaming loop ends with a name that was not in use |
| UiRules.CommitToConfig | web/ui/src/pages/config/UpstreamsTab.jsx:99-130 | the groups and rulesets written back |
| UiRules.BasenameNoExt | web/ui/src/pages/config/UpstreamsTab.jsx:21-25 | the name is empty exactly for a path that is empty or ends in a slash |
| UiRules.StemIs | web/ui/src/pages/config/UpstreamsTab.jsx:21-25 | the name is the last piece of the path without `.drs`, in either case |
| UiRules.PieceIs | web/ui/src/pages/config/UpstreamsTab.jsx:21-25 | a last piece without that extension, or with nothing before it, is kept whole |
| UiRules.NewNameIs | web/ui/src/pages/config/UpstreamsTab.jsx:48-58 | a name in use by another path gets the least number from 2 on that is free |
| UiRules.GroupNameIs | web/ui/src/pages/config/UpstreamsTab.jsx:83-97 | a group is called after the trimmed first ruleset of its rule or by its position, never `default`, with the least number from 2 on that is free |
| UiRulesTheorems.NamingKept | web/ui/src/pages/config/UpstreamsTab.jsx:48-58 | names and paths stay one to one, and a path keeps its name |
| UiRulesTheorems.ReadingIsFaithful | web/ui/src/pages/config/UpstreamsTab.jsx:37-81 | grouping consecutive entries into rules keeps the first match of every set of matching paths |
| UiSaving.WritingKeepsRoutes | web/ui/src/pages/config/UpstreamsTab.jsx:113-126 | for every rule list the written entries route, one for one, as the rules they came from, but for the first rule named `__proto__`, whose entries have no group |
| UiSaving.RoutingKeptIff | web/ui/src/pages/config/UpstreamsTab.jsx:37-130 | with known groups, opening and saving keeps, for every set of matching paths, the servers, strategy, insecure flag and client subnet of the first match exactly when every ruleset path names a file and the first rule named `__proto__`, if any, lists only rulesets that earlier rules list |
| UiSaving.FilesWithoutProto | web/ui/src/pages/config/UpstreamsTab.jsx:21-25 | if no ruleset file is called `__proto__`, up to `.drs` and spaces, then no rule is |
| UiSaving.DefaultUntouched | web/ui/src/pages/config/UpstreamsTab.jsx:99-120 | for every configuration the default group is kept as it was, or written with no servers and round robin, and no written ruleset goes to it; every written ruleset has a group exactly when no rule is named `__proto__` |
| UiSaving.FreshNames | web/ui/src/pages/config/UpstreamsTab.jsx:83-97 | whatever the rules are, each gets a group name of its own, none of them the default's |
| UiSaving.ProtoLosesGroup | web/ui/src/pages/config/UpstreamsTab.jsx:115-120 | a concrete ruleset whose group is not written |
| UiSaving.ShadowedProto | web/ui/src/pages/config/UpstreamsTab.jsx:115-126 | a rule list with a rule named `__proto__` whose lost group changes no route, so the condition on shadowing is not about the name alone |
| UiSaving.OpenAndSave | web/ui/src/pages/config/UpstreamsTab.jsx:37-130 | the two loops composed keep all routes under exactly that condition |
| LatencyEma.AverageWithin | src/stats/mod.rs:394-409 | despite truncation and the restart at 0, the average of observations between m and M stays between m-9 and M, so the product by nine fits 64 bits whenever 9M does |
| LatencyEma.TenthWeight | src/stats/mod.rs:394-409 | the first observation is taken whole; each later one weighs a tenth and the average nine tenths, less at most 1.8 by rounding |
| LatencyEma.SteadyLosesNine | src/stats/mod.rs:394-409 | the bound is exact: a steady latency ending in 9 is averaged down by 9 |
| LatencyEma.SlotIsAverage | src/stats/mod.rs:394-409 | under every interleaving of compare-and-swap retries the slot is the average of the finished observations in the order of their exchanges |
| LatencyEma.NothingLost | src/stats/mod.rs:394-409 | every observation is finished exactly once or still waiting |
| LatencyEma.QuietSlot | src/stats/mod.rs:394-409 | when no update is under way the slot averages exactly the observations made |
| LatencyEma.SlotWithin | src/stats/mod.rs:379-409 | the bounds hold for the slot under every interleaving |
| QueryStats.StatsCollector.RecordQuery | src/stats/mod.rs:158-246 | one undisturbed call adds one to exactly the counters and buckets that the query is for and puts it at the end of the log, dropping the oldest entry of a full one |
| QueryStats.StatsCollector.SnapshotQueryLog | src/stats/mod.rs:327-331 | the newest entries first, at most `limit` |
| QueryStats.EveryCounterExact | src/stats/mod.rs:158-246 | under every interleaving each counter and each bucket sum is its restored value plus the number of queries it is for whose call has passed its step |
| QueryStats.BucketsConserveTotal | src/stats/mod.rs:158-192 | the total is at least the sum over types, over rcodes and over clients, and equal to each when no call is in progress |
| QueryStats.BlockedAndFailedExclusive | src/stats/mod.rs:163-170 | blocked and failed increments never belong to the same query, so together they are at most the total |
| QueryStats.UpstreamOutcomesBounded | src/stats/mod.rs:372-384 | per upstream, successes and failures together are at most its queries |
| QueryStats.LogIsLastPushes | src/stats/mod.rs:229-239 | the log is the last pushes, as many as fit |
| QueryStats.SnapshotIsNewestFirst | src/stats/mod.rs:327-331 | entry i of a snapshot is the i-th newest push |
| QueryStats.SharedLogIsLastPushes | src/stats/mod.rs:229-239 | the same under every interleaving |
| RoundRobin.UpstreamGroup.QueryRoundRobin | src/dns/upstream/mod.rs:287-301 | servers are asked in cyclic order from the counter's turn until one replies, and the query fails exactly when all fail |
| RoundRobin.UpstreamGroup.Query | src/dns/upstream/mod.rs:276-285 | a group without servers fails without using up a turn |
| RoundRobin.VisitsEachOnce | src/dns/upstream/mod.rs:291-292 | the cyclic order from any start names every server exactly once |
| RoundRobin.FairShare | src/dns/upstream/mod.rs:288-289 | over any k up to 2^64 queries each of n servers is tried first k/n times, the first k mod n servers once more |
| RoundRobin.WrapKeepsTurnsIff | src/dns/upstream/mod.rs:289 | when the counter wraps, the turn goes on to the next server exactly when n divides 2^64 |

## Left out

- `src/ruleset/drs.rs:123-200`, the version 1 reader: a parameter of `FromBytes`, because the code itself declares its suffix index incompatible.
- FST, regex, LRU, hickory and DHCP library internals: an encoder and decoder that undo each other, hit predicates, a recency list and message records stand for them.
- Error payload texts, log output and metrics.
- Sockets, TLS, QUIC, HTTP, files and clocks: outcomes and times are parameters.
- DrsFormat.ReadStrings: one method stands for the three identical string loops of the loader, and `ReadCidrs` and `BuildCidrSection` for the IPv4 and IPv6 copies.
- DrsFiles.WriteV2: the ten conditional counts and writes are a loop over the ten sections in file order.
- DrsFormat.ReadCidrs: a prefix length above 32 or 128 is an error value here; the source panics or shifts out of range.
- DrsTheorems.WrittenFileLoads: asks that section sizes and entry counts fit 32 bits and that the combined regex sets compile, which the writer does not check.
- DnsWire.WireInjectEcs: messages whose last record reaches beyond the end are excluded, because the source would panic on the slice.
- AdGuardRules.RuleHitsWhatItMeans: patterns and names are ASCII text on one line; the line loop of `parse`, modifiers and hosts lines are branch by branch and would only add easy members.
- UdpPool.RunKeepsInv: the timeout and the removal of the entry are one step, so the window between them, in which a reply could still arrive, is not modelled.
- UdpPool.UdpPool.QueryLoop: other callers do not change the current socket between its attempts, and the retry over TCP of a truncated reply is not modelled.
- DotPool.ConnectionsBounded: the semaphore is its count; fairness and progress are not stated, and the code does not have progress.
- DnsCache.HitIsLatestInsert: elapsed times of 2^32 seconds and more are excluded, because the source truncates them.
- Router.AnswersAreAttributed: the configuration does not change during a run, the dynamic hosts table is a parameter of each question, and names are ASCII.
- RaChecksum.Icmpv6Checksum: bodies above 65535 bytes are excluded, because the frame's 16-bit length field could not hold them.
- UiRules.FromBackend: the order in which the catalogue is listed, and inherited properties such as `constructor` looked up as group or ruleset names, are not modelled.
- UiSaving.RoutingKeptIff: asks that every upstream is a known group; the page turns an unknown one into an empty group.
- QueryStats.EveryCounterExact: counters are unbounded; `record` on an upstream entry is one step, because the map's lock is held; the two latency slots are in `LatencyEma`, and the floating-point conversions before them are not modelled.
- Firewall backends, resolv.conf guard, CLI, web server, sessions, SQLite and rendering.
- DHCP address pools and `RuntimeHandle`: the code keeps no strong property there.
- The mihomo and sing-box parsers, URL parsing and the YAML structures.
