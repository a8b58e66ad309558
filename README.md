# pomelo-dns core, modelled in Dafny

pomelo is a small forwarding DNS server. Each request runs through a fixed pipeline:

- It first attributes the client to a *group* by its address.
- It answers from the group's *hosts* tables (A, AAAA and reverse PTR names).
- Otherwise it answers from an LRU *record cache* that filters records by TTL whenever a domain is read or extended.
- Otherwise it forwards the request to the group's upstream servers (plain UDP/TCP, DNS over TLS, DNS over HTTPS).
- Before sending, it filters the answer's IPv6 records through the group's `ipv6_resolution` rules. The verdicts come from a GeoIP country lookup or an ICMP ping that is cached.

This project models the core of that pipeline:

- **Configuration language** (`scanner.dfy`, `config.dfy`, `groups.dfy`, `server.dfy`, `hosts.dfy`, `metadata.dfy`, `log.dfy`, `resolution.dfy`, `rules.dfy`, `parse.dfy`):
  - the key/value line scanner and the section headers;
  - the `[group]` address-range language (ranges, CIDR blocks, single addresses, all stored IPv6-mapped);
  - the per-section parsers, which update a mutable `Inner` in place;
  - `read_hosts`, and the whole-file parser with its `default` check;
  - the queries the handler makes of the tables: group attribution, `get_server`, `get_hosts`, `get_hostname` and `is_allow_ipv6`.
- **Record cache** (`cache.dfy`): the typed LRU store behind a switchable `Cache`, filtered by `clean_expired`.
- **Handler** (`handler.dfy`):
  - the hosts answer and the reverse-name decoding;
  - the cache lookup, done in place on the store;
  - the IPv6 answer filter;
  - the order of `handle`;
  - the log-line formatting helpers.
- **ICMP helpers** (`ping.dfy`): the RFC 1071 checksum, the sequence counter, the echo request layout and the echo-reply check.
- **Upstream address derivation** (`upstream.dfy`): `split_addr` and the target chosen by `resolve`.
- **HTTP/1.1 codec** (`http1.dfy`): the response reader (a byte-level state machine) and the request writer, as used for DNS over HTTPS.

`wrappers.dfy`, `text.dfy`, `net.dfy`, `dnsname.dfy` and `records.dfy` model the library behaviour the core relies on:

- `Option`/`Result`;
- `str` trimming, splitting and number parsing;
- `IpAddr::from_str`;
- domain names with their ASCII case rules;
- DNS records and messages.

State that the source mutates is modelled with classes whose methods carry `modifies` clauses. Each such class method is proved against a pure specification function of the old state:

- `Config.Inner` holds the tables;
- `LogSection.Log` holds the log settings;
- `Cache.Store` and `Cache.RecordCache` hold the record cache;
- `Rules.PingCache` holds the cached ping verdicts;
- `Ping.SeqCounter` hands out sequence numbers;
- `Http1.Request` is the request being built.

The lemmas then state the properties of those functions.

These outside inputs are parameters of the model:

- the file system (`Env`: files, directories, hosts files, GeoIP databases);
- the GeoIP database's answers;
- the ping probe;
- the clock (`now`);
- the upstream's answer to a forwarded request;
- the outcomes of the IPv6 verdict tasks;
- the iteration order of a `HashMap`.

## Model

| member | source | states |
|---|---|---|
| Scanner.Step | src/config/mod.rs:213-241 | one turn of the character loop always moves strictly forward, past the spaces its peek loop swallows |
| Scanner.SkipSpaces | src/config/mod.rs:216-225 | the peek loop stops at the first non-space at or after the current position |
| Scanner.ScanLine | src/config/mod.rs:203-247 | the loop over the left-trimmed line, then the quote check, computes `ParseKeyValuePair` |
| Scanner.PairIsClean | src/config/mod.rs:226-239 | a scanned key or value never holds '"', and a key holds only letters, digits, '.', '-', ':' and non-ASCII characters |
| Scanner.NoUnderscoreKey | src/config/mod.rs:228-240 | no scanned key contains '_' |
| Scanner.BlankLine | src/config/mod.rs:206-213 | a whitespace-only line scans to an empty key and an empty value |
| Scanner.CommentLine | src/config/mod.rs:206-227 | a line whose first non-whitespace character is '#' scans to an empty key and an empty value |
| Scanner.CommentEndsLine | src/config/mod.rs:226-227 | outside quotes, '#' ends the line: text after it does not change the result |
| Scanner.PlainParse | src/config/mod.rs:206-212 | a line with no leading whitespace is scanned as it is, from column 0 |
| Scanner.ForbiddenKeyChar | src/config/mod.rs:228-240 | any other ASCII character in key position is an error at its 1-based column |
| Scanner.KeyOnly | src/config/mod.rs:213-246 | a line that is only a key gives that key and an empty value |
| Scanner.KeyThenValue | src/config/mod.rs:213-246 | for `key value`, the key is the first token; the value is the rest with quotes dropped and whitespace trimmed; an odd number of quotes is an error at the end of the line |
| Config.Inner.constructor | src/config/mod.rs:49-55 | a fresh `Inner` has empty groups, servers, hosts and rules, and the default metadata |
| Config.MatchIpAddrMapped | src/config/mod.rs:249-254 | two addresses match exactly when their IPv6-mapped forms are equal, so matching is symmetric |
| Config.EmptyRangeMatchesNothing | src/config/mod.rs:100-111 | a range whose end is not after its start matches no address |
| Config.CidrRangeMatchesV4 | src/config/mod.rs:100-111 | as written, an IPv4 client matches a stored `x/p` block exactly when it has the same leading `p` bits as `x` and is not the block's last address; the stored range is half-open, so a /32 block matches nobody |
| Config.CidrRangeMatchesV6 | src/config/mod.rs:100-111 | the same for an IPv6 client and an IPv6 block |
| Config.FirstGroupSpec | src/config/mod.rs:95-118 | the group found is `default` or a listed group with a matching entry; when some group matches, the result matches |
| Config.AttributeGroupSpec | src/config/mod.rs:95-118 | the client gets a group with a matching entry exactly when some group has one; otherwise it gets `default` |
| Config.GetServer | src/config/mod.rs:119-126 | returns the group's upstream list, or the `default` list when the group has none |
| Config.FirstNamed | src/config/mod.rs:127-138 | returns the first host entry whose name equals the domain under `Name`'s `==`: both fully qualified or neither, and the labels equal ignoring ASCII case |
| Config.FirstAddressed | src/config/mod.rs:139-149 | returns the first host entry for the address |
| Config.GetHosts | src/config/mod.rs:127-138 | succeeds exactly when the domain parses as a name, and then answers at most one address |
| Config.UnqualifiedEntriesMiss | src/config/mod.rs:127-138 | the text of a fully-qualified query name finds no entry whose name is not fully qualified, so the answer is empty |
| Config.GetHostsPrecedence | src/config/mod.rs:127-138 | the first of the group's own entries for the name wins; `default`'s entries are used only when the group has none; an empty answer means no entry names the domain |
| Config.GetHostname | src/config/mod.rs:139-149 | answers `None` exactly when no entry, the group's before `default`'s, has the address; otherwise the text of such an entry's name |
| Config.FirstApplicable | src/config/mod.rs:150-178 | returns the first rule whose payload matches the domain |
| Config.FirstRuleDecides | src/config/mod.rs:150-178 | when a group other than `default` has an applicable rule of its own, replacing `default`'s rules changes no verdict |
| Config.NoRuleAllows | src/config/mod.rs:150-178 | with no applicable rule, AAAA answers are allowed |
| Config.IsAllowIpv6 | src/config/mod.rs:150-178 | the method keeps the ping cache valid and answers the verdict of the first applicable rule (`AllowIpv6`) |
| Config.ParseSectionName | src/config/mod.rs:190-200 | a header written for any section reads back as that section |
| Config.ParseGroupHeader | src/config/mod.rs:190-200 | `group` is the group section |
| Config.ParseServerHeader | src/config/mod.rs:190-200 | `server` is the server section |
| Config.ParseMetadataHeader | src/config/mod.rs:190-200 | `metadata` is the metadata section |
| Config.ParseIpv6ResolutionHeader | src/config/mod.rs:190-200 | `ipv6_resolution` is the rule section |
| Config.ParseHostsHeader | src/config/mod.rs:190-200 | `hosts.<g>` is the hosts section of group `g` |
| Config.ParseUnknownHeader | src/config/mod.rs:190-200 | any other name is an unknown section |
| Config.BlankHostLineAsWritten | src/config/mod.rs:262-277 | as written, a blank line in a hosts file gives an entry with an empty address and the root name |
| Config.BlankLineFailsAsWritten | src/config/mod.rs:262-277 | as written, a hosts file holding a blank or whitespace-only line cannot be used: reading it fails, or the blank line's empty address text makes parsing its addresses fail |
| Config.IgnoredHostLine | src/config/mod.rs:262-277 | with the correction, a blank or comment line adds nothing to a hosts file |
| Config.HostLines | src/config/mod.rs:256-280 | a hosts file gives at most one entry per line |
| Config.ReadHosts | src/config/mod.rs:256-280 | the loop over the file's lines computes `ReadHostsSpec`: the entries in order, or the first bad line's error |
| Config.ParseHostAddrsSpec | src/config/hosts.rs:20-29 | succeeds exactly when every address text parses; then gives one entry per line, in order, with its parsed address and its name |
| Groups.ToIpv6Mapped | src/config/group.rs:76-81 | the result is always an IPv6 address |
| Groups.ToIpv6MappedIdempotent | src/config/group.rs:76-81 | mapping twice is mapping once, and IPv6 addresses are unchanged |
| Groups.ToIpv6MappedInjectiveV4 | src/config/group.rs:76-81 | two IPv4 addresses map to the same address only when they are equal |
| Groups.BlockBounds | src/config/group.rs:44-63 | a block contains its written address and lies inside the family's address space |
| Groups.BlockMembers | src/config/group.rs:44-63 | an address is in a block exactly when its leading `prefix` bits are those of the written address |
| Groups.FullBlock | src/config/group.rs:44-63 | a block with all bits fixed is the single written address |
| Groups.CidrV4Bounds | src/config/group.rs:45-53 | an IPv4 block satisfies start <= address <= end |
| Groups.CidrV6Bounds | src/config/group.rs:54-63 | an IPv6 block satisfies start <= address <= end |
| Groups.FullPrefixV4 | src/config/group.rs:45-53 | a /32 block starts and ends at its address |
| Groups.FullPrefixV6 | src/config/group.rs:54-63 | a /128 block starts and ends at its address |
| Groups.ParseDashPart | src/config/group.rs:26-33 | a dash part gives a range whose two ends are IPv6(-mapped) addresses |
| Groups.ParseCidrPart | src/config/group.rs:34-64 | a CIDR part gives a range whose two ends are IPv6(-mapped) addresses |
| Groups.ParseDashPartSpec | src/config/group.rs:26-33 | a range part parses exactly when it splits at '-' into two pieces that are addresses once trimmed; it stores the range between their IPv6-mapped forms; any other piece count is an error |
| Groups.ParseDashText | src/config/group.rs:26-33 | two '-'-free address texts joined by '-' read back, as a part of a group value, as the range between the two mapped addresses |
| Groups.ParseCidrPartSpec | src/config/group.rs:34-64 | a block part parses exactly when it splits at '/' into an address and a decimal `u32` from 1 up to the family's width (32 or 128); it stores `CidrRangeV4`/`CidrRangeV6` of them; another piece count, a prefix over the width and a prefix of 0 are errors |
| Groups.ParseCidrText | src/config/group.rs:34-64 | an address text, '/', and a prefix written in decimal read back, as a part of a group value, as the block of that address and prefix |
| Config.WrittenBlockMatchesV4 | src/config/group.rs:34-53 | a group part written `a/p` for an IPv4 address parses, and an IPv4 client falls in it exactly when it has the same leading `p` bits as the address and is not the block's last address |
| Groups.ParsePart | src/config/group.rs:26-71 | every parsed part is stored in IPv6-mapped form |
| Groups.ParseParts | src/config/group.rs:23-74 | a successful parse gives one range per part |
| Groups.ParsePartsOrder | src/config/group.rs:23-74 | the value parses exactly when every trimmed part parses, and range `i` is the parse of part `i` |
| Groups.ParseIpRange | src/config/group.rs:23-74 | the loop over the comma-separated parts computes `ParseIpRangeSpec` |
| Groups.ParseGroupReplaces | src/config/group.rs:16-21 | a group line that scans and parses sets exactly that group to the parsed ranges; other groups are unchanged |
| Groups.ParseGroupFails | src/config/group.rs:16-21 | a line that does not scan, or whose value does not parse, fails |
| ServerSection.ServerListSpec | src/config/server.rs:12-15 | the server list is never empty and no entry holds ','; when no piece has surrounding whitespace, joining the list gives back the value |
| ServerSection.ParseServerSpec | src/config/server.rs:6-17 | a server line succeeds exactly when it scans and names `default` or a defined group; it then sets only that group's list; a scanner error carries the row |
| ServerSection.ParseServerLine | src/config/server.rs:6-17 | the method changes `inner` as `ParseServer` says, and not at all on an error |
| HostsSection.UnknownGroupFails | src/config/hosts.rs:12-14 | a line under an undefined group fails and changes nothing |
| HostsSection.HostsAppendOnly | src/config/hosts.rs:11-46 | a successful line only appends entries to the list of its own group |
| DnsName.SingleLabelText | src/config/hosts.rs:42 | a dot-free text is read as a one-label name exactly when it is at most 63 admitted characters, so `foo bar` and `-x` are refused |
| DnsName.ToUtf8RoundTrip | src/handler.rs:130-151 | the text `to_utf8` writes for a valid name reads back as that name |
| HostsSection.InlineNameUnqualified | src/config/hosts.rs:35-44 | an inline entry whose name is written without a trailing '.' is stored as a name that is not fully qualified, unlike the entries `read_hosts` completes with a '.' |
| DnsName.QualifiedNeverEqUnqualified | src/config/mod.rs:133 | `==` never equates a fully-qualified name with one that is not |
| HostsSection.InlineHostSpec | src/config/hosts.rs:35-44 | an inline line succeeds exactly when the group is known, the line scans, the key is an address and the value a name; the pair then ends the list |
| HostsSection.IncludeAllOrNothing | src/config/hosts.rs:15-35 | an included file with a bad address fails and keeps none of its entries; otherwise all its entries are appended in file order |
| HostsSection.ParseHostsSectionLine | src/config/hosts.rs:11-46 | the method changes `inner` as `ParseHostsLine` says, or as `FailedHosts` says on an error |
| HostsSection.AppendInclude | src/config/hosts.rs:15-35 | the `@include` branch changes `inner` as `IncludeHosts` says |
| HostsSection.AppendInline | src/config/hosts.rs:35-44 | the inline branch changes `inner` as `InlineHost` says |
| MetadataSection.AccessLogValue | src/config/metadata.rs:66-73 | the switch is off exactly for `off`, `false` and `0` |
| MetadataSection.AccessLogUnreachable | src/config/metadata.rs:66-73 | no scanned key is `access_log`, so that arm is never taken |
| MetadataSection.UnknownKeyFails | src/config/metadata.rs:74 | any key other than the five is an error and changes nothing |
| MetadataSection.EachKeyOwnField | src/config/metadata.rs:28-75 | each key writes only its own field; groups, servers and rules never change |
| MetadataSection.AddnHostOwnField | src/config/metadata.rs:29-47 | `addn-host` changes only the hosts and the remembered path |
| MetadataSection.ValueFields | src/config/metadata.rs:48-65 | `cache-size` must be a `u32`; `bind` is stored verbatim; `mmdb` needs a file that opens as a database |
| MetadataSection.AddnHostAppends | src/config/metadata.rs:29-47 | a readable file whose addresses all parse is appended to `default` in order and its path remembered; a missing file is an error |
| MetadataSection.PushEntriesSpec | src/config/metadata.rs:35-45 | the loop succeeds exactly when every address parses, and then appends the parsed entries in order |
| MetadataSection.PushEntriesStop | src/config/metadata.rs:41-42 | the loop stops at the first address that does not parse, naming it |
| MetadataSection.ParseMetadataLine | src/config/metadata.rs:25-77 | the method changes `inner` as `ParseMetadata` says, or as `FailedMetadata` says on an error |
| MetadataSection.SetItem | src/config/metadata.rs:28-75 | the dispatch on the key changes `inner` as `MetadataItem` says |
| MetadataSection.AddnHost | src/config/metadata.rs:29-47 | the `addn-host` arm changes `inner` as `MetadataItem` says |
| MetadataSection.PushAll | src/config/metadata.rs:34-46 | the entry loop, then the remembered path, as `PushedItem` says |
| MetadataSection.PushLoop | src/config/metadata.rs:35-45 | the hosts become `PushDefault` of the entries, and the result is that of `PushEntries` |
| MetadataSection.PushList | src/config/metadata.rs:35-45 | the loop on the list of `default` computes `PushEntries` |
| LogSection.LevelNumber | src/config/log.rs:27-30 | a level's number is between 1 and 5 |
| LogSection.LevelNameRoundTrip | src/config/log.rs:27-30 | a level's name reads back as that level |
| LogSection.LevelNumberRoundTrip | src/config/log.rs:27-30 | a level's number reads back as that level |
| LogSection.LevelNameAnyCase | src/config/log.rs:27-30 | a level's name in any ASCII case reads back as that level |
| LogSection.RotationRoundTrip | src/config/log.rs:49-59 | a rotation's name reads back as that rotation |
| LogSection.RotationIgnoresCase | src/config/log.rs:49-59 | lower-casing a rotation value does not change its reading |
| LogSection.ParseRotationSpec | src/config/log.rs:49-59 | exactly the five names, in any case, are rotations |
| LogSection.UnknownLogKeyFails | src/config/log.rs:60 | any key other than the four is an error |
| LogSection.EachLogKeyOwnField | src/config/log.rs:26-61 | each key writes only its own field, and only the value it read |
| LogSection.Log.Parse | src/config/log.rs:23-63 | the method changes the settings as `ParseLog` says, and not at all on an error |
| Rules.ParsePayload | src/config/resolution.rs:30-39 | exactly `ALL` is the all-names payload; any other text is one domain |
| Rules.ParseResolutionPrefixes | src/config/resolution.rs:109-132 | a rule parses only when it starts with one of the four directive prefixes |
| Rules.CountryNeedsOneSlash | src/config/resolution.rs:118-123 | a `@country:` rule fails exactly when its remainder does not hold exactly one '/' |
| Rules.ParseRender | src/config/resolution.rs:109-132 | a rule written out reads back as that rule, when its domain is not the text `ALL` and its country code holds no '/' |
| Rules.PayloadMatch | src/config/resolution.rs:50-57 | `ALL` matches every name; a domain payload matches only a name with the same labels |
| Rules.DomainMatchesItself | src/config/resolution.rs:50-57 | a domain payload written as a name's text matches that name, and only names with its labels |
| Rules.NoSuffixMatch | src/config/resolution.rs:50-57 | a domain payload never matches a proper subdomain |
| Rules.CountryVerdict | src/config/resolution.rs:88-99 | a country rule is true exactly when the lookup succeeds with an ISO code equal to the rule's |
| Rules.VerdictIgnoresCache | src/config/resolution.rs:65-101 | only a pingable rule depends on the ping cache or the probe |
| Rules.PingCache.constructor | src/config/resolution.rs:58-64 | the ping cache starts empty with capacity 455 |
| Rules.PingCache.Lookup | src/config/resolution.rs:69-87 | answers the cached verdict if there is one; a hit becomes the most recently used entry |
| Rules.PingCache.Put | src/config/resolution.rs:69-87 | stores the verdict as the most recently used entry; other entries are unchanged unless a new address in a full cache evicts the least recently used one; the recency order is the old order with the address moved or appended last, minus the evicted first entry |
| Rules.CheckIsAllow | src/config/resolution.rs:65-101 | answers `Verdict`; a pingable rule reads the cache and stores a probe result on a miss; the other rules leave the cache alone |
| Rules.PingableVerdictSticks | src/config/resolution.rs:69-87 | once a ping verdict is cached, asking again gives it back whatever the probe would say |
| ResolutionSection.CheckedRule | src/config/resolution.rs:144-159 | a country rule is refused without a GeoIP database |
| ResolutionSection.CollectRulesSpec | src/config/resolution.rs:140-161 | the collection succeeds exactly when every piece is a rule, then gives one rule per piece in order; otherwise it fails with the first failing piece's error |
| ResolutionSection.ParseIpv6ResolutionSpec | src/config/resolution.rs:134-164 | a rule line succeeds exactly when it scans, names a known group and every piece is a rule; the group's rules are then replaced and nothing else changes |
| ResolutionSection.CountryNeedsDb | src/config/resolution.rs:144-159 | a country rule without a database fails the line |
| ResolutionSection.ParseKeepsCountryRulesHaveDb | src/config/resolution.rs:144-159 | country rules are stored only when a database is loaded |
| ResolutionSection.CollectLoop | src/config/resolution.rs:140-161 | the collecting loop computes `CollectRules` |
| ResolutionSection.FirstError | src/config/resolution.rs:161 | the collection fails with the error of the first failing piece |
| ResolutionSection.ParseIpv6ResolutionLine | src/config/resolution.rs:134-164 | the method changes `inner` as `ParseIpv6Resolution` says, and not at all on an error |
| ConfigParse.SkippedLineKeeps | src/config/mod.rs:60-64 | blank lines and comments change nothing |
| ConfigParse.HeaderSwitches | src/config/mod.rs:65-69 | a header line switches the section and keeps the tables |
| ConfigParse.NoSectionFails | src/config/mod.rs:83-85 | a content line before the first header is an error |
| ConfigParse.UnknownSectionFails | src/config/mod.rs:72-74 | a content line in an unknown section is an error |
| ConfigParse.ParsedHasDefault | src/config/mod.rs:87-92 | a configuration that parses has a `default` server list |
| ConfigParse.GroupLineKeeps | src/config/group.rs:16-21 | a group line keeps the tables well-formed |
| ConfigParse.ServerLineKeeps | src/config/server.rs:6-17 | a server line keeps the tables well-formed |
| ConfigParse.HostsLineKeeps | src/config/hosts.rs:11-46 | a hosts line keeps the tables well-formed |
| ConfigParse.MetadataLineKeeps | src/config/metadata.rs:25-77 | a metadata line keeps the tables well-formed |
| ConfigParse.AddnHostKeys | src/config/metadata.rs:29-47 | `addn-host` adds no host list other than `default`'s |
| ConfigParse.ResolutionLineKeeps | src/config/resolution.rs:134-164 | a rule line keeps the tables well-formed |
| ConfigParse.SectionLineKeeps | src/config/mod.rs:70-82 | every section parser keeps the tables well-formed |
| ConfigParse.ParsedWellFormed | src/config/mod.rs:48-94 | every configuration that parses is well-formed and has a `default` server list |
| ConfigParse.ParseGroupLine | src/config/group.rs:16-21 | the method changes the groups as `GroupLine` says, and not at all on an error |
| ConfigParse.ApplySection | src/config/mod.rs:70-82 | the content line goes to its section's parser and the tables change as `SectionLine` says |
| ConfigParse.ParseOneLine | src/config/mod.rs:59-86 | one turn of the loop: the line is skipped, switches the section or goes to its parser, and the section and tables become those `ParseLine` gives |
| ConfigParse.ParseAllLines | src/config/mod.rs:56-86 | the loop over all lines leaves the section and tables `ParseLinesFrom` gives, or stops at its first error |
| ConfigParse.ParseInner | src/config/mod.rs:48-94 | returns a fresh `Inner` holding `ParseConfig`'s tables, or its error |
| Cache.CleanMembers | src/cache.rs:43-49 | cleaning keeps exactly the records whose TTL is at most `now` and adds none |
| Cache.CleanAppend | src/cache.rs:43-49 | cleaning a concatenation cleans each part, keeping the survivors' order |
| Cache.CleanNoop | src/cache.rs:43-49 | a list whose every TTL is at most `now` is unchanged |
| Cache.CleanIdempotent | src/cache.rs:43-49 | cleaning twice at the same time is cleaning once |
| Cache.OfTypeMembers | src/cache.rs:37-40 | the type filter keeps exactly the records of that type |
| Cache.Bounded | src/cache.rs:13-15 | the map never holds more domains than its capacity |
| Cache.PutValid | src/cache.rs:17-25 | `put` keeps the map valid; the domain is then stored and most recently used |
| Cache.PutOthers | src/cache.rs:17-25 | `put` changes no other domain, except that a new domain in a full map evicts the least recently used one |
| Cache.PutStores | src/cache.rs:17-25 | `put` on a stored domain cleans it and appends; on a new domain it stores exactly the records given |
| Cache.PutThenGet | src/cache.rs:17-42 | reading right after `put` gives the old and new records of the asked type whose TTL is at most `now`, old first, or `None` when cleaning keeps none |
| Cache.GetValid | src/cache.rs:26-42 | `get` keeps the map valid; an absent domain changes nothing |
| Cache.GetSpec | src/cache.rs:26-42 | `get` answers `None` exactly when the domain is absent or none of its records has a TTL of at most `now`, and then drops it; otherwise it answers the kept records of the type, and the domain keeps only those |
| Cache.Store.constructor | src/cache.rs:13-15 | a new store is empty with the given capacity |
| Cache.Store.Put | src/cache.rs:17-25 | the store becomes `LruPut` of its old state |
| Cache.Store.Get | src/cache.rs:26-42 | the answer and the new store are `LruGet` of the old state |
| Cache.CleanExpired | src/cache.rs:43-49 | the `retain` loop computes `Clean` |
| Cache.SelectType | src/cache.rs:37-40 | the filter loop computes `OfType` |
| Cache.RecordCache.WithCapacity | src/cache.rs:60-68 | capacity 0 gives no store; any other capacity gives an empty store |
| Cache.RecordCache.Access | src/cache.rs:69-77 | always `Ok`; `None` exactly when caching is off, otherwise the store |
| Cache.WithIndex.Call | src/cache.rs:80-86 | the predicate sees the current count, which then goes up by one |
| Cache.CallEach | src/cache.rs:80-86 | the k-th call sees index k |
| Ping.Fold | src/ping.rs:111-113 | folding the carries gives a 16-bit value |
| Ping.FoldCongruent | src/ping.rs:111-113 | folding keeps the sum modulo 0xFFFF, and a positive sum folds to 1..0xFFFF |
| Ping.Checksum | src/ping.rs:99-118 | the checksum fits 16 bits |
| Ping.WithChecksumChanges | src/ping.rs:115-117 | writing the checksum changes only bytes 2 and 3, which then read back as the checksum |
| Ping.ChecksumVerifies | src/ping.rs:99-118 | when the checksum field was zero, the finished packet sums to all ones (section 1 of RFC 1071) |
| Ping.CalculateChecksum | src/ping.rs:99-118 | the loop over the words, the fold and the write give the packet with `Checksum` in bytes 2 and 3 |
| Ping.SeqAfterValue | src/ping.rs:23-36 | the k-th sequence number is k mod 65534 + 1, so the numbers stay in 1..65534 and cycle |
| Ping.SeqCounter.constructor | src/ping.rs:23-36 | the counter starts at 1 |
| Ping.SeqCounter.Acc | src/ping.rs:23-36 | hands out the current number, then advances it, wrapping 65534 to 1 |
| Ping.EchoRequestLayout | src/ping.rs:37-73 | the request is 40 bytes; the identifier's high byte is 0; bytes 4..8 carry the identifier and the sequence number |
| Ping.ShortReplyPanics | src/ping.rs:120-128 | as written, a 4-byte echo-reply header passes the length guard but is read past its end |
| Ping.AsWrittenAgrees | src/ping.rs:120-128 | where the as-written check stays in bounds, it agrees with the guarded check |
| Ping.OwnReplyAccepted | src/ping.rs:120-128 | the reply to our own request passes the check with the identifier and sequence number we sent |
| Upstream.SchemeSplitSpec | src/resolves/mod.rs:37-42 | there is a scheme exactly when the input holds `://`; it is the text before the first `://`, and the rest runs up to the next one |
| Upstream.HostPortSpec | src/resolves/mod.rs:44-48 | the host holds no ':'; there is a port exactly when the rest holds a ':', and then the rest continues with ':' and the port |
| Upstream.DohUrlSpec | src/resolves/mod.rs:21-26 | the DoH URL always ends in `/dns-query`, starts with the server, and a second pass changes nothing |
| Upstream.TlsDefaultPort | src/resolves/mod.rs:16-18 | `tls://host` connects to `host:853` |
| Upstream.TlsExplicitPort | src/resolves/mod.rs:16-18 | `tls://host:port` connects to `host:port` |
| Upstream.TlsScheme | src/resolves/mod.rs:37-42 | after `tls://`, the address is the rest when it holds no ':' beyond one port separator |
| Upstream.PlainDefaultPort | src/resolves/mod.rs:29-31 | a bare host connects to `host:53` |
| Http1.ReadResponse | src/resolves/http/h1.rs:26-122 | the byte loop, then the body and the status code, compute `FromBytes` |
| Http1.FeedVersion | src/resolves/http/h1.rs:38-63 | `HTTP/1.1 ` takes the reader from the start to the status code |
| Http1.FeedStatus | src/resolves/http/h1.rs:64-81 | the code, a space, the text and CRLF take the reader to the first header name |
| Http1.FeedHeader | src/resolves/http/h1.rs:82-105 | one `name: value` line records the trimmed header and returns to reading a name |
| Http1.FeedHeaders | src/resolves/http/h1.rs:82-105 | the header lines record every header, in order |
| Http1.FeedEnd | src/resolves/http/h1.rs:82-92 | the blank line ends the head and leaves the body in the stream |
| Http1.CodeRoundTrip | src/resolves/http/h1.rs:115-117 | a status code written in decimal reads back when it fits a `u16` |
| Http1.ResponseRoundTrip | src/resolves/http/h1.rs:26-122 | reading a written response gives back its code, text, headers and body, when `content-length` is the body's length |
| Http1.FromBytesSpec | src/resolves/http/h1.rs:106-121 | a response read from a stream has a `u16` code and a `content-length` equal to its body's length, and the body is the bytes right after the head |
| Http1.NoProtocolRefused | src/resolves/http/h1.rs:38-50 | a stream not starting with an upper-case letter is refused |
| Http1.NoLengthRefused | src/resolves/http/h1.rs:106-113 | a head without `content-length` is refused |
| Http1.ShortBodyRefused | src/resolves/http/h1.rs:106-113 | a body shorter than its `content-length` is refused |
| Http1.MethodNameRoundTrip | src/resolves/http/h1.rs:146-160 | with the correction, every method is written as its RFC 9110 token, which reads back as that method |
| Http1.ParseMethodSpec | src/resolves/http/h1.rs:146-160 | exactly the standard tokens name a method |
| Http1.OptionAsWritten | src/resolves/http/h1.rs:146-160 | as written, `Option` goes out as `OPTION`, which names no method; every other method agrees |
| Http1.HeadHoldsHeaders | src/resolves/http/h1.rs:186-204 | the head holds a `name: value` line for every header, whatever the map's order |
| Http1.RequestBytesShape | src/resolves/http/h1.rs:186-204 | the request starts with its request line and ends with its body |
| Http1.Request.constructor | src/resolves/http/h1.rs:162-169 | a new request is GET, has an empty path and `accept: */*`, and has no body |
| Http1.Request.SetMethod | src/resolves/http/h1.rs:170-173 | sets only the method |
| Http1.Request.SetPath | src/resolves/http/h1.rs:174-177 | sets only the path |
| Http1.Request.Header | src/resolves/http/h1.rs:178-181 | sets the header to the trimmed value, replacing an earlier one, and changes nothing else |
| Http1.Request.SetBody | src/resolves/http/h1.rs:182-185 | sets only the body |
| Http1.Request.AsBytes | src/resolves/http/h1.rs:186-204 | writes the request line, one line per header in map order, a blank line, then the body |
| Handler.Reverse | src/handler.rs:206-231 | position `i` of the result holds position `len-1-i` of the input |
| Handler.ReverseReverse | src/handler.rs:206-231 | reversing twice gives the labels back |
| Handler.OctetsSpec | src/handler.rs:206-216 | succeeds exactly when every label is a `u8`, and then gives them in order |
| Handler.Chunks4 | src/handler.rs:217-231 | cuts the labels into runs of one to four labels |
| Handler.HextetsSpec | src/handler.rs:217-231 | succeeds exactly when every run is a hexadecimal `u16`, and then gives them in order |
| Handler.V4PtrNameRoundTrip | src/handler.rs:206-216 | the `in-addr.arpa` name of an IPv4 address decodes to that address |
| Handler.V6PtrNameRoundTrip | src/handler.rs:217-231 | the `ip6.arpa` name of an IPv6 address decodes to that address |
| Handler.ShortV4NamePanics | src/handler.rs:206-216 | as written, an `in-addr.arpa` name with three labels indexes past the parsed parts |
| Handler.ShortV4NameRefused | src/handler.rs:206-216 | with the correction, that name is refused and nothing is answered |
| Handler.ShortV6NamePanics | src/handler.rs:217-231 | as written, an `ip6.arpa` name with one nibble indexes past the parsed groups |
| Handler.ShortV6NameRefused | src/handler.rs:217-231 | with the correction, that name is refused and nothing is answered |
| Handler.NotReverseName | src/handler.rs:232-234 | a name under neither suffix is no reverse name |
| Handler.DecodeAgrees | src/handler.rs:206-231 | where the as-written decoding stays in bounds, it agrees with the corrected one |
| Handler.LocalReverse | src/handler.rs:199-245 | pushes at most one PTR record per query |
| Handler.LocalReverseSpec | src/handler.rs:199-245 | a PTR record is pushed exactly when the name decodes to an address with a hostname; it names the query and points at that hostname |
| Handler.QueryAnswersSpec | src/handler.rs:131-186 | every hosts answer to a query answers that query; queries other than A, AAAA and PTR get none |
| Handler.HostsAnswerA | src/handler.rs:137-160 | an A query for a name mapped to an IPv4 address is answered with it; one mapped to IPv6 gets no A answer |
| Handler.HostsAnswerAAAA | src/handler.rs:161-184 | the same for AAAA queries and IPv6 addresses |
| Handler.HostAnswersSpec | src/handler.rs:127-198 | every collected answer answers one of the queries |
| Handler.QueryAnswersOk | src/handler.rs:137-175 | the `Name::from_ascii` re-parse never fails, because `get_hosts` finds addresses only for a name that parses |
| Handler.HostAnswersOk | src/handler.rs:127-198 | so the lookup over all the queries never fails |
| Handler.HostsResponseSpec | src/handler.rs:188-197 | `None` exactly when no query got an answer; a response keeps the request's queries and carries the answers |
| Handler.ResolveFromHosts | src/handler.rs:127-198 | the loop over the queries computes `HostsResponse` |
| Handler.CacheAnswersSpec | src/handler.rs:246-274 | the reads keep the cache valid, and every record read has a TTL of at most `now` and the type of an A or AAAA query |
| Handler.OtherQueriesSkipCache | src/handler.rs:246-274 | queries of other types neither read nor change the cache |
| Handler.LookupDnsCache | src/handler.rs:246-274 | `None` with caching off; otherwise the answer and the new store are `CacheResponse` of the old store |
| Handler.Allows | src/handler.rs:288-324 | a record without an IPv6 address is allowed; one with an IPv6 address is allowed exactly when its verdict task answered true |
| Handler.KeepSpec | src/handler.rs:288-324 | the filter keeps the items at the set positions, in increasing order, and a position is kept exactly when its flag is set |
| Handler.ResolutionSpec | src/handler.rs:288-324 | records without an IPv6 address are kept; one with an IPv6 address is kept exactly when its verdict is true; the survivors keep their order |
| Handler.Resolution | src/handler.rs:288-324 | the filter loop over the verdict outcomes computes `Keep` with `Allows` |
| Handler.HostsFirst | src/handler.rs:69-83 | a hosts answer wins, and the cache is not read |
| Handler.CacheSecond | src/handler.rs:84-97 | without a hosts answer, records read from the cache win over forwarding |
| Handler.ForwardedSpec | src/handler.rs:98-124 | a forwarded response is sent only with caching off (with caching on, `cache_dns_record` reaches `todo!()`, the `Unimplemented` outcome); it is filtered only when some query asks for AAAA, exactly as `resolution` filters |
| Handler.Handle | src/handler.rs:54-124 | the outcome and the new store are `HandleSpec` of the old store: hosts, then the cache, then the forwarded response |
| Handler.JoinWithSnoc | src/handler.rs:362-375 | joining one more part appends the separator and the part |
| Handler.FormatQueriesSnoc | src/handler.rs:362-375 | one more query adds `"; "` and its text after what was there |
| Handler.ItemLines | src/handler.rs:402-408 | one indented line per answer item, ending in `;` |
| Handler.TerminatedJoin | src/handler.rs:402-410 | newline-terminated lines are the joined lines plus one newline |
| Records.SoaTextFields | src/handler.rs:390 | the SOA text written after `, mname` splits at its spaces back into the record's seven fields in order, and the serial and minimum read back as their values |
| Handler.FormatItemsSpec | src/handler.rs:397-411 | no answers read `<None>`; one answer reads as itself; several answers split into an empty first line, then one indented `item;` line each |
| Handler.JoinEndsWithLast | src/handler.rs:402-410 | a join ends as its last part does |
| Handler.CauseLines | src/handler.rs:347-360 | one indented `Caused by:` line per cause, in order |
| Handler.FormatErrSpec | src/handler.rs:347-360 | the lines are the top message, then one indented `Caused by:` line per cause in order, or one empty line when there is no cause |

## Left out

- File system, GeoIP and clock: the file system (hosts files, directories, GeoIP databases), the GeoIP lookup and the clock are parameters (`Env`, `GeoDb`, `now`). Reading a file, opening a database and measuring time are not modelled.
- Network I/O: the UDP/TCP server loop, forwarding to upstreams (plain, DNS over TLS, DNS over HTTPS), the 60-second timeouts and the ICMP socket are outside the model. The upstream's answer and the ping probe's outcome are inputs. `src/server.rs`, `src/main.rs`, `src/logs`, `src/resolves/dot.rs`, `src/resolves/doh.rs` and `src/resolves/default.rs` are not part of this model.
- Concurrency: the verdict tasks of `resolution` run concurrently in the source. The model takes their outcomes as a sequence, where a failed task is `None`. Mutex poisoning is not modelled, so `Cache.RecordCache.Access` always succeeds.
- Config reload: `Config::new`, `reload`, the watched paths and the shared `access` wrapper are not modelled. `ConfigParse.ParseInner` is the parse they call.
- Iteration order: `HashMap` iteration order is a parameter (`order`) wherever the source iterates a map, as in group attribution and request headers.
- DNS wire format: message wire encoding (`to_vec`, `send_ret`) is not modelled. Messages are values. The DNS class is always IN.
- Domain names: a name is its labels and its fully-qualified flag. `Name::from_ascii` (`DnsName.FromAscii`) refuses an empty inner label, a label over 63 characters, and a label holding any character other than an ASCII letter or digit, '_', '-' after the first position and '*' in the first position. So `1.2.3.4 foo bar` fails as a hosts line. Not modelled: the 255-octet limit on a whole name, escapes (`\.` and `\DDD`) and internationalised names. `==` (`PartialEq`, `DnsName.EqIgnoreCase`) compares labels ignoring ASCII case; `eq_case` (`DnsName.EqCase`) compares them exactly. `==` also requires both names to be fully qualified or neither; `eq_case` does not look at that flag. So an inline `[hosts]` entry written without a trailing '.' never answers a query, whose name from the wire is fully qualified (`Config.UnqualifiedEntriesMiss`), while the entries of a hosts file, which `read_hosts` completes with a '.', do.
- Display formatting: displaying an IP address is a parameter (`addrText`) of the answer formatter. Record types other than the modelled ones display as `Unknown`. An SOA answer writes the whole `rdata::SOA` (`Records.SoaText`: the primary server, the responsible mailbox, the serial, refresh, retry, expire and minimum, separated by spaces), as hickory-proto's `Display` for `SOA` does. `format_err` takes the error chain as a list of messages.
- Error messages: these are approximated. The scanner errors are modelled with the program's own text, `"{err} in line {at}:{col}"`, where `at` is the row in a section parser and the trimmed line in `read_hosts`. Where the source lets a library choose the message (`IpAddr::from_str`, `u32::from_str`), the model uses one fixed text per error kind.
- Tracing: log output is left out, apart from the formatting helpers.
- Groups.ParseCidrPart: a prefix length of 0 is modelled as an error. In a debug build the source's shift `1 << 32` panics; a release build would wrap instead. The masks are computed arithmetically (block start and end by division) rather than with bit operations.
- Ping.CalculateChecksum: the sum is an unbounded integer. The source's `u32` sum cannot overflow for the 40-byte packets it builds.
- Cache.CallEach: the source's stateful `FnMut` closure in `with_index` is modelled as a class holding a pure function of the count.
- Cache.Store.Put: the LRU eviction is modelled as removing the least recently used domain. The source crate's internal linked list is not modelled.
- LogSection.ParseLevel: `tracing::Level::from_str` is modelled as a number from 1 to 5 or a level name in any ASCII case. `to_lowercase` is modelled for ASCII only.
- Config.HostLines: reads each line with the corrected `Config.HostLine` of the first "## Findings" row, so a blank or whitespace-only line adds no entry. The source skips only lines starting with '#' (`Config.HostLinesAsWritten`).
- Config.ReadHosts: computes `ReadHostsSpec`, which uses the corrected line reading. So an `@include` or `addn-host` file with a blank line succeeds in the model (`HostsSection.IncludeHosts`, `MetadataSection.AddnHostItem`). In the source that line makes the whole configuration fail (`Config.BlankLineFailsAsWritten`).
- Handler.LocalReverse: decodes with the corrected `DecodeReverse` of the last "## Findings" row. An `in-addr.arpa` name with fewer than four labels, or an `ip6.arpa` name with fewer than eight runs of four nibbles, is an error that is logged and skipped. The source panics at src/handler.rs:216 or src/handler.rs:229-231, and that request's task ends without a response (`DecodeReverseAsWritten` gives `None`).
- Handler.LocalReverseSpec: states the corrected decoding, as `Handler.LocalReverse` does; the panic on short reverse names is stated only by `Handler.ShortV4NamePanics`, `Handler.ShortV6NamePanics` and `DecodeReverseAsWritten`.
- Handler.ResolveFromHosts: for a PTR query with a short reverse name the model returns the other answers; the source's task panics there (see `Handler.LocalReverse`).
- Handler.Handle: `HandleSpec` has no outcome for the panic on a short reverse name. Such a PTR query goes on to the cache and the upstream in the model, while in the source the task panics and nothing is sent.
- Http1.Request.AsBytes: writes the corrected method token of the third "## Findings" row, `OPTIONS`, for `Method::Option`. The source's `Display` writes `OPTION` (`Http1.OptionAsWritten`); no caller in the source sets that method.
- Http1.RequestBytesShape: states the request line with the corrected method token, as `Http1.Request.AsBytes` does.
- Cache.Clean: the test `ttl <= now` of `clean_expired` is modelled as written: a record is kept when its TTL is at most `now`. In the source `now` is seconds since the Unix epoch and a TTL is a duration, so any realistic record passes the test. No insertion time is stored, so the model promises nothing about a record leaving the cache once its TTL has elapsed.
- Handler.ResolveFromHosts: `DnsName.FromAscii` stands for both `Name::from_str` (in `get_hosts`) and `Name::from_ascii` (in `resolve_from_hosts`). So in the model the `?` after the re-parse is never taken. `get_hosts` returns an `anyhow::Result<Vec<IpAddr>>`, and the `IpAddr` patterns after `into_iter` at src/handler.rs:138-147 and src/handler.rs:162-171 do not match its items as written. The model reads the chain as iterating the flattened address list: an `Ok` gives its addresses and an `Err` gives none.
- MetadataSection.PushLoop: the list of `default` is built in a local and stored once when the loop ends. In the source each push goes straight into the map; the final state is the same.

## Findings

| source | as written | input that shows it | evidently intended | confidence | as-written member | corrected member |
|---|---|---|---|---|---|---|
| src/config/mod.rs:262-277 | `read_hosts` turns a blank line into an entry with an empty address text and the root name. Parsing that address then fails the whole `@include` or `addn-host` file. | a hosts file with an empty line between two entries | blank lines are skipped, like comment lines | not executed | Config.BlankLineFailsAsWritten | Config.IgnoredHostLine |
| src/ping.rs:120-128 | the echo-reply check guards `len >= 4` but reads bytes up to index 7 | an ICMP payload of 4 bytes `[0, 0, 0, 0]` | the guard requires 8 bytes, so short replies are rejected | not executed | Ping.ShortReplyPanics | Ping.OwnReplyAccepted |
| src/resolves/http/h1.rs:149 | the `Option` method is written as `OPTION` | a request built with method `Option` | `OPTIONS`, the token of section 9.3.7 of RFC 9110 | not executed | Http1.OptionAsWritten | Http1.MethodNameRoundTrip |
| src/handler.rs:206-231 | an `in-addr.arpa` name with fewer than four labels parses every label, then indexes `parts[3]`; likewise an `ip6.arpa` name with fewer than eight runs of four nibbles indexes `parts[7]` (`DecodeV6AsWritten`, `Handler.ShortV6NamePanics`) | a PTR query for `1.168.192.in-addr.arpa` | the name is refused, and no PTR record is answered | not executed | Handler.ShortV4NamePanics | Handler.ShortV4NameRefused |
