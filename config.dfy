/**
 * The parsed configuration (`Inner` in `src/config/mod.rs`) and the lookups
 * the request handler makes in it: which group a client belongs to, which
 * upstream servers and which local host entries that group sees, and whether
 * an AAAA answer may be given. Also the hosts-file reader shared by the
 * `[hosts]` and `[metadata]` sections, and the section-header parser.
 */
module Config {
  import opened Wrappers
  import opened Text
  import opened Net
  import opened DnsName
  import opened Groups
  import opened Rules
  import Scanner

  /** The group every client falls back to. */
  const DEFAULT_GROUP: string := "default"

  /** `Metadata`: the add-on hosts file, the cache size, the bind address, the GeoIP database and the access-log switch. */
  datatype Metadata = Metadata(addnHost: Option<string>, cacheSize: nat, bind: string, mmdb: Option<GeoDb>, accessLog: bool)

  /** `Metadata::default`: no add-on hosts, no cache, no bind address, no GeoIP database, access log on. */
  const DEFAULT_METADATA: Metadata := Metadata(None, 0, "", None, true)

  /** A host entry: an address and the name it answers for. */
  type HostEntry = (IpAddr, Name)

  /** The contents of an `Inner`, as one value: what the handler reads. */
  datatype Tables = Tables(
    groups: map<string, seq<IpRange>>,
    servers: map<string, seq<string>>,
    hosts: map<string, seq<HostEntry>>,
    metadata: Metadata,
    ipv6Resolution: map<string, seq<Resolution>>)

  /** What `Inner::parse` starts from: empty tables and the default metadata. */
  const EMPTY: Tables := Tables(map[], map[], map[], DEFAULT_METADATA, map[])

  /** `Inner`: the tables the section parsers fill in place. */
  class Inner {
    var groups: map<string, seq<IpRange>>
    var servers: map<string, seq<string>>
    var hosts: map<string, seq<HostEntry>>
    var metadata: Metadata
    var ipv6Resolution: map<string, seq<Resolution>>

    constructor()
      ensures View() == EMPTY
    {
      groups := map[];
      servers := map[];
      hosts := map[];
      metadata := DEFAULT_METADATA;
      ipv6Resolution := map[];
    }

    function View(): Tables
      reads this
    {
      Tables(groups, servers, hosts, metadata, ipv6Resolution)
    }
  }

  /**
   * How a section parser's effect on an `Inner` is stated: when the parse of
   * its tables succeeds, the parser answers `Ok` and the tables become the
   * parse's result; otherwise it answers the same error and leaves `failed`.
   */
  predicate Applied(res: Result<Unit>, spec: Result<Tables>, failed: Tables, after: Tables) {
    match spec
    case Ok(t) => res == Ok(Unit) && after == t
    case Err(e) => res == Err(e) && after == failed
  }

  /**
   * The file system as the parser sees it: the text of each readable file,
   * the directories, and the files that open as a GeoIP database.
   */
  datatype Env = Env(files: map<string, string>, dirs: set<string>, mmdbs: map<string, GeoDb>)

  // ---- match_ipaddr and attribute_group ----

  /** `match_ipaddr`: equal addresses, or an IPv4 address and its IPv4-mapped IPv6 form, in either order. */
  predicate MatchIpAddr(a: IpAddr, b: IpAddr) {
    match (a, b)
    case (V4(x), V6(y)) => MapV4(x) == y
    case (V6(y), V4(x)) => MapV4(x) == y
    case _ => a == b
  }

  /** Two addresses match exactly when their IPv6-mapped forms agree; so matching is symmetric. */
  lemma {:induction false} MatchIpAddrMapped(a: IpAddr, b: IpAddr)
    ensures MatchIpAddr(a, b) <==> ToIpv6Mapped(a) == ToIpv6Mapped(b)
    ensures MatchIpAddr(a, b) == MatchIpAddr(b, a)
  {
    if a.V4? && b.V4? {
      MapV4Order(a.v4, b.v4);
    }
  }

  /**
   * One group entry against a client address: a single address by
   * `MatchIpAddr`; a range only when it is not empty, and then half-open,
   * `start <= a < end`, with an IPv4 client first mapped to IPv6.
   */
  predicate RangeMatches(r: IpRange, addr: IpAddr) {
    match r
    case Single(s) => MatchIpAddr(s, addr)
    case Range(s, e) =>
      Less(s, e) && LessEq(s, ToIpv6Mapped(addr)) && Less(ToIpv6Mapped(addr), e)
  }

  predicate AnyMatches(ranges: seq<IpRange>, addr: IpAddr) {
    exists i :: 0 <= i < |ranges| && RangeMatches(ranges[i], addr)
  }

  /** An empty range (`end <= start`) matches no address. */
  lemma EmptyRangeMatchesNothing(s: IpAddr, e: IpAddr, addr: IpAddr)
    requires !Less(s, e)
    ensures !RangeMatches(Range(s, e), addr)
  {
  }

  /**
   * An IPv4 client matches the range stored for `x/prefix` exactly when it
   * agrees with `x` on the leading `prefix` bits and is not the block's last
   * address (the stored range is half-open), so a /32 block matches nobody.
   */
  lemma CidrRangeMatchesV4(x: U32, prefix: nat, y: U32)
    requires 1 <= prefix <= 32
    ensures RangeMatches(CidrRangeV4(x, prefix), V4(y))
      <==> y / Pow2(32 - prefix) == x / Pow2(32 - prefix) && y != CidrV4(x, prefix).1
  {
    var (lo, hi) := CidrV4(x, prefix);
    BlockMembers(x, 32, prefix, y);
    MapV4Order(lo, y);
    MapV4Order(y, hi);
    MapV4Order(lo, hi);
  }

  /** The same for an IPv6 client and an IPv6 block. */
  lemma CidrRangeMatchesV6(x: U128, prefix: nat, y: U128)
    requires 1 <= prefix <= 128
    ensures RangeMatches(CidrRangeV6(x, prefix), V6(y))
      <==> y / Pow2(128 - prefix) == x / Pow2(128 - prefix) && y != CidrV6(x, prefix).1
  {
    BlockMembers(x, 128, prefix, y);
  }

  /** A block written as `a/p` in a group's value matches exactly the clients `CidrRangeMatchesV4` describes. */
  lemma WrittenBlockMatchesV4(a: string, x: U32, p: nat, y: U32)
    requires '/' !in a && '-' !in a && ParseIpAddr(a) == Some(V4(x)) && 1 <= p <= 32
    ensures ParsePart(a + "/" + NatToString(p)).Ok?
    ensures RangeMatches(ParsePart(a + "/" + NatToString(p)).value, V4(y))
      <==> y / Pow2(32 - p) == x / Pow2(32 - p) && y != CidrV4(x, p).1
  {
    ParseCidrText(a, V4(x), p);
    CidrRangeMatchesV4(x, p, y);
  }

  /**
   * The first group in `order` (the map's iteration order) that has an
   * entry matching `addr`, or `default` when none has.
   */
  function FirstGroup(groups: map<string, seq<IpRange>>, order: seq<string>, addr: IpAddr): string {
    if order == [] then DEFAULT_GROUP
    else if order[0] in groups && AnyMatches(groups[order[0]], addr) then order[0]
    else FirstGroup(groups, order[1..], addr)
  }

  /** `attribute_group`, with `order` enumerating the groups in the map's (unspecified) iteration order. */
  function AttributeGroup(c: Tables, addr: IpAddr, order: seq<string>): string
    requires forall g :: g in c.groups <==> g in order
  {
    FirstGroup(c.groups, order, addr)
  }

  lemma {:induction false} FirstGroupSpec(groups: map<string, seq<IpRange>>, order: seq<string>, addr: IpAddr)
    ensures var g := FirstGroup(groups, order, addr);
      g == DEFAULT_GROUP || (g in order && g in groups && AnyMatches(groups[g], addr))
    ensures var g := FirstGroup(groups, order, addr);
      (exists k :: k in order && k in groups && AnyMatches(groups[k], addr)) ==> g in groups && AnyMatches(groups[g], addr)
  {
    if order != [] {
      FirstGroupSpec(groups, order[1..], addr);
      if !(order[0] in groups && AnyMatches(groups[order[0]], addr)) {
        assert forall k :: k in order && k != order[0] ==> k in order[1..];
      }
    }
  }

  /**
   * The client is attributed to a group with a matching entry whenever some
   * group has one, and to `default` only when no group has one (or when the
   * matching group is itself called `default`).
   */
  lemma AttributeGroupSpec(c: Tables, addr: IpAddr, order: seq<string>)
    requires forall g :: g in c.groups <==> g in order
    ensures var g := AttributeGroup(c, addr, order);
      g == DEFAULT_GROUP || (g in c.groups && AnyMatches(c.groups[g], addr))
    ensures var g := AttributeGroup(c, addr, order);
      (exists k :: k in c.groups && AnyMatches(c.groups[k], addr)) <==> g in c.groups && AnyMatches(c.groups[g], addr)
  {
    FirstGroupSpec(c.groups, order, addr);
  }

  // ---- get_server, get_hosts, get_hostname ----

  /** `get_server`: the group's upstream list, or the `default` list when the group has none. */
  function GetServer(c: Tables, group: string): (r: seq<string>)
    requires DEFAULT_GROUP in c.servers
    ensures group in c.servers ==> r == c.servers[group]
    ensures group !in c.servers ==> r == c.servers[DEFAULT_GROUP]
  {
    c.servers[if group in c.servers then group else DEFAULT_GROUP]
  }

  function Entries(hosts: map<string, seq<HostEntry>>, group: string): seq<HostEntry> {
    if group in hosts then hosts[group] else []
  }

  /** The host entries a group sees: its own, then those of `default`. */
  function HostChain(c: Tables, group: string): seq<HostEntry> {
    Entries(c.hosts, group) + Entries(c.hosts, DEFAULT_GROUP)
  }

  /** The index of the first entry whose name equals `n` under `==` (same qualification, labels ignoring ASCII case). */
  function FirstNamed(es: seq<HostEntry>, n: Name): (r: Option<nat>)
    ensures r.Some? ==> (r.value < |es| && EqIgnoreCase(es[r.value].1, n)
      && forall j :: 0 <= j < r.value ==> !EqIgnoreCase(es[j].1, n))
    ensures r.None? ==> forall j :: 0 <= j < |es| ==> !EqIgnoreCase(es[j].1, n)
  {
    if es == [] then None
    else if EqIgnoreCase(es[0].1, n) then Some(0)
    else match FirstNamed(es[1..], n)
      case None => None
      case Some(i) => Some(i + 1)
  }

  /** The index of the first entry for address `a`. */
  function FirstAddressed(es: seq<HostEntry>, a: IpAddr): (r: Option<nat>)
    ensures r.Some? ==> (r.value < |es| && es[r.value].0 == a
      && forall j :: 0 <= j < r.value ==> es[j].0 != a)
    ensures r.None? ==> forall j :: 0 <= j < |es| ==> es[j].0 != a
  {
    if es == [] then None
    else if es[0].0 == a then Some(0)
    else match FirstAddressed(es[1..], a)
      case None => None
      case Some(i) => Some(i + 1)
  }

  /**
   * `get_hosts`: the domain must parse as a name; the answer is the address
   * of the first entry for that name, the group's entries before `default`'s.
   */
  function GetHosts(c: Tables, group: string, domain: string): (r: Result<seq<IpAddr>>)
    ensures r.Ok? <==> FromAscii(domain).Ok?
    ensures r.Ok? ==> |r.value| <= 1
  {
    match FromAscii(domain)
    case Err(_) => Err("Failed parse '" + domain + "' to Name")
    case Ok(n) =>
      var es := HostChain(c, group);
      match FirstNamed(es, n)
      case None => Ok([])
      case Some(i) => Ok([es[i].0])
  }

  /**
   * A fully-qualified query name, which is what a name from the wire reads
   * back as, finds no entry whose name is not fully qualified: `==` on
   * `Name` compares the flag, so such entries never answer.
   */
  lemma UnqualifiedEntriesMiss(c: Tables, group: string, n: Name)
    requires Valid(n) && n.fqdn && n.labels != []
    requires forall j :: 0 <= j < |HostChain(c, group)| ==> !HostChain(c, group)[j].1.fqdn
    ensures GetHosts(c, group, ToUtf8(n)) == Ok([])
  {
    ToUtf8RoundTrip(n);
  }

  /**
   * The group's own entries take precedence: when one of them names the
   * domain, the answer is the first such, and `default`'s entries are used
   * only when none of the group's does. An empty answer means no entry names it.
   */
  lemma {:induction false} GetHostsPrecedence(c: Tables, group: string, domain: string)
    requires FromAscii(domain).Ok?
    ensures var n := FromAscii(domain).value; var own := Entries(c.hosts, group);
      var r := GetHosts(c, group, domain).value;
      (forall j :: 0 <= j < |own| ==> !EqIgnoreCase(own[j].1, n)) ==>
        r == GetHosts(c.(hosts := c.hosts - {group}), group, domain).value
    ensures var n := FromAscii(domain).value; var own := Entries(c.hosts, group);
      var r := GetHosts(c, group, domain).value;
      forall j :: (0 <= j < |own| && EqIgnoreCase(own[j].1, n)
        && (forall k :: 0 <= k < j ==> !EqIgnoreCase(own[k].1, n))) ==> r == [own[j].0]
    ensures var n := FromAscii(domain).value; var es := HostChain(c, group);
      GetHosts(c, group, domain).value == [] <==> forall j :: 0 <= j < |es| ==> !EqIgnoreCase(es[j].1, n)
  {
    var n := FromAscii(domain).value;
    var own := Entries(c.hosts, group);
    var es := HostChain(c, group);
    if forall j :: 0 <= j < |own| ==> !EqIgnoreCase(own[j].1, n) {
      var c' := c.(hosts := c.hosts - {group});
      var es' := HostChain(c', group);
      if group == DEFAULT_GROUP {
        assert es == own + own && es' == [];
        assert forall j :: 0 <= j < |es| ==> !EqIgnoreCase(es[j].1, n) by {
          forall j | 0 <= j < |es| ensures !EqIgnoreCase(es[j].1, n) {
            if j >= |own| { assert es[j] == own[j - |own|]; }
          }
        }
      } else {
        assert es' == Entries(c.hosts, DEFAULT_GROUP);
        FirstNamedSkip(own, es', n);
      }
    }
    forall j | 0 <= j < |own| && EqIgnoreCase(own[j].1, n) && (forall k :: 0 <= k < j ==> !EqIgnoreCase(own[k].1, n))
      ensures GetHosts(c, group, domain).value == [own[j].0]
    {
      FirstNamedPrefix(own, Entries(c.hosts, DEFAULT_GROUP), n, j);
    }
  }

  lemma {:induction false} FirstNamedSkip(p: seq<HostEntry>, q: seq<HostEntry>, n: Name)
    requires forall j :: 0 <= j < |p| ==> !EqIgnoreCase(p[j].1, n)
    ensures match FirstNamed(p + q, n)
      case None => FirstNamed(q, n).None?
      case Some(i) => FirstNamed(q, n).Some? && (p + q)[i] == q[FirstNamed(q, n).value]
  {
    var s := FirstNamed(p + q, n);
    if s.Some? {
      assert s.value >= |p|;
      var t := FirstNamed(q, n);
      assert (p + q)[s.value] == q[s.value - |p|];
      if t.None? {
        assert false;
      } else {
        assert (p + q)[t.value + |p|] == q[t.value];
        assert t.value + |p| == s.value;
      }
    } else {
      forall j | 0 <= j < |q| ensures !EqIgnoreCase(q[j].1, n) {
        assert (p + q)[j + |p|] == q[j];
      }
    }
  }

  lemma {:induction false} FirstNamedPrefix(p: seq<HostEntry>, q: seq<HostEntry>, n: Name, j: nat)
    requires j < |p| && EqIgnoreCase(p[j].1, n) && forall k :: 0 <= k < j ==> !EqIgnoreCase(p[k].1, n)
    ensures FirstNamed(p + q, n) == Some(j)
  {
    var s := FirstNamed(p + q, n);
    assert (p + q)[j] == p[j];
    assert s.Some? && s.value <= j;
  }

  /** `get_hostname`: the text of the first name recorded for the address, the group's entries first. */
  function GetHostname(c: Tables, group: string, addr: IpAddr): (r: Option<string>)
    ensures r.None? <==> forall j :: 0 <= j < |HostChain(c, group)| ==> HostChain(c, group)[j].0 != addr
    ensures r.Some? ==> exists j :: (0 <= j < |HostChain(c, group)| && HostChain(c, group)[j].0 == addr
      && r.value == ToUtf8(HostChain(c, group)[j].1))
  {
    var es := HostChain(c, group);
    match FirstAddressed(es, addr)
    case None => None
    case Some(i) => Some(ToUtf8(es[i].1))
  }

  // ---- is_allow_ipv6 ----

  function GroupRules(c: Tables, group: string): seq<Resolution> {
    if group in c.ipv6Resolution then c.ipv6Resolution[group] else []
  }

  /** The rules a group's query is checked against: its own, then `default`'s. */
  function RuleChain(c: Tables, group: string): seq<Resolution> {
    GroupRules(c, group) + GroupRules(c, DEFAULT_GROUP)
  }

  /** The index of the first rule whose payload matches `domain`. */
  function FirstApplicable(rules: seq<Resolution>, domain: Name): (r: Option<nat>)
    ensures r.Some? ==> (r.value < |rules| && PayloadMatch(rules[r.value], domain)
      && forall j :: 0 <= j < r.value ==> !PayloadMatch(rules[j], domain))
    ensures r.None? ==> forall j :: 0 <= j < |rules| ==> !PayloadMatch(rules[j], domain)
  {
    if rules == [] then None
    else if PayloadMatch(rules[0], domain) then Some(0)
    else match FirstApplicable(rules[1..], domain)
      case None => None
      case Some(i) => Some(i + 1)
  }

  /** A country rule is only ever stored when a GeoIP database is loaded. */
  predicate CountryRulesHaveDb(c: Tables) {
    forall g, i :: (g in c.ipv6Resolution && 0 <= i < |c.ipv6Resolution[g]|
      && c.ipv6Resolution[g][i].directive.Country?) ==> c.metadata.mmdb.Some?
  }

  /**
   * What `is_allow_ipv6` answers: the verdict of the first rule whose payload
   * matches the queried name, and true when no rule matches.
   */
  function AllowIpv6(c: Tables, group: string, domain: Name, addr: IpAddr, cached: map<IpAddr, bool>, probe: IpAddr -> bool): bool
    requires CountryRulesHaveDb(c)
  {
    var rules := RuleChain(c, group);
    match FirstApplicable(rules, domain)
    case None => true
    case Some(i) =>
      assert rules[i] in GroupRules(c, group) || rules[i] in GroupRules(c, DEFAULT_GROUP);
      Verdict(rules[i], addr, c.metadata.mmdb, cached, probe)
  }

  /**
   * Only the first applicable rule counts: a later rule, even a deny, never
   * overrides it; with no applicable rule the answer is allow; and a group's
   * own rule is consulted before any rule of `default`.
   */
  lemma {:induction false} FirstRuleDecides(c: Tables, group: string, domain: Name, addr: IpAddr, cached: map<IpAddr, bool>, probe: IpAddr -> bool, extra: seq<Resolution>)
    requires CountryRulesHaveDb(c)
    requires FirstApplicable(GroupRules(c, group), domain).Some?
    requires group != DEFAULT_GROUP
    requires CountryRulesHaveDb(c.(ipv6Resolution := c.ipv6Resolution[DEFAULT_GROUP := extra]))
    ensures AllowIpv6(c, group, domain, addr, cached, probe)
      == AllowIpv6(c.(ipv6Resolution := c.ipv6Resolution[DEFAULT_GROUP := extra]), group, domain, addr, cached, probe)
  {
    var c' := c.(ipv6Resolution := c.ipv6Resolution[DEFAULT_GROUP := extra]);
    assert GroupRules(c', group) == GroupRules(c, group);
    var j := FirstApplicable(GroupRules(c, group), domain).value;
    RuleChainPrefix(GroupRules(c, group), GroupRules(c, DEFAULT_GROUP), domain, j);
    RuleChainPrefix(GroupRules(c, group), GroupRules(c', DEFAULT_GROUP), domain, j);
  }

  lemma {:induction false} RuleChainPrefix(p: seq<Resolution>, q: seq<Resolution>, domain: Name, j: nat)
    requires j < |p| && PayloadMatch(p[j], domain) && forall k :: 0 <= k < j ==> !PayloadMatch(p[k], domain)
    ensures FirstApplicable(p + q, domain) == Some(j) && (p + q)[j] == p[j]
  {
    var s := FirstApplicable(p + q, domain);
    assert (p + q)[j] == p[j];
  }

  /** With no rule for the name, AAAA answers are allowed. */
  lemma NoRuleAllows(c: Tables, group: string, domain: Name, addr: IpAddr, cached: map<IpAddr, bool>, probe: IpAddr -> bool)
    requires CountryRulesHaveDb(c)
    requires forall j :: 0 <= j < |RuleChain(c, group)| ==> !PayloadMatch(RuleChain(c, group)[j], domain)
    ensures AllowIpv6(c, group, domain, addr, cached, probe)
  {
  }

  /** `is_allow_ipv6`: the rules are tried in order; the first applicable one is checked, and its verdict is the answer. */
  method IsAllowIpv6(c: Tables, group: string, domain: Name, addr: IpAddr, cache: PingCache, probe: IpAddr -> bool)
    returns (allowed: bool)
    requires CountryRulesHaveDb(c) && cache.Valid()
    modifies cache
    ensures cache.Valid()
    ensures allowed == AllowIpv6(c, group, domain, addr, old(cache.verdicts), probe)
  {
    var rules := RuleChain(c, group);
    var i := 0;
    while i < |rules|
      invariant 0 <= i <= |rules|
      invariant forall j :: 0 <= j < i ==> !PayloadMatch(rules[j], domain)
      invariant cache.Valid() && cache.verdicts == old(cache.verdicts)
    {
      if PayloadMatch(rules[i], domain) {
        assert FirstApplicable(rules, domain) == Some(i);
        assert rules[i] in GroupRules(c, group) || rules[i] in GroupRules(c, DEFAULT_GROUP);
        allowed := CheckIsAllow(rules[i], addr, c.metadata.mmdb, cache, probe);
        return;
      }
      i := i + 1;
    }
    allowed := true;
  }

  // ---- parse_section ----

  datatype Section = GroupSection | ServerSection | HostSection(sub: string) | MetadataSection
    | Ipv6ResolutionSection | UnknownSection(name: string)

  /** `parse_section`: the first '.'-separated segment picks the section; `hosts.<group>` names a group, plain `hosts` means `default`. */
  function ParseSection(name: string): (s: Section)
  {
    var parts := Split(name, '.');
    match parts[0]
    case "group" => GroupSection
    case "server" => ServerSection
    case "hosts" => HostSection(if |parts| > 1 then parts[1] else DEFAULT_GROUP)
    case "metadata" => MetadataSection
    case "ipv6_resolution" => Ipv6ResolutionSection
    case _ => UnknownSection(parts[0])
  }

  predicate KnownName(n: string) {
    n in {"group", "server", "hosts", "metadata", "ipv6_resolution"}
  }

  /** The header text of a section (without the brackets). */
  function SectionName(s: Section): string {
    match s
    case GroupSection => "group"
    case ServerSection => "server"
    case HostSection(sub) => "hosts." + sub
    case MetadataSection => "metadata"
    case Ipv6ResolutionSection => "ipv6_resolution"
    case UnknownSection(n) => n
  }

  /** A header written for a section reads back as that section. */
  lemma {:induction false} ParseSectionName(s: Section)
    requires s.HostSection? ==> '.' !in s.sub
    requires s.UnknownSection? ==> '.' !in s.name && !KnownName(s.name)
    ensures ParseSection(SectionName(s)) == s
  {
    match s
    case HostSection(sub) => ParseHostsHeader(sub);
    case UnknownSection(n) => ParseUnknownHeader(n);
    case GroupSection => ParseGroupHeader();
    case ServerSection => ParseServerHeader();
    case MetadataSection => ParseMetadataHeader();
    case Ipv6ResolutionSection => ParseIpv6ResolutionHeader();
  }

  lemma ParseGroupHeader() ensures ParseSection("group") == GroupSection {
    assert Split("group", '.') == ["group"];
  }

  lemma ParseServerHeader() ensures ParseSection("server") == ServerSection {
    assert Split("server", '.') == ["server"];
  }

  lemma ParseMetadataHeader() ensures ParseSection("metadata") == MetadataSection {
    assert Split("metadata", '.') == ["metadata"];
  }

  lemma ParseIpv6ResolutionHeader() ensures ParseSection("ipv6_resolution") == Ipv6ResolutionSection {
    Ipv6ResolutionName();
    ParsePlainName("ipv6_resolution");
  }

  lemma Ipv6ResolutionName()
    ensures '.' !in "ipv6_resolution"
    ensures "ipv6_resolution" != "group" && "ipv6_resolution" != "server"
    ensures "ipv6_resolution" != "hosts" && "ipv6_resolution" != "metadata"
  {
    var n := "ipv6_resolution";
    assert |n| == 15;
    assert forall i :: 0 <= i < |n| ==> n[i] != '.';
  }

  /** A header without '.' is read as a whole. */
  lemma ParsePlainName(n: string)
    requires '.' !in n
    ensures ParseSection(n) == match n
      case "group" => GroupSection
      case "server" => ServerSection
      case "hosts" => HostSection(DEFAULT_GROUP)
      case "metadata" => MetadataSection
      case "ipv6_resolution" => Ipv6ResolutionSection
      case _ => UnknownSection(n)
  {
    assert Split(n, '.') == [n];
  }

  lemma ParseUnknownHeader(n: string)
    requires '.' !in n && !KnownName(n)
    ensures ParseSection(n) == UnknownSection(n)
  {
    assert Split(n, '.') == [n];
  }

  lemma {:induction false} ParseHostsHeader(sub: string)
    requires '.' !in sub
    ensures ParseSection("hosts." + sub) == HostSection(sub)
  {
    SplitPrefix("hosts", sub, '.');
    assert "hosts." + sub == "hosts" + ['.'] + sub;
  }

  // ---- read_hosts ----

  /**
   * One line of a hosts file, trimmed: a comment or a blank line gives no
   * entry; otherwise the scanned key is the address text and the value,
   * made fully qualified, must parse as a name.
   */
  function HostLine(line: string): (r: Result<Option<(string, Name)>>)
  {
    var t := Trim(line);
    if t == "" || StartsWith(t, "#") then Ok(None)
    else HostPair(t)
  }

  /** The scanned pair of a hosts-file line, the value with a '.' appended unless it ends with one. */
  function HostPair(t: string): Result<Option<(string, Name)>> {
    match Scanner.ParseKeyValuePair(t)
    case Failed(e) => Err(Scanner.MessageAt(e, t))
    case Pair(key, value, _) =>
      var fqdn := if EndsWith(value, ".") then value else value + ".";
      match FromAscii(fqdn)
      case Err(e) => Err(e)
      case Ok(n) => Ok(Some((key, n)))
  }

  /** `read_hosts` as written: only lines starting with '#' are skipped. */
  function HostLineAsWritten(line: string): Result<Option<(string, Name)>> {
    var t := Trim(line);
    if StartsWith(t, "#") then Ok(None) else HostPair(t)
  }

  /** As written, a blank line becomes an entry with an empty address text and the root name. */
  lemma BlankHostLineAsWritten()
    ensures HostLineAsWritten("") == Ok(Some(("", ROOT)))
  {
    assert Trim("") == "";
    assert !StartsWith("", "#");
    BlankHostPair();
  }

  lemma BlankHostPair()
    ensures HostPair("") == Ok(Some(("", ROOT)))
  {
    Scanner.BlankLine("");
    ScannedBlankPair("");
  }

  /** A line that scans to an empty key and value gives the empty address text and the root name. */
  lemma ScannedBlankPair(t: string)
    requires Scanner.ParseKeyValuePair(t) == Scanner.Pair("", "", 0)
    ensures HostPair(t) == Ok(Some(("", ROOT)))
  {
    assert !EndsWith("", ".");
    assert "" + "." == ".";
  }

  /** The entries of the lines, in order; the first bad line fails the file. */
  function HostLines(lines: seq<string>): (r: Result<seq<(string, Name)>>)
    ensures r.Ok? ==> |r.value| <= |lines|
  {
    if lines == [] then Ok([])
    else
      match HostLine(lines[0])
      case Err(e) => Err(e)
      case Ok(o) =>
        match HostLines(lines[1..])
        case Err(e) => Err(e)
        case Ok(rest) => Ok((if o.Some? then [o.value] else []) + rest)
  }

  /** A blank or comment line contributes nothing to a hosts file. */
  lemma IgnoredHostLine(line: string, rest: seq<string>)
    requires Trim(line) == "" || StartsWith(Trim(line), "#")
    ensures HostLines([line] + rest) == HostLines(rest)
  {
    assert ([line] + rest)[1..] == rest;
    if HostLines(rest).Ok? {
      assert [] + HostLines(rest).value == HostLines(rest).value;
    }
  }

  /** The entries of the lines as `read_hosts` is written, where only '#' lines are skipped. */
  function HostLinesAsWritten(lines: seq<string>): Result<seq<(string, Name)>> {
    if lines == [] then Ok([])
    else
      match HostLineAsWritten(lines[0])
      case Err(e) => Err(e)
      case Ok(o) =>
        match HostLinesAsWritten(lines[1..])
        case Err(e) => Err(e)
        case Ok(rest) => Ok((if o.Some? then [o.value] else []) + rest)
  }

  /** As written, any blank or whitespace-only line becomes the entry with an empty address text and the root name. */
  lemma BlankLineAsWritten(line: string)
    requires Trim(line) == ""
    ensures HostLineAsWritten(line) == Ok(Some(("", ROOT)))
  {
    assert !StartsWith("", "#");
    BlankHostPair();
  }

  /**
   * As written, a hosts file holding a blank line fails: either reading it
   * fails, or the entry of the blank line makes parsing the addresses fail,
   * so the whole `@include` or `addn-host` line is an error.
   */
  lemma BlankLineFailsAsWritten(lines: seq<string>, i: nat)
    requires i < |lines| && Trim(lines[i]) == ""
    ensures HostLinesAsWritten(lines).Ok? ==> ParseHostAddrs(HostLinesAsWritten(lines).value).Err?
  {
    if HostLinesAsWritten(lines).Ok? {
      var entries := HostLinesAsWritten(lines).value;
      var j := BlankLineEntry(lines, i);
      EmptyIsNoAddress();
      assert ParseIpAddr(entries[j].0).None?;
      ParseHostAddrsFails(entries);
    }
  }

  /** As written, the blank line `i` leaves an entry with the empty address text. */
  lemma {:induction false} BlankLineEntry(lines: seq<string>, i: nat) returns (j: nat)
    requires i < |lines| && Trim(lines[i]) == "" && HostLinesAsWritten(lines).Ok?
    ensures j < |HostLinesAsWritten(lines).value| && HostLinesAsWritten(lines).value[j].0 == ""
    decreases i
  {
    HostLinesAsWrittenStep(lines);
    var tail := lines[1..];
    var head := HostLineAsWritten(lines[0]).value;
    var rest := HostLinesAsWritten(tail).value;
    if i == 0 {
      BlankLineAsWritten(lines[0]);
      j := 0;
    } else {
      assert tail[i - 1] == lines[i];
      var k := BlankLineEntry(tail, i - 1);
      j := OptionConsIndex(head, rest, k);
    }
  }

  /** Where entry `k` of `rest` sits once the optional `head` is put before it. */
  lemma OptionConsIndex<T>(head: Option<T>, rest: seq<T>, k: nat) returns (j: nat)
    requires k < |rest|
    ensures j < |(if head.Some? then [head.value] else []) + rest|
    ensures ((if head.Some? then [head.value] else []) + rest)[j] == rest[k]
  {
    j := if head.Some? then k + 1 else k;
  }

  /** One step of `HostLinesAsWritten`: the head line's entry, if any, then the tail's. */
  lemma HostLinesAsWrittenStep(lines: seq<string>)
    requires lines != [] && HostLinesAsWritten(lines).Ok?
    ensures HostLineAsWritten(lines[0]).Ok? && HostLinesAsWritten(lines[1..]).Ok?
    ensures HostLinesAsWritten(lines).value
      == (if HostLineAsWritten(lines[0]).value.Some? then [HostLineAsWritten(lines[0]).value.value] else [])
         + HostLinesAsWritten(lines[1..]).value
  {
  }

  /** A file that exists is read line by line. */
  function ReadHostsSpec(path: string, env: Env): Result<seq<(string, Name)>> {
    if path !in env.files then Err("host file does not exist")
    else HostLines(Lines(env.files[path]))
  }

  function Prepend(done: seq<(string, Name)>, rest: Result<seq<(string, Name)>>): Result<seq<(string, Name)>> {
    match rest
    case Err(e) => Err(e)
    case Ok(xs) => Ok(done + xs)
  }

  lemma {:induction false} HostLinesStep(lines: seq<string>, i: nat, done: seq<(string, Name)>)
    requires i < |lines|
    ensures HostLine(lines[i]).Err? ==> Prepend(done, HostLines(lines[i..])) == Err(HostLine(lines[i]).error)
    ensures HostLine(lines[i]).Ok? ==>
      var o := HostLine(lines[i]).value;
      Prepend(done, HostLines(lines[i..])) == Prepend(done + (if o.Some? then [o.value] else []), HostLines(lines[i + 1..]))
  {
    assert lines[i..][0] == lines[i] && lines[i..][1..] == lines[i + 1..];
    var x := HostLine(lines[i]);
    var rest := HostLines(lines[i + 1..]);
    if x.Ok? && rest.Ok? {
      var o := x.value;
      var p := if o.Some? then [o.value] else [];
      assert done + (p + rest.value) == done + p + rest.value;
    }
  }

  /** `read_hosts`: the loop that pushes one entry per address line. */
  method ReadHosts(path: string, env: Env) returns (r: Result<seq<(string, Name)>>)
    ensures r == ReadHostsSpec(path, env)
  {
    if path !in env.files {
      return Err("host file does not exist");
    }
    var lines := Lines(env.files[path]);
    var entries: seq<(string, Name)> := [];
    var i := 0;
    assert lines[0..] == lines;
    assert Prepend([], HostLines(lines)) == HostLines(lines) by {
      if HostLines(lines).Ok? { assert [] + HostLines(lines).value == HostLines(lines).value; }
    }
    while i < |lines|
      invariant 0 <= i <= |lines|
      invariant HostLines(lines) == Prepend(entries, HostLines(lines[i..]))
    {
      HostLinesStep(lines, i, entries);
      var x := HostLine(lines[i]);
      if x.Err? {
        return Err(x.error);
      }
      if x.value.Some? {
        entries := entries + [x.value.value];
      } else {
        assert entries + [] == entries;
      }
      i := i + 1;
    }
    assert lines[i..] == [];
    assert entries + [] == entries;
    return Ok(entries);
  }

  /** Host-file address texts parsed in order; the first that is not an address fails them all. */
  function ParseHostAddrs(entries: seq<(string, Name)>): (r: Result<seq<HostEntry>>)
    decreases |entries|
  {
    if entries == [] then Ok([])
    else
      match ParseIpAddr(entries[0].0)
      case None => Err("Invalid ip addr '" + entries[0].0 + "'")
      case Some(a) =>
        match ParseHostAddrs(entries[1..])
        case Err(e) => Err(e)
        case Ok(rest) => Ok([(a, entries[0].1)] + rest)
  }

  /** `ParseHostAddrs` fails exactly when some text is no address; otherwise it keeps every name with its parsed address, in order. */
  lemma ParseHostAddrsSpec(entries: seq<(string, Name)>)
    ensures var r := ParseHostAddrs(entries);
      r.Ok? ==> (|r.value| == |entries|
        && forall i :: 0 <= i < |entries| ==> ParseIpAddr(entries[i].0) == Some(r.value[i].0) && r.value[i].1 == entries[i].1)
    ensures ParseHostAddrs(entries).Err? <==> exists i :: 0 <= i < |entries| && ParseIpAddr(entries[i].0).None?
  {
    ParseHostAddrsFails(entries);
    if ParseHostAddrs(entries).Ok? {
      ParseHostAddrsValues(entries);
    }
  }

  lemma {:induction false} ParseHostAddrsFails(entries: seq<(string, Name)>)
    ensures ParseHostAddrs(entries).Err? <==> exists i :: 0 <= i < |entries| && ParseIpAddr(entries[i].0).None?
    decreases |entries|
  {
    if entries != [] {
      var tail := entries[1..];
      ParseHostAddrsFails(tail);
      assert forall i :: 1 <= i < |entries| ==> entries[i] == tail[i - 1];
      if ParseIpAddr(entries[0].0).Some? && ParseHostAddrs(tail).Err? {
        var i :| 0 <= i < |tail| && ParseIpAddr(tail[i].0).None?;
        assert entries[i + 1] == tail[i];
      }
    }
  }

  lemma {:induction false} ParseHostAddrsValues(entries: seq<(string, Name)>)
    requires ParseHostAddrs(entries).Ok?
    ensures var r := ParseHostAddrs(entries).value;
      |r| == |entries|
      && forall i :: 0 <= i < |entries| ==> ParseIpAddr(entries[i].0) == Some(r[i].0) && r[i].1 == entries[i].1
    decreases |entries|
  {
    if entries != [] {
      var tail := entries[1..];
      ParseHostAddrsValues(tail);
      var rest := ParseHostAddrs(tail).value;
      var r := [(ParseIpAddr(entries[0].0).value, entries[0].1)] + rest;
      assert ParseHostAddrs(entries) == Ok(r);
      assert forall i :: 1 <= i < |entries| ==> entries[i] == tail[i - 1] && r[i] == rest[i - 1];
    }
  }
}
