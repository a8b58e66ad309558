/**
 * The IPv6-resolution rule language (`src/config/resolution.rs`): a rule is
 * a directive (`@allow`, `@deny`, `@pingable`, `@country:<code>`) and a
 * payload (`ALL` or one domain name); a rule applies to a name when its
 * payload matches, and then its directive gives the verdict for an address.
 * Reachability probes and the GeoIP database are oracles; the shared
 * verdict cache of `@pingable` is a bounded least-recently-used map.
 */
module Rules {
  import opened Wrappers
  import opened Text
  import opened Net
  import opened DnsName

  datatype Directive = Allow | Deny | Pingable | Country(code: string)

  datatype Payload = Domain(text: string) | All

  datatype Resolution = Resolution(directive: Directive, payload: Payload)

  /** A GeoIP database: an address it has no record for is a lookup error; a record may lack an ISO code. */
  datatype GeoDb = GeoDb(isoCodes: map<IpAddr, Option<string>>)

  /** `ResolutionPayload::from_str`: exactly `ALL` is every name; anything else is one domain. It never fails. */
  function ParsePayload(s: string): (r: Payload)
    ensures r.All? <==> s == "ALL"
    ensures r.Domain? ==> r.text == s
  {
    if s == "ALL" then All else Domain(s)
  }

  const ALLOW_PREFIX := "@allow:"
  const DENY_PREFIX := "@deny:"
  const PINGABLE_PREFIX := "@pingable:"
  const COUNTRY_PREFIX := "@country:"

  /**
   * `Resolution::from_str`: the prefixes are tried in the order allow, deny,
   * pingable, country; after `@country:` the rest must split at '/' into
   * exactly the country code and the payload.
   */
  function ParseResolution(s: string): (r: Result<Resolution>)
  {
    if StartsWith(s, ALLOW_PREFIX) then Ok(Resolution(Allow, ParsePayload(s[|ALLOW_PREFIX|..])))
    else if StartsWith(s, DENY_PREFIX) then Ok(Resolution(Deny, ParsePayload(s[|DENY_PREFIX|..])))
    else if StartsWith(s, PINGABLE_PREFIX) then Ok(Resolution(Pingable, ParsePayload(s[|PINGABLE_PREFIX|..])))
    else if StartsWith(s, COUNTRY_PREFIX) then
      var parts := Split(s[|COUNTRY_PREFIX|..], '/');
      if |parts| != 2 then Err("Country directive invalid: '" + s + "'")
      else Ok(Resolution(Country(parts[0]), ParsePayload(parts[1])))
    else Err("Invalid directive: '" + s + "'")
  }

  /** A rule parses only when the text starts with one of the four directive prefixes. */
  lemma ParseResolutionPrefixes(s: string)
    ensures ParseResolution(s).Ok? ==>
      StartsWith(s, ALLOW_PREFIX) || StartsWith(s, DENY_PREFIX)
      || StartsWith(s, PINGABLE_PREFIX) || StartsWith(s, COUNTRY_PREFIX)
    ensures StartsWith(s, ALLOW_PREFIX) || StartsWith(s, DENY_PREFIX) || StartsWith(s, PINGABLE_PREFIX)
      ==> ParseResolution(s).Ok?
  {
  }

  /** A `@country:` rule fails exactly when its remainder does not hold exactly one '/'. */
  lemma CountryNeedsOneSlash(rest: string)
    ensures var r := ParseResolution(COUNTRY_PREFIX + rest);
      r.Ok? <==> |Split(rest, '/')| == 2
    ensures var r := ParseResolution(COUNTRY_PREFIX + rest);
      r.Ok? ==> r.value.directive == Country(Split(rest, '/')[0])
  {
    var s := COUNTRY_PREFIX + rest;
    assert s[..|COUNTRY_PREFIX|] == COUNTRY_PREFIX && s[|COUNTRY_PREFIX|..] == rest;
    assert !StartsWith(s, ALLOW_PREFIX) && !StartsWith(s, DENY_PREFIX) && !StartsWith(s, PINGABLE_PREFIX) by {
      assert s[1] == 'c';
    }
  }

  function PayloadText(p: Payload): string {
    match p
    case All => "ALL"
    case Domain(t) => t
  }

  /** The text a rule is written as in the configuration. */
  function Render(r: Resolution): string {
    match r.directive
    case Allow => ALLOW_PREFIX + PayloadText(r.payload)
    case Deny => DENY_PREFIX + PayloadText(r.payload)
    case Pingable => PINGABLE_PREFIX + PayloadText(r.payload)
    case Country(c) => COUNTRY_PREFIX + c + "/" + PayloadText(r.payload)
  }

  /** A rule can be written down and read back when its domain is not the word `ALL` and a country rule holds no stray '/'. */
  predicate Writable(r: Resolution) {
    (r.payload.Domain? ==> r.payload.text != "ALL")
    && (r.directive.Country? ==> '/' !in r.directive.code && '/' !in PayloadText(r.payload))
  }

  /** What `Render` writes, `ParseResolution` reads back. */
  lemma {:induction false} ParseRender(r: Resolution)
    requires Writable(r)
    ensures ParseResolution(Render(r)) == Ok(r)
  {
    var t := PayloadText(r.payload);
    assert ParsePayload(t) == r.payload;
    match r.directive
    case Allow => ParseAllow(t);
    case Deny => ParseDeny(t);
    case Pingable => ParsePingable(t);
    case Country(c) =>
      assert COUNTRY_PREFIX + c + "/" + t == COUNTRY_PREFIX + (c + ['/'] + t);
      SplitPrefix(c, t, '/');
      CountryNeedsOneSlash(c + ['/'] + t);
  }

  lemma ParseAllow(t: string)
    ensures ParseResolution(ALLOW_PREFIX + t) == Ok(Resolution(Allow, ParsePayload(t)))
  {
    var s := ALLOW_PREFIX + t;
    assert s[..|ALLOW_PREFIX|] == ALLOW_PREFIX && s[|ALLOW_PREFIX|..] == t;
  }

  lemma ParseDeny(t: string)
    ensures ParseResolution(DENY_PREFIX + t) == Ok(Resolution(Deny, ParsePayload(t)))
  {
    var s := DENY_PREFIX + t;
    assert s[..|DENY_PREFIX|] == DENY_PREFIX && s[|DENY_PREFIX|..] == t;
    assert !StartsWith(s, ALLOW_PREFIX) by { assert s[1] == 'd'; }
  }

  lemma ParsePingable(t: string)
    ensures ParseResolution(PINGABLE_PREFIX + t) == Ok(Resolution(Pingable, ParsePayload(t)))
  {
    var s := PINGABLE_PREFIX + t;
    assert s[..|PINGABLE_PREFIX|] == PINGABLE_PREFIX && s[|PINGABLE_PREFIX|..] == t;
    assert !StartsWith(s, ALLOW_PREFIX) && !StartsWith(s, DENY_PREFIX) by { assert s[1] == 'p'; }
  }

  /**
   * `payload_match`: `ALL` matches every name; a domain matches only a name
   * with exactly the same labels (`eq_case`), and a domain that does not
   * parse matches nothing.
   */
  function PayloadMatch(r: Resolution, domain: Name): (m: bool)
    ensures r.payload.All? ==> m
    ensures m && r.payload.Domain? ==>
      FromAscii(r.payload.text).Ok? && FromAscii(r.payload.text).value.labels == domain.labels
  {
    match r.payload
    case All => true
    case Domain(t) =>
      match FromAscii(t)
      case Ok(n) => EqCase(n, domain)
      case Err(_) => false
  }

  /** A domain payload written as a name's own text matches that name, and only names with its labels. */
  lemma {:induction false} DomainMatchesItself(d: Directive, n: Name, other: Name)
    requires Valid(n) && n.labels != []
    ensures PayloadMatch(Resolution(d, Domain(ToUtf8(n))), n)
    ensures PayloadMatch(Resolution(d, Domain(ToUtf8(n))), other) <==> other.labels == n.labels
  {
    ToUtf8RoundTrip(Name(n.labels, true));
    ToUtf8RoundTrip(n);
  }

  /** A domain payload never matches a proper subdomain: matching is not by suffix. */
  lemma NoSuffixMatch(r: Resolution, domain: Name, extra: seq<string>)
    requires r.payload.Domain? && extra != []
    requires PayloadMatch(r, domain)
    ensures !PayloadMatch(r, Name(extra + domain.labels, domain.fqdn))
  {
  }

  /**
   * The verdict of `check_is_allow` for `addr`, given the cached probe
   * verdicts `cached` and the probe oracle: allow is true, deny is false,
   * pingable uses the cached verdict when there is one and probes otherwise,
   * and a country rule holds only when the database yields that ISO code.
   */
  function Verdict(r: Resolution, addr: IpAddr, mmdb: Option<GeoDb>, cached: map<IpAddr, bool>, probe: IpAddr -> bool): bool
    requires r.directive.Country? ==> mmdb.Some?
  {
    match r.directive
    case Allow => true
    case Deny => false
    case Pingable => if addr in cached then cached[addr] else probe(addr)
    case Country(c) => addr in mmdb.value.isoCodes && mmdb.value.isoCodes[addr] == Some(c)
  }

  /** A country rule is false on a lookup error and on a record without an ISO code. */
  lemma CountryVerdict(r: Resolution, addr: IpAddr, db: GeoDb, cached: map<IpAddr, bool>, probe: IpAddr -> bool)
    requires r.directive.Country?
    ensures Verdict(r, addr, Some(db), cached, probe) <==>
      addr in db.isoCodes && db.isoCodes[addr].Some? && db.isoCodes[addr].value == r.directive.code
  {
  }

  /** Only a pingable rule depends on the cache or the probe. */
  lemma VerdictIgnoresCache(r: Resolution, addr: IpAddr, mmdb: Option<GeoDb>, c1: map<IpAddr, bool>, c2: map<IpAddr, bool>, p1: IpAddr -> bool, p2: IpAddr -> bool)
    requires r.directive.Country? ==> mmdb.Some?
    requires !r.directive.Pingable?
    ensures Verdict(r, addr, mmdb, c1, p1) == Verdict(r, addr, mmdb, c2, p2)
  {
  }

  /** The capacity of the shared ping cache. */
  const PING_CACHE_CAPACITY: nat := 455

  /** `s` without the occurrences of `x`. */
  function Without(s: seq<IpAddr>, x: IpAddr): (r: seq<IpAddr>)
    ensures x !in r
    ensures forall y :: y in r <==> y in s && y != x
    ensures |r| <= |s|
    ensures x !in s ==> r == s
    ensures x in s && Distinct(s) ==> |r| == |s| - 1
    ensures Distinct(s) ==> Distinct(r)
  {
    if s == [] then []
    else if s[0] == x then
      assert Distinct(s) ==> Distinct(s[1..]) && x !in s[1..];
      Without(s[1..], x)
    else
      var rest := Without(s[1..], x);
      assert s[0] !in s[1..] ==> s[0] !in rest;
      [s[0]] + rest
  }

  predicate Distinct(s: seq<IpAddr>) {
    forall i, j :: 0 <= i < j < |s| ==> s[i] != s[j]
  }

  /**
   * The `LruCache<IpAddr, bool>` of `@pingable` verdicts, capacity 455:
   * `recency` lists the cached addresses from least to most recently used.
   */
  class PingCache {
    var verdicts: map<IpAddr, bool>
    var recency: seq<IpAddr>

    ghost predicate Valid()
      reads this
    {
      Distinct(recency) && |recency| <= PING_CACHE_CAPACITY
      && (forall a :: a in verdicts <==> a in recency)
    }

    /** `LruCache::new(455)`: empty. */
    constructor()
      ensures Valid() && verdicts == map[] && recency == []
    {
      verdicts := map[];
      recency := [];
    }

    /** `contains` then `get`: the cached verdict, if any; a hit becomes the most recently used entry. */
    method Lookup(a: IpAddr) returns (v: Option<bool>)
      requires Valid()
      modifies this
      ensures Valid()
      ensures v == (if a in verdicts then Some(verdicts[a]) else None)
      ensures verdicts == old(verdicts)
      ensures recency == if a in old(verdicts) then Without(old(recency), a) + [a] else old(recency)
    {
      if a in verdicts {
        v := Some(verdicts[a]);
        recency := Without(recency, a) + [a];
      } else {
        v := None;
      }
    }

    /**
     * `put`: stores the verdict as the most recently used entry; a new
     * address in a full cache evicts the least recently used one.
     */
    method Put(a: IpAddr, v: bool)
      requires Valid()
      modifies this
      ensures Valid()
      ensures a in verdicts && verdicts[a] == v
      ensures forall b :: b in verdicts && b != a ==> b in old(verdicts) && verdicts[b] == old(verdicts)[b]
      ensures a in old(verdicts) || |old(recency)| < PING_CACHE_CAPACITY ==>
        verdicts == old(verdicts)[a := v]
      ensures a !in old(verdicts) && |old(recency)| == PING_CACHE_CAPACITY ==>
        verdicts == (old(verdicts) - {old(recency)[0]})[a := v]
      ensures recency ==
        if a in old(verdicts) then Without(old(recency), a) + [a]
        else if |old(recency)| < PING_CACHE_CAPACITY then old(recency) + [a]
        else old(recency)[1..] + [a]
      ensures recency[|recency| - 1] == a
    {
      if a in verdicts {
        recency := Without(recency, a) + [a];
        verdicts := verdicts[a := v];
      } else if |recency| < PING_CACHE_CAPACITY {
        recency := recency + [a];
        verdicts := verdicts[a := v];
      } else {
        var victim := recency[0];
        assert Distinct(recency[1..]);
        recency := recency[1..] + [a];
        verdicts := (verdicts - {victim})[a := v];
      }
    }
  }

  /**
   * `check_is_allow`: the verdict of `r` for `addr`. A pingable rule reads
   * the cache first and, on a miss, probes and stores the probe's outcome;
   * the other directives leave the cache alone.
   */
  method CheckIsAllow(r: Resolution, addr: IpAddr, mmdb: Option<GeoDb>, cache: PingCache, probe: IpAddr -> bool)
    returns (allowed: bool)
    requires r.directive.Country? ==> mmdb.Some?
    requires cache.Valid()
    modifies cache
    ensures cache.Valid()
    ensures allowed == Verdict(r, addr, mmdb, old(cache.verdicts), probe)
    ensures !r.directive.Pingable? ==> cache.verdicts == old(cache.verdicts) && cache.recency == old(cache.recency)
    ensures r.directive.Pingable? && addr in old(cache.verdicts) ==> cache.verdicts == old(cache.verdicts)
    ensures r.directive.Pingable? ==> addr in cache.verdicts && cache.verdicts[addr] == allowed
  {
    match r.directive {
      case Allow => allowed := true;
      case Deny => allowed := false;
      case Pingable =>
        var hit := cache.Lookup(addr);
        if hit.Some? {
          return hit.value;
        }
        allowed := probe(addr);
        cache.Put(addr, allowed);
      case Country(c) =>
        var db := mmdb.value.isoCodes;
        allowed := addr in db && db[addr] == Some(c);
    }
  }

  /** Once a pingable verdict is cached, asking again gives the same answer whatever the probe would now say. */
  lemma PingableVerdictSticks(r: Resolution, addr: IpAddr, mmdb: Option<GeoDb>, cached: map<IpAddr, bool>, probe: IpAddr -> bool, later: IpAddr -> bool)
    requires r.directive.Pingable?
    ensures var v := Verdict(r, addr, mmdb, cached, probe);
      Verdict(r, addr, mmdb, cached[addr := v], later) == v
  {
  }
}
