/**
 * `std::net::IpAddr`: the two address families, their total order, the
 * IPv4-mapped IPv6 form (section 2.5.5.2 of RFC 4291) and the textual parser
 * of `IpAddr::from_str` (dotted quads; groups of hex digits with at most one
 * `::` and an optional trailing dotted quad, section 2.2 of RFC 4291).
 */
module Net {
  import opened Wrappers
  import opened Text

  /** The number of IPv4 addresses, 2^32. */
  const V4_SPACE: nat := 0x1_0000_0000

  /** The number of IPv6 addresses, 2^128. */
  const V6_SPACE: nat := 0x1_0000_0000_0000_0000_0000_0000_0000_0000

  /** A `u32`, the numeric value of an `Ipv4Addr`. */
  type U32 = x: int | 0 <= x < 0x1_0000_0000

  /** A `u128`, the numeric value of an `Ipv6Addr`. */
  type U128 = x: int | 0 <= x < 0x1_0000_0000_0000_0000_0000_0000_0000_0000

  datatype IpAddr = V4(v4: U32) | V6(v6: U128)

  /** The prefix `::ffff:0:0/96` of IPv4-mapped addresses. */
  const MAPPED_PREFIX: nat := 0xFFFF_0000_0000

  /** `Ipv4Addr::to_ipv6_mapped`: `a.b.c.d` becomes `::ffff:a.b.c.d`. */
  function MapV4(x: U32): U128 {
    MAPPED_PREFIX + x
  }

  /** The low 32 bits of a mapped address are the IPv4 address; above them sit 16 one bits. */
  lemma MapV4Bits(x: U32)
    ensures MapV4(x) % V4_SPACE == x
    ensures MapV4(x) / V4_SPACE == 0xFFFF
  {
  }

  /** Mapping keeps the order of IPv4 addresses, hence is injective. */
  lemma MapV4Order(x: U32, y: U32)
    ensures x < y <==> MapV4(x) < MapV4(y)
    ensures MapV4(x) == MapV4(y) <==> x == y
  {
  }

  /** `PartialOrd for IpAddr` (derived): every V4 sorts before every V6, then by value. */
  predicate Less(a: IpAddr, b: IpAddr) {
    match (a, b)
    case (V4(x), V4(y)) => x < y
    case (V6(x), V6(y)) => x < y
    case (V4(_), V6(_)) => true
    case (V6(_), V4(_)) => false
  }

  predicate LessEq(a: IpAddr, b: IpAddr) {
    a == b || Less(a, b)
  }

  // ---- the textual parser of `IpAddr::from_str` ----

  predicate IsRadixDigit(c: char, radix: nat) {
    if radix == 10 then IsAsciiDigit(c) else IsHexDigit(c)
  }

  /** The length of the longest run of `radix` digits starting at `pos`. */
  function DigitRun(s: string, pos: nat, radix: nat): (n: nat)
    requires pos <= |s|
    ensures pos + n <= |s|
    ensures forall i :: pos <= i < pos + n ==> IsRadixDigit(s[i], radix)
    ensures pos + n == |s| || !IsRadixDigit(s[pos + n], radix)
    decreases |s| - pos
  {
    if pos < |s| && IsRadixDigit(s[pos], radix) then 1 + DigitRun(s, pos + 1, radix) else 0
  }

  /**
   * `Parser::read_number`: greedily reads digits; fails on no digit, on more
   * than `maxDigits` digits, on a value above `max`, and (when zero prefixes
   * are not allowed) on a leading '0' followed by more digits.
   */
  function ReadNumber(s: string, pos: nat, radix: nat, maxDigits: nat, allowZeroPrefix: bool, max: nat)
    : (r: Option<(nat, nat)>)
    requires pos <= |s| && (radix == 10 || radix == 16)
    ensures r.Some? ==> r.value.0 <= max && pos < r.value.1 <= |s|
  {
    var n := DigitRun(s, pos, radix);
    var ds := s[pos..pos + n];
    if n == 0 || n > maxDigits then None
    else if !allowZeroPrefix && s[pos] == '0' && n > 1 then None
    else if DigitsValue(ds, radix) > max then None
    else Some((DigitsValue(ds, radix), pos + n))
  }

  /** `Parser::read_ipv4_addr`: four decimal octets separated by '.'. */
  function ReadIpv4(s: string, pos: nat): (r: Option<(U32, nat)>)
    requires pos <= |s|
    ensures r.Some? ==> pos < r.value.1 <= |s|
  {
    ReadOctets(s, pos, 0, 0)
  }

  /**
   * The loop of `read_ipv4_addr` from octet `i` on: a '.' separator (read only
   * when `i > 0`), then a decimal octet of at most 3 digits without a zero
   * prefix; `acc` is the value of the octets read so far.
   */
  function ReadOctets(s: string, pos: nat, i: nat, acc: nat): (r: Option<(U32, nat)>)
    requires pos <= |s| && i <= 4 && acc < Pow256(i)
    ensures r.Some? ==> pos <= r.value.1 <= |s| && (i < 4 ==> pos < r.value.1)
    decreases 4 - i
  {
    if i == 4 then Some((acc, pos))
    else
      var start := if i == 0 then Some(pos) else if pos < |s| && s[pos] == '.' then Some(pos + 1) else None;
      if start.None? then None
      else
        match ReadNumber(s, start.value, 10, 3, false, 255)
        case None => None
        case Some((n, p)) => ReadOctets(s, p, i + 1, acc * 0x100 + n)
  }

  /** 256 to the power `i`, for `i` up to 4. */
  function Pow256(i: nat): (r: nat)
    requires i <= 4
    ensures i == 4 ==> r == 0x1_0000_0000
  {
    if i == 0 then 1 else if i == 1 then 0x100 else if i == 2 then 0x1_0000 else if i == 3 then 0x100_0000 else 0x1_0000_0000
  }

  /** An optional ':' separator (read only when `i > 0`), then `ReadIpv4`. */
  function ReadSepIpv4(s: string, pos: nat, i: nat): (r: Option<(U32, nat)>)
    requires pos <= |s|
    ensures r.Some? ==> pos < r.value.1 <= |s|
  {
    if i == 0 then ReadIpv4(s, pos)
    else if pos < |s| && s[pos] == ':' then ReadIpv4(s, pos + 1)
    else None
  }

  /** An optional ':' separator (read only when `i > 0`), then a group of 1 to 4 hex digits. */
  function ReadSepGroup(s: string, pos: nat, i: nat): (r: Option<(nat, nat)>)
    requires pos <= |s|
    ensures r.Some? ==> r.value.0 <= 0xFFFF && pos < r.value.1 <= |s|
  {
    if i == 0 then ReadNumber(s, pos, 16, 4, true, 0xFFFF)
    else if pos < |s| && s[pos] == ':' then ReadNumber(s, pos + 1, 16, 4, true, 0xFFFF)
    else None
  }

  predicate IsGroups(gs: seq<nat>) { forall k :: 0 <= k < |gs| ==> gs[k] <= 0xFFFF }

  /**
   * `read_groups` of `Parser::read_ipv6_addr`: reads up to `limit` groups;
   * before the last slot a trailing dotted quad may fill two groups, and it
   * ends the run. Answers the groups, the position and whether a dotted quad was read.
   */
  function ReadGroups(s: string, pos: nat, i: nat, limit: nat, acc: seq<nat>)
    : (r: (seq<nat>, nat, bool))
    requires pos <= |s| && i <= limit && |acc| == i && IsGroups(acc)
    ensures |r.0| <= limit && IsGroups(r.0) && pos <= r.1 <= |s|
    decreases limit - i
  {
    if i == limit then (acc, pos, false)
    else
      var v4 := if i + 1 < limit then ReadSepIpv4(s, pos, i) else None;
      if v4.Some? then
        var x := v4.value.0;
        (acc + [x / 0x1_0000, x % 0x1_0000], v4.value.1, true)
      else
        match ReadSepGroup(s, pos, i)
        case None => (acc, pos, false)
        case Some((g, p)) => ReadGroups(s, p, i + 1, limit, acc + [g])
  }

  /** Eight 16-bit groups, most significant first, as one 128-bit address. */
  function GroupsValue(gs: seq<nat>): nat
    requires IsGroups(gs)
  {
    if gs == [] then 0 else GroupsValue(gs[..|gs| - 1]) * 0x1_0000 + gs[|gs| - 1]
  }

  /** 65536 to the power `k`. */
  function GroupsBound(k: nat): (r: nat)
    ensures r >= 1
  {
    if k == 0 then 1 else GroupsBound(k - 1) * 0x1_0000
  }

  lemma {:induction false} GroupsValueBound(gs: seq<nat>)
    requires IsGroups(gs)
    ensures GroupsValue(gs) < GroupsBound(|gs|)
  {
    if gs != [] {
      GroupsValueBound(gs[..|gs| - 1]);
    }
  }

  lemma GroupsBound8()
    ensures GroupsBound(8) == 0x1_0000_0000_0000_0000_0000_0000_0000_0000
  {
    assert GroupsBound(4) == 0x1_0000_0000_0000_0000;
  }

  function Zeros(n: nat): (r: seq<nat>)
    ensures |r| == n && IsGroups(r)
  {
    seq(n, _ => 0)
  }

  /** `Parser::read_ipv6_addr`. */
  function ReadIpv6(s: string): (r: Option<(U128, nat)>)
    ensures r.Some? ==> r.value.1 <= |s|
  {
    var (head, p1, headV4) := ReadGroups(s, 0, 0, 8, []);
    if |head| == 8 then Some((Groups128(head), p1))
    else if headV4 then None
    else if p1 + 2 > |s| || s[p1] != ':' || s[p1 + 1] != ':' then None
    else
      var (tail, p2, _) := ReadGroups(s, p1 + 2, 0, 8 - (|head| + 1), []);
      Some((Groups128(head + Zeros(8 - |head| - |tail|) + tail), p2))
  }

  function Groups128(gs: seq<nat>): U128
    requires IsGroups(gs) && |gs| == 8
  {
    GroupsValueBound(gs);
    GroupsBound8();
    GroupsValue(gs)
  }

  /**
   * `IpAddr::from_str`: a dotted quad is tried first; only when no dotted quad
   * can be read is an IPv6 text tried; either way the whole input must be consumed.
   */
  function ParseIpAddr(s: string): Option<IpAddr> {
    match ReadIpv4(s, 0)
    case Some((x, p)) => if p == |s| then Some(V4(x)) else None
    case None =>
      match ReadIpv6(s)
      case Some((x, p)) => if p == |s| then Some(V6(x)) else None
      case None => None
  }

  /** The empty text is no address. */
  lemma EmptyIsNoAddress()
    ensures ParseIpAddr("").None?
  {
  }
}
