/**
 * Client groups (`src/config/group.rs`): a group line `name a, b-c, d/n`
 * becomes a list of single addresses and address ranges, IPv4 addresses
 * being stored in their IPv4-mapped IPv6 form.
 */
module Groups {
  import opened Wrappers
  import opened Text
  import opened Net
  import Scanner

  /** `IpRange`: one address, or the half-open range `start..end`. */
  datatype IpRange = Single(addr: IpAddr) | Range(start: IpAddr, end: IpAddr)

  /** `to_ipv6_mapped`: IPv4 addresses become `::ffff:a.b.c.d`, IPv6 addresses stay. */
  function ToIpv6Mapped(a: IpAddr): (r: IpAddr)
    ensures r.V6?
  {
    match a
    case V4(x) => V6(MapV4(x))
    case V6(_) => a
  }

  /** Mapping twice is mapping once, and IPv6 addresses are left alone. */
  lemma ToIpv6MappedIdempotent(a: IpAddr)
    ensures ToIpv6Mapped(ToIpv6Mapped(a)) == ToIpv6Mapped(a)
    ensures a.V6? ==> ToIpv6Mapped(a) == a
  {
  }

  /** Two IPv4 addresses map to the same IPv6 address only when they are equal. */
  lemma ToIpv6MappedInjectiveV4(x: U32, y: U32)
    ensures ToIpv6Mapped(V4(x)) == ToIpv6Mapped(V4(y)) <==> x == y
  {
    MapV4Order(x, y);
  }

  /** Every address stored in a group is in IPv6 form. */
  predicate IsMapped(r: IpRange) {
    match r
    case Single(a) => a.V6?
    case Range(s, e) => s.V6? && e.V6?
  }

  /** 2 to the power `k`. */
  function Pow2(k: nat): (r: nat)
    ensures r >= 1
  {
    if k == 0 then 1 else 2 * Pow2(k - 1)
  }

  lemma {:induction false} Pow2Add(a: nat, b: nat)
    ensures Pow2(a + b) == Pow2(a) * Pow2(b)
  {
    if a > 0 {
      Pow2Add(a - 1, b);
      assert Pow2(a + b) == 2 * Pow2(a - 1 + b);
    }
  }

  lemma Pow2Square(k: nat, v: nat)
    requires Pow2(k) == v
    ensures Pow2(k + k) == v * v
  {
    Pow2Add(k, k);
  }

  lemma Pow2Widths()
    ensures Pow2(32) == V4_SPACE
    ensures Pow2(128) == V6_SPACE
  {
    assert Pow2(1) == 2;
    Pow2Square(1, 2);
    Pow2Square(2, 4);
    Pow2Square(4, 16);
    Pow2Square(8, 256);
    Pow2Square(16, 0x1_0000);
    Pow2Square(32, 0x1_0000_0000);
    Pow2Square(64, 0x1_0000_0000_0000_0000);
  }

  /**
   * The first and the last address of the block of `x` whose leading
   * `prefix` bits are fixed, in a family `width` bits wide. The netmask
   * `!((1 << (width - prefix)) - 1)` keeps the leading `prefix` bits, so
   * `x & mask` rounds `x` down to a multiple of the block size
   * `2^(width - prefix)`, and `| !mask` sets all the bits below, giving the
   * last address of the block.
   */
  function Block(x: nat, width: nat, prefix: nat): (int, int)
    requires 1 <= prefix <= width
  {
    var size := Pow2(width - prefix);
    (x / size * size, x / size * size + size - 1)
  }

  lemma {:induction false} MulSmall(k: int, size: int)
    requires size >= 1 && -size < k * size < size
    ensures k == 0
  {
    if k >= 1 {
      MulMono(k, 1, size);
    } else if k <= -1 {
      MulMono(-1, k, size);
    }
  }

  lemma {:induction false} MulMono(a: int, b: int, c: int)
    requires a <= b && c >= 0
    ensures a * c <= b * c
  {
    assert b * c - a * c == (b - a) * c;
  }

  lemma {:induction false} Quotient(y: int, size: int, q: int)
    requires size >= 1 && q * size <= y < q * size + size
    ensures y / size == q
  {
    var k := y / size - q;
    assert k * size == (y - q * size) - y % size;
    MulSmall(k, size);
  }

  lemma {:induction false} QuotientBelow(x: nat, size: nat, p: nat)
    requires size >= 1 && x < p * size
    ensures 0 <= x / size < p
  {
    var q := x / size;
    assert q * size <= x;
    if q >= p {
      MulMono(p, q, size);
    }
  }

  lemma {:induction false} LastOfBlockBelow(q: int, size: nat, p: nat)
    requires 0 <= q < p && size >= 1
    ensures 0 <= q * size && q * size + size - 1 < p * size
  {
    MulMono(0, q, size);
    MulMono(q, p - 1, size);
    assert (p - 1) * size == p * size - size;
  }

  /** A block contains the address it was written with and stays inside the family's space. */
  lemma {:induction false} BlockBounds(x: nat, width: nat, prefix: nat)
    requires 1 <= prefix <= width && x < Pow2(width)
    ensures 0 <= Block(x, width, prefix).0 <= x <= Block(x, width, prefix).1 < Pow2(width)
  {
    var size := Pow2(width - prefix);
    var p := Pow2(prefix);
    Pow2Add(width - prefix, prefix);
    assert width - prefix + prefix == width;
    assert Pow2(width) == p * size;
    QuotientBelow(x, size, p);
    LastOfBlockBelow(x / size, size, p);
    DivFloor(x, size);
  }

  lemma {:induction false} DivFloor(x: nat, size: nat)
    requires size >= 1
    ensures x / size * size <= x < x / size * size + size
  {
  }

  /** An address lies in the block exactly when it agrees with `x` on the leading `prefix` bits. */
  lemma BlockMembers(x: nat, width: nat, prefix: nat, y: nat)
    requires 1 <= prefix <= width
    ensures Block(x, width, prefix).0 <= y <= Block(x, width, prefix).1
      <==> y / Pow2(width - prefix) == x / Pow2(width - prefix)
  {
    var size := Pow2(width - prefix);
    var q := x / size;
    if q * size <= y <= q * size + size - 1 {
      Quotient(y, size, q);
    }
  }

  /** A block with every bit fixed is the single address `x`. */
  lemma FullBlock(x: nat, width: nat)
    requires 1 <= width
    ensures Block(x, width, width) == (x, x)
  {
    assert Pow2(0) == 1;
  }
  /** `x/prefix` of an IPv4 address: the first and the last address of its block. */
  function CidrV4(x: U32, prefix: nat): (U32, U32)
    requires 1 <= prefix <= 32
  {
    Pow2Widths();
    BlockBounds(x, 32, prefix);
    Block(x, 32, prefix)
  }

  /** `x/prefix` of an IPv6 address: the first and the last address of its block. */
  function CidrV6(x: U128, prefix: nat): (U128, U128)
    requires 1 <= prefix <= 128
  {
    Pow2Widths();
    BlockBounds(x, 128, prefix);
    Block(x, 128, prefix)
  }

  /** An IPv4 block contains the address it was written with: start <= x <= end. */
  lemma CidrV4Bounds(x: U32, prefix: nat)
    requires 1 <= prefix <= 32
    ensures CidrV4(x, prefix).0 <= x <= CidrV4(x, prefix).1
  {
    Pow2Widths();
    BlockBounds(x, 32, prefix);
  }

  /** An IPv6 block contains the address it was written with: start <= x <= end. */
  lemma CidrV6Bounds(x: U128, prefix: nat)
    requires 1 <= prefix <= 128
    ensures CidrV6(x, prefix).0 <= x <= CidrV6(x, prefix).1
  {
    Pow2Widths();
    BlockBounds(x, 128, prefix);
  }

  /** A /32 block is a single address: its start and its end coincide. */
  lemma FullPrefixV4(x: U32)
    ensures CidrV4(x, 32) == (x, x)
  {
    FullBlock(x, 32);
  }

  /** A /128 block is a single address: its start and its end coincide. */
  lemma FullPrefixV6(x: U128)
    ensures CidrV6(x, 128) == (x, x)
  {
    FullBlock(x, 128);
  }

  /** A part holding '-': two trimmed addresses, each stored in its IPv6-mapped form. */
  function ParseDashPart(part: string): (r: Result<IpRange>)
    ensures r.Ok? ==> r.value.Range? && r.value.start.V6? && r.value.end.V6?
  {
    var parts := Split(part, '-');
    if |parts| != 2 then Err("Invalid range format " + part)
    else
      match (ParseIpAddr(Trim(parts[0])), ParseIpAddr(Trim(parts[1])))
      case (Some(a), Some(b)) => Ok(Range(ToIpv6Mapped(a), ToIpv6Mapped(b)))
      case (None, _) => Err("invalid IP address syntax")
      case (_, None) => Err("invalid IP address syntax")
  }

  /**
   * A part holding '/': an address and a prefix length. A prefix over the
   * family's width is an error; a prefix of 0 overflows the shift `1 << 32`
   * (a panic in a debug build).
   */
  function ParseCidrPart(part: string): (r: Result<IpRange>)
    ensures r.Ok? ==> r.value.Range? && r.value.start.V6? && r.value.end.V6?
  {
    var parts := Split(part, '/');
    if |parts| != 2 then Err("Invalid CIDR format " + part)
    else
      match (ParseIpAddr(parts[0]), ParseUnsigned(parts[1], 10, U32_MAX))
      case (None, _) => Err("invalid IP address syntax")
      case (_, None) => Err("invalid digit found in string")
      case (Some(ip), Some(prefix)) =>
        if (ip.V4? && prefix > 32) || (ip.V6? && prefix > 128) then Err("prefix length " + NatToString(prefix))
        else if prefix == 0 then Err("attempt to shift left with overflow")
        else
          match ip
          case V4(x) =>
            var (s, e) := CidrV4(x, prefix);
            Ok(Range(V6(MapV4(s)), V6(MapV4(e))))
          case V6(x) =>
            var (s, e) := CidrV6(x, prefix);
            Ok(Range(V6(s), V6(e)))
  }

  /** The range stored for the IPv4 block `x/prefix`: its first and last address, mapped. */
  function CidrRangeV4(x: U32, prefix: nat): IpRange
    requires 1 <= prefix <= 32
  {
    Range(V6(MapV4(CidrV4(x, prefix).0)), V6(MapV4(CidrV4(x, prefix).1)))
  }

  /** The range stored for the IPv6 block `x/prefix`. */
  function CidrRangeV6(x: U128, prefix: nat): IpRange
    requires 1 <= prefix <= 128
  {
    Range(V6(CidrV6(x, prefix).0), V6(CidrV6(x, prefix).1))
  }

  /**
   * A block part parses exactly when it is one address, a '/', and a decimal
   * `u32` from 1 up to the address family's width; it then stores the block
   * `CidrRangeV4`/`CidrRangeV6` of that address and prefix.
   */
  lemma ParseCidrPartSpec(part: string)
    ensures var parts := Split(part, '/');
      ParseCidrPart(part).Ok? <==>
        |parts| == 2 && ParseIpAddr(parts[0]).Some? && ParseUnsigned(parts[1], 10, U32_MAX).Some?
        && 1 <= ParseUnsigned(parts[1], 10, U32_MAX).value <= (if ParseIpAddr(parts[0]).value.V4? then 32 else 128)
    ensures var parts := Split(part, '/');
      ParseCidrPart(part).Ok? ==>
        var p := ParseUnsigned(parts[1], 10, U32_MAX).value;
        match ParseIpAddr(parts[0]).value
        case V4(x) => ParseCidrPart(part).value == CidrRangeV4(x, p)
        case V6(x) => ParseCidrPart(part).value == CidrRangeV6(x, p)
  {
  }

  /** An address text, '/', and a prefix written in decimal read back as that address's block. */
  lemma ParseCidrText(a: string, ip: IpAddr, p: nat)
    requires '/' !in a && ParseIpAddr(a) == Some(ip)
    requires 1 <= p <= (if ip.V4? then 32 else 128)
    ensures ParseCidrPart(a + "/" + NatToString(p)) == Ok(if ip.V4? then CidrRangeV4(ip.v4, p) else CidrRangeV6(ip.v6, p))
    ensures '-' !in a ==> ParsePart(a + "/" + NatToString(p)) == ParseCidrPart(a + "/" + NatToString(p))
  {
    var n := NatToString(p);
    var part := a + "/" + n;
    CidrSplit(a, p);
    NatToStringParses(p, U32_MAX);
    ParseCidrPartSpec(part);
    if '-' !in a {
      CidrDispatch(a, p);
    }
  }

  lemma CidrSplit(a: string, p: nat)
    requires '/' !in a
    ensures Split(a + "/" + NatToString(p), '/') == [a, NatToString(p)]
  {
    var n := NatToString(p);
    assert a + "/" + n == a + ['/'] + n;
    SplitPrefix(a, n, '/');
    assert '/' !in n by { assert forall i :: 0 <= i < |n| ==> IsAsciiDigit(n[i]); }
  }

  /** A block text without '-' is read as a block. */
  lemma CidrDispatch(a: string, p: nat)
    requires '-' !in a
    ensures ParsePart(a + "/" + NatToString(p)) == ParseCidrPart(a + "/" + NatToString(p))
  {
    var n := NatToString(p);
    var part := a + "/" + n;
    assert '-' !in n by { assert forall i :: 0 <= i < |n| ==> IsAsciiDigit(n[i]); }
    assert '-' !in part;
    assert part[|a|] == '/';
  }

  /** A range part parses exactly when it has two pieces around one '-', each an address once trimmed; the ends are stored mapped. */
  lemma ParseDashPartSpec(part: string)
    ensures var parts := Split(part, '-');
      ParseDashPart(part).Ok? <==>
        |parts| == 2 && ParseIpAddr(Trim(parts[0])).Some? && ParseIpAddr(Trim(parts[1])).Some?
    ensures var parts := Split(part, '-');
      ParseDashPart(part).Ok? ==>
        ParseDashPart(part).value
        == Range(ToIpv6Mapped(ParseIpAddr(Trim(parts[0])).value), ToIpv6Mapped(ParseIpAddr(Trim(parts[1])).value))
  {
  }

  /** Two address texts around a '-' read back as the range between their mapped forms. */
  lemma ParseDashText(a: string, b: string, x: IpAddr, y: IpAddr)
    requires '-' !in a && '-' !in b
    requires ParseIpAddr(Trim(a)) == Some(x) && ParseIpAddr(Trim(b)) == Some(y)
    ensures ParseDashPart(a + "-" + b) == Ok(Range(ToIpv6Mapped(x), ToIpv6Mapped(y)))
    ensures ParsePart(a + "-" + b) == ParseDashPart(a + "-" + b)
  {
    var part := a + "-" + b;
    DashSplit(a, b);
    ParseDashPartSpec(part);
    assert part[|a|] == '-';
    DashDispatch(part);
  }

  lemma DashSplit(a: string, b: string)
    requires '-' !in a && '-' !in b
    ensures Split(a + "-" + b, '-') == [a, b]
  {
    assert a + "-" + b == a + ['-'] + b;
    SplitPrefix(a, b, '-');
  }

  /** A part holding '-' is read as a range. */
  lemma DashDispatch(part: string)
    requires '-' in part
    ensures ParsePart(part) == ParseDashPart(part)
  {
  }

  /** One comma-separated part of a group value (already trimmed): a range, a block or one address. */
  function ParsePart(part: string): (r: Result<IpRange>)
    ensures r.Ok? ==> IsMapped(r.value)
  {
    if '-' in part then ParseDashPart(part)
    else if '/' in part then ParseCidrPart(part)
    else
      match ParseIpAddr(part)
      case Some(a) => Ok(Single(ToIpv6Mapped(a)))
      case None => Err("\"" + part + "\"")
  }

  /** The parts in order; the first part that fails fails the whole value. */
  function ParseParts(parts: seq<string>): (r: Result<seq<IpRange>>)
    ensures r.Ok? ==> |r.value| == |parts|
  {
    if parts == [] then Ok([])
    else
      match ParsePart(Trim(parts[0]))
      case Err(e) => Err(e)
      case Ok(x) =>
        match ParseParts(parts[1..])
        case Err(e) => Err(e)
        case Ok(xs) => Ok([x] + xs)
  }

  /** `parse_ip_range`: the value is split at ',' and every trimmed part parsed. */
  function ParseIpRangeSpec(input: string): Result<seq<IpRange>> {
    ParseParts(Split(input, ','))
  }

  /** The ranges come out in the order of the parts, each the parse of its trimmed part. */
  lemma {:induction false} ParsePartsOrder(parts: seq<string>)
    ensures var r := ParseParts(parts);
      r.Ok? <==> forall i :: 0 <= i < |parts| ==> ParsePart(Trim(parts[i])).Ok?
    ensures var r := ParseParts(parts);
      r.Ok? ==> forall i :: 0 <= i < |parts| ==> r.value[i] == ParsePart(Trim(parts[i])).value
  {
    if parts != [] {
      ParsePartsOrder(parts[1..]);
      assert forall i :: 1 <= i < |parts| ==> parts[1..][i - 1] == parts[i];
    }
  }

  /** Prepends the ranges already pushed to the outcome of the remaining parts. */
  function After(list: seq<IpRange>, rest: Result<seq<IpRange>>): Result<seq<IpRange>> {
    match rest
    case Err(e) => Err(e)
    case Ok(xs) => Ok(list + xs)
  }

  lemma AfterNothing(rest: Result<seq<IpRange>>)
    ensures After([], rest) == rest
  {
    if rest.Ok? {
      assert [] + rest.value == rest.value;
    }
  }

  lemma {:induction false} ParsePartsStep(parts: seq<string>, i: nat, list: seq<IpRange>)
    requires i < |parts|
    ensures ParsePart(Trim(parts[i])).Err? ==> After(list, ParseParts(parts[i..])) == Err(ParsePart(Trim(parts[i])).error)
    ensures ParsePart(Trim(parts[i])).Ok? ==>
      After(list, ParseParts(parts[i..])) == After(list + [ParsePart(Trim(parts[i])).value], ParseParts(parts[i + 1..]))
  {
    assert parts[i..][0] == parts[i] && parts[i..][1..] == parts[i + 1..];
    var rest := ParseParts(parts[i + 1..]);
    var x := ParsePart(Trim(parts[i]));
    if rest.Ok? && x.Ok? {
      assert list + ([x.value] + rest.value) == list + [x.value] + rest.value;
    }
  }

  /** `parse_ip_range`: the loop that pushes one range per part. */
  method ParseIpRange(input: string) returns (r: Result<seq<IpRange>>)
    ensures r == ParseIpRangeSpec(input)
  {
    var parts := Split(input, ',');
    var list: seq<IpRange> := [];
    var i := 0;
    assert parts[0..] == parts;
    AfterNothing(ParseParts(parts));
    while i < |parts|
      invariant 0 <= i <= |parts|
      invariant ParseParts(parts) == After(list, ParseParts(parts[i..]))
    {
      var part := Trim(parts[i]);
      ParsePartsStep(parts, i, list);
      var x := ParsePart(part);
      if x.Err? {
        return Err(x.error);
      }
      list := list + [x.value];
      i := i + 1;
    }
    assert parts[i..] == [];
    assert list + [] == list;
    return Ok(list);
  }

  /** `group::parse`: the scanned key names the group, and its list replaces any earlier one. */
  function ParseGroup(row: nat, line: string, groups: map<string, seq<IpRange>>): (r: Result<map<string, seq<IpRange>>>)
  {
    match Scanner.ParseKeyValuePair(line)
    case Failed(e) => Err(Scanner.Message(e, row))
    case Pair(key, value, _) =>
      match ParseIpRangeSpec(value)
      case Err(e) => Err(e)
      case Ok(ranges) => Ok(groups[key := ranges])
  }

  /**
   * A group line that scans and whose value parses sets exactly that group:
   * its list is the parse of the value, and every other group is unchanged.
   */
  lemma ParseGroupReplaces(row: nat, line: string, groups: map<string, seq<IpRange>>, key: string, value: string, start: nat)
    requires Scanner.ParseKeyValuePair(line) == Scanner.Pair(key, value, start)
    requires ParseIpRangeSpec(value).Ok?
    ensures ParseGroup(row, line, groups).Ok?
    ensures key in ParseGroup(row, line, groups).value
    ensures ParseGroup(row, line, groups).value[key] == ParseIpRangeSpec(value).value
    ensures forall g :: g in groups && g != key ==> g in ParseGroup(row, line, groups).value && ParseGroup(row, line, groups).value[g] == groups[g]
    ensures ParseGroup(row, line, groups).value.Keys == groups.Keys + {key}
  {
  }

  /** A line that does not scan, or whose value does not parse, leaves the groups untouched by failing. */
  lemma ParseGroupFails(row: nat, line: string, groups: map<string, seq<IpRange>>)
    requires Scanner.ParseKeyValuePair(line).Failed?
      || ParseIpRangeSpec(Scanner.ParseKeyValuePair(line).value).Err?
    ensures ParseGroup(row, line, groups).Err?
  {
  }
}
