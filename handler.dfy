/**
 * The local answering of `src/handler.rs`: reverse-lookup names decoded to
 * addresses, answers built from the hosts tables, answers read from the
 * record cache, the filter that drops disallowed AAAA records, the order in
 * which those sources are tried, and the text of the trace lines.
 */
module Handler {
  import opened Wrappers
  import opened Text
  import opened Net
  import opened DnsName
  import opened Records
  import Config
  import Cache

  const PTR_IPV4_SUFFIX: string := ".in-addr.arpa."
  const PTR_IPV6_SUFFIX: string := ".ip6.arpa."

  /** `str::strip_suffix`. */
  function StripSuffix(s: string, p: string): (r: Option<string>)
    ensures r.Some? <==> EndsWith(s, p)
    ensures r.Some? ==> s == r.value + p
  {
    if EndsWith(s, p) then Some(s[..|s| - |p|]) else None
  }

  /** A text with a suffix appended strips back to the text. */
  lemma StripAppended(a: string, p: string)
    ensures StripSuffix(a + p, p) == Some(a)
  {
    var s := a + p;
    assert s[|s| - |p|..] == p;
    assert s[..|s| - |p|] == a;
  }

  /** `rev`. */
  function Reverse<T>(s: seq<T>): (r: seq<T>)
    ensures |r| == |s| && forall i :: 0 <= i < |s| ==> r[i] == s[|s| - 1 - i]
  {
    seq(|s|, i requires 0 <= i < |s| => s[|s| - 1 - i])
  }

  lemma ReverseReverse<T>(s: seq<T>)
    ensures Reverse(Reverse(s)) == s
  {
  }

  // ---- in-addr.arpa ----

  /**
   * Labels read as `u8` and collected: all of them, in order, or the error
   * of the first that is not one.
   */
  function Octets(labels: seq<string>, name: string): (r: Result<seq<nat>>)
    ensures r.Ok? ==> forall i :: 0 <= i < |r.value| ==> r.value[i] <= U8_MAX
    decreases |labels|
  {
    if labels == [] then Ok([])
    else
      match ParseUnsigned(labels[0], 10, U8_MAX)
      case None => Err("Failed to parse IPv4 address part: " + labels[0] + " name: " + name)
      case Some(b) =>
        match Octets(labels[1..], name)
        case Err(e) => Err(e)
        case Ok(bs) => Ok([b] + bs)
  }

  /** `Octets` succeeds exactly when every label is a `u8`, and then gives their values in order. */
  lemma {:induction false} OctetsSpec(labels: seq<string>, name: string)
    ensures Octets(labels, name).Ok? <==> forall i :: 0 <= i < |labels| ==> ParseUnsigned(labels[i], 10, U8_MAX).Some?
    ensures Octets(labels, name).Ok? ==> (|Octets(labels, name).value| == |labels|
      && forall i :: 0 <= i < |labels| ==> Octets(labels, name).value[i] == ParseUnsigned(labels[i], 10, U8_MAX).value)
    decreases |labels|
  {
    if labels != [] {
      var rest := labels[1..];
      OctetsSpec(rest, name);
      assert forall i :: 1 <= i < |labels| ==> rest[i - 1] == labels[i];
      match ParseUnsigned(labels[0], 10, U8_MAX)
      case None =>
      case Some(b) =>
        match Octets(rest, name)
        case Err(e) =>
        case Ok(bs) =>
          assert forall i :: 1 <= i < |labels| ==> ([b] + bs)[i] == bs[i - 1];
    }
  }

  /** `Ipv4Addr::new(a, b, c, d)`: the first octet most significant. */
  function QuadValue(a: nat, b: nat, c: nat, d: nat): U32
    requires a <= U8_MAX && b <= U8_MAX && c <= U8_MAX && d <= U8_MAX
  {
    a * 0x100_0000 + b * 0x1_0000 + c * 0x100 + d
  }

  /**
   * The IPv4 branch as written: the labels in reverse order read as octets,
   * the first four the address; `None` stands for the panic of `parts[3]`
   * when there are fewer than four labels.
   */
  function DecodeV4AsWritten(addr: string, name: string): Option<Result<IpAddr>> {
    match Octets(Reverse(Split(addr, '.')), name)
    case Err(e) => Some(Err(e))
    case Ok(ps) => if |ps| < 4 then None else Some(Ok(V4(QuadValue(ps[0], ps[1], ps[2], ps[3]))))
  }

  // ---- ip6.arpa ----

  /** `chunks(4)`: runs of four in order, the last possibly shorter. */
  function Chunks4<T>(s: seq<T>): (r: seq<seq<T>>)
    ensures forall k :: 0 <= k < |r| ==> 0 < |r[k]| <= 4
    decreases |s|
  {
    if s == [] then [] else if |s| <= 4 then [s] else [s[..4]] + Chunks4(s[4..])
  }

  /** `join("")`. */
  function Concat(parts: seq<string>): string
    decreases |parts|
  {
    if parts == [] then "" else parts[0] + Concat(parts[1..])
  }

  /** `{:?}` of a slice of strings, without escapes. */
  function DebugList(parts: seq<string>): string
    decreases |parts|
  {
    "[" + DebugItems(parts) + "]"
  }

  function DebugItems(parts: seq<string>): string
    decreases |parts|
  {
    if parts == [] then ""
    else if |parts| == 1 then "\"" + parts[0] + "\""
    else "\"" + parts[0] + "\", " + DebugItems(parts[1..])
  }

  /** Each run joined and read as a hexadecimal `u16`; the first that is not one is the error. */
  function Hextets(chunks: seq<seq<string>>, name: string): (r: Result<seq<nat>>)
    ensures r.Ok? ==> IsGroups(r.value)
    decreases |chunks|
  {
    if chunks == [] then Ok([])
    else
      match ParseUnsigned(Concat(chunks[0]), 16, U16_MAX)
      case None => Err("Failed to parse IPv6 address part: " + DebugList(chunks[0]) + " name: " + name)
      case Some(g) =>
        match Hextets(chunks[1..], name)
        case Err(e) => Err(e)
        case Ok(gs) => Ok([g] + gs)
  }

  /** `Hextets` succeeds exactly when every run is a hexadecimal `u16`, and then gives their values in order. */
  lemma {:induction false} HextetsSpec(chunks: seq<seq<string>>, name: string)
    ensures Hextets(chunks, name).Ok? <==> forall k :: 0 <= k < |chunks| ==> ParseUnsigned(Concat(chunks[k]), 16, U16_MAX).Some?
    ensures Hextets(chunks, name).Ok? ==> (|Hextets(chunks, name).value| == |chunks|
      && forall k :: 0 <= k < |chunks| ==> Hextets(chunks, name).value[k] == ParseUnsigned(Concat(chunks[k]), 16, U16_MAX).value)
    decreases |chunks|
  {
    if chunks != [] {
      var rest := chunks[1..];
      HextetsSpec(rest, name);
      assert forall k :: 1 <= k < |chunks| ==> rest[k - 1] == chunks[k];
      match ParseUnsigned(Concat(chunks[0]), 16, U16_MAX)
      case None =>
      case Some(g) =>
        match Hextets(rest, name)
        case Err(e) =>
        case Ok(gs) =>
          var r := [g] + gs;
          assert Hextets(chunks, name) == Ok(r);
          assert forall k :: 1 <= k < |chunks| ==> r[k] == gs[k - 1];
    }
  }

  /**
   * The IPv6 branch as written: the labels in reverse order, in runs of four
   * read as hexadecimal groups, the first eight the address; `None` stands
   * for the panic of `parts[7]` when there are fewer than eight runs.
   */
  function DecodeV6AsWritten(addr: string, name: string): Option<Result<IpAddr>> {
    match Hextets(Chunks4(Reverse(Split(addr, '.'))), name)
    case Err(e) => Some(Err(e))
    case Ok(gs) => if |gs| < 8 then None else Some(Ok(V6(Groups128(gs[..8]))))
  }

  /**
   * The address part of `local_reverse_dns_query` as written: a name under
   * neither suffix is no reverse name (`Ok(None)`); `None` is a panic.
   */
  function DecodeReverseAsWritten(name: string): Option<Result<Option<IpAddr>>> {
    match StripSuffix(name, PTR_IPV4_SUFFIX)
    case Some(a) =>
      (match DecodeV4AsWritten(a, name)
       case None => None
       case Some(Err(e)) => Some(Err(e))
       case Some(Ok(ip)) => Some(Ok(Some(ip))))
    case None =>
      match StripSuffix(name, PTR_IPV6_SUFFIX)
      case Some(a) =>
        (match DecodeV6AsWritten(a, name)
         case None => None
         case Some(Err(e)) => Some(Err(e))
         case Some(Ok(ip)) => Some(Ok(Some(ip))))
      case None => Some(Ok(None))
  }

  /**
   * The address part of `local_reverse_dns_query`, with too few labels an
   * error rather than a panic: the caller then logs it and answers nothing.
   */
  function DecodeReverse(name: string): Result<Option<IpAddr>> {
    match DecodeReverseAsWritten(name)
    case None => Err("Too few labels in reverse lookup name: " + name)
    case Some(r) => r
  }

  /** The `in-addr.arpa` name of `a.b.c.d`: the octets in decimal, last first (section 3.5 of RFC 1035). */
  function V4PtrName(a: nat, b: nat, c: nat, d: nat): string {
    NatToString(d) + "." + NatToString(c) + "." + NatToString(b) + "." + NatToString(a) + PTR_IPV4_SUFFIX
  }

  lemma NoDot(n: nat)
    ensures '.' !in NatToString(n)
  {
    assert forall i :: 0 <= i < |NatToString(n)| ==> NatToString(n)[i] != '.';
  }

  lemma SplitQuad(w: string, x: string, y: string, z: string)
    requires '.' !in w && '.' !in x && '.' !in y && '.' !in z
    ensures Split(w + "." + x + "." + y + "." + z, '.') == [w, x, y, z]
  {
    var t1 := y + ['.'] + z;
    var t2 := x + ['.'] + t1;
    SplitPrefix(y, z, '.');
    assert Split(t1, '.') == [y, z];
    SplitPrefix(x, t1, '.');
    assert Split(t2, '.') == [x, y, z];
    SplitPrefix(w, t2, '.');
    DotQuad(w, x, y, z);
  }

  /** The dotted quad regrouped from the right. */
  lemma DotQuad(w: string, x: string, y: string, z: string)
    ensures w + "." + x + "." + y + "." + z == w + ['.'] + (x + ['.'] + (y + ['.'] + z))
  {
    assert "." == ['.'];
  }

  /** The reverse name of an IPv4 address decodes to that address. */
  lemma V4PtrNameRoundTrip(a: nat, b: nat, c: nat, d: nat)
    requires a <= U8_MAX && b <= U8_MAX && c <= U8_MAX && d <= U8_MAX
    ensures DecodeReverse(V4PtrName(a, b, c, d)) == Ok(Some(V4(QuadValue(a, b, c, d))))
  {
    var sa, sb, sc, sd := NatToString(a), NatToString(b), NatToString(c), NatToString(d);
    var addr := sd + "." + sc + "." + sb + "." + sa;
    var name := V4PtrName(a, b, c, d);
    assert name == addr + PTR_IPV4_SUFFIX;
    StripAppended(addr, PTR_IPV4_SUFFIX);
    NoDot(a); NoDot(b); NoDot(c); NoDot(d);
    SplitQuad(sd, sc, sb, sa);
    var labels := Reverse(Split(addr, '.'));
    assert labels == [sa, sb, sc, sd];
    NatToStringParses(a, U8_MAX);
    NatToStringParses(b, U8_MAX);
    NatToStringParses(c, U8_MAX);
    NatToStringParses(d, U8_MAX);
    OctetsSpec(labels, name);
    var ps := Octets(labels, name).value;
    assert ps[0] == a && ps[1] == b && ps[2] == c && ps[3] == d;
  }

  /** As written, a reverse name with three labels panics: `parts[3]` is out of bounds. */
  lemma ShortV4NamePanics()
    ensures DecodeReverseAsWritten(V4PtrNameShort(2, 1, 0)) == None
  {
    ShortV4Panics(2, 1, 0);
  }

  /** Any three-octet reverse name panics as written. */
  lemma ShortV4Panics(a: nat, b: nat, c: nat)
    requires a <= U8_MAX && b <= U8_MAX && c <= U8_MAX
    ensures DecodeReverseAsWritten(V4PtrNameShort(a, b, c)) == None
  {
    var sa, sb, sc := NatToString(a), NatToString(b), NatToString(c);
    var addr := sc + "." + sb + "." + sa;
    var name := V4PtrNameShort(a, b, c);
    assert name == addr + PTR_IPV4_SUFFIX;
    StripAppended(addr, PTR_IPV4_SUFFIX);
    NoDot(a); NoDot(b); NoDot(c);
    SplitTriple(sc, sb, sa);
    NatToStringParses(a, U8_MAX);
    NatToStringParses(b, U8_MAX);
    NatToStringParses(c, U8_MAX);
    assert Reverse([sc, sb, sa]) == [sa, sb, sc];
    OctetsSpec([sa, sb, sc], name);
    assert |Octets([sa, sb, sc], name).value| == 3;
  }

  lemma SplitTriple(x: string, y: string, z: string)
    requires '.' !in x && '.' !in y && '.' !in z
    ensures Split(x + "." + y + "." + z, '.') == [x, y, z]
  {
    var t1 := y + ['.'] + z;
    SplitPrefix(y, z, '.');
    assert Split(t1, '.') == [y, z];
    SplitPrefix(x, t1, '.');
    assert x + "." + y + "." + z == x + ['.'] + t1;
  }

  /** A reverse name with only three octets, `c.b.a.in-addr.arpa.`. */
  function V4PtrNameShort(a: nat, b: nat, c: nat): string {
    NatToString(c) + "." + NatToString(b) + "." + NatToString(a) + PTR_IPV4_SUFFIX
  }

  /** With the panic turned into an error, the same name is refused and nothing is answered. */
  lemma ShortV4NameRefused()
    ensures DecodeReverse(V4PtrNameShort(2, 1, 0)).Err?
  {
    ShortV4NamePanics();
  }

  /** As written, an `ip6.arpa` name with one nibble panics: `parts[7]` is out of bounds. */
  lemma ShortV6NamePanics()
    ensures DecodeReverseAsWritten("0" + PTR_IPV6_SUFFIX) == None
  {
    var name := "0" + PTR_IPV6_SUFFIX;
    assert !EndsWith(name, PTR_IPV4_SUFFIX);
    StripAppended("0", PTR_IPV6_SUFFIX);
    assert Split("0", '.') == ["0"];
    assert Reverse(["0"]) == ["0"];
    assert Chunks4(["0"]) == [["0"]];
    assert Concat(["0"]) == "0";
    assert ParseUnsigned("0", 16, U16_MAX) == Some(0);
    var chunks: seq<seq<string>> := [["0"]];
    assert chunks[1..] == [];
    assert Hextets(chunks[1..], name) == Ok([]);
    assert Concat(chunks[0]) == "0";
    assert [0] + [] == [0];
    assert Hextets(chunks, name) == Ok([0]);
  }

  /** With the panic turned into an error, that name is refused too. */
  lemma ShortV6NameRefused()
    ensures DecodeReverse("0" + PTR_IPV6_SUFFIX).Err?
  {
    ShortV6NamePanics();
  }

  /** A name under neither suffix is no reverse name. */
  lemma NotReverseName(name: string)
    requires !EndsWith(name, PTR_IPV4_SUFFIX) && !EndsWith(name, PTR_IPV6_SUFFIX)
    ensures DecodeReverse(name) == Ok(None)
  {
  }

  /** Where the name does not make it panic, the as-written decoding is the one used. */
  lemma DecodeAgrees(name: string)
    requires DecodeReverseAsWritten(name).Some?
    ensures DecodeReverse(name) == DecodeReverseAsWritten(name).value
  {
  }

  /** A nibble as a lower-case hexadecimal digit. */
  function HexDigit(n: nat): (c: char)
    requires n < 16
    ensures IsHexDigit(c) && HexValue(c) == n
  {
    if n < 10 then ('0' as int + n) as char else ('a' as int + n - 10) as char
  }

  /** The four nibble labels of a 16-bit group, most significant first. */
  function Nibbles(g: nat): (r: seq<string>)
    requires g <= 0xFFFF
    ensures |r| == 4 && forall i :: 0 <= i < 4 ==> '.' !in r[i]
  {
    [[HexDigit(g / 16 / 16 / 16)], [HexDigit(g / 16 / 16 % 16)], [HexDigit(g / 16 % 16)], [HexDigit(g % 16)]]
  }

  function AllNibbles(gs: seq<nat>): (r: seq<string>)
    requires IsGroups(gs)
    ensures |r| == 4 * |gs| && forall i :: 0 <= i < |r| ==> '.' !in r[i]
    decreases |gs|
  {
    if gs == [] then [] else Nibbles(gs[0]) + AllNibbles(gs[1..])
  }

  /** The `ip6.arpa` name of the address with groups `gs`: every nibble a label, least significant first (section 2.5 of RFC 3596). */
  function V6PtrName(gs: seq<nat>): string
    requires IsGroups(gs) && |gs| == 8
  {
    Join(Reverse(AllNibbles(gs)), '.') + PTR_IPV6_SUFFIX
  }

  /** A group's four nibbles, joined, read back as the group. */
  lemma NibblesValue(g: nat)
    requires g <= 0xFFFF
    ensures ParseUnsigned(Concat(Nibbles(g)), 16, U16_MAX) == Some(g)
  {
    var q1 := g / 16;
    var q2 := q1 / 16;
    var q3 := q2 / 16;
    var ds := [HexDigit(q3), HexDigit(q2 % 16), HexDigit(q1 % 16), HexDigit(g % 16)];
    var ns := Nibbles(g);
    assert Concat(ns[3..]) == ns[3] by { assert ns[3..][1..] == []; }
    assert Concat(ns[2..]) == ns[2] + ns[3] by { assert ns[2..][1..] == ns[3..]; }
    assert Concat(ns[1..]) == ns[1] + ns[2] + ns[3] by { assert ns[1..][1..] == ns[2..]; }
    assert Concat(ns) == ds;
    assert DigitsValue(ds[..1], 16) == q3 by { assert ds[..1][..0] == []; }
    assert DigitsValue(ds[..2], 16) == q3 * 16 + q2 % 16 by { assert ds[..2][..1] == ds[..1]; }
    assert DigitsValue(ds[..3], 16) == (q3 * 16 + q2 % 16) * 16 + q1 % 16 by { assert ds[..3][..2] == ds[..2]; }
    assert DigitsValue(ds, 16) == ((q3 * 16 + q2 % 16) * 16 + q1 % 16) * 16 + g % 16;
  }

  lemma {:induction false} ChunksOfNibbles(gs: seq<nat>)
    requires IsGroups(gs)
    ensures Chunks4(AllNibbles(gs)) == seq(|gs|, k requires 0 <= k < |gs| => Nibbles(gs[k]))
    decreases |gs|
  {
    var want := seq(|gs|, k requires 0 <= k < |gs| => Nibbles(gs[k]));
    if gs != [] {
      var s := AllNibbles(gs);
      assert IsGroups(gs[1..]);
      ChunksOfNibbles(gs[1..]);
      var rest := seq(|gs[1..]|, k requires 0 <= k < |gs[1..]| => Nibbles(gs[1..][k]));
      assert want == [Nibbles(gs[0])] + rest;
      if |gs| > 1 {
        assert s[..4] == Nibbles(gs[0]) && s[4..] == AllNibbles(gs[1..]);
      } else {
        assert s == Nibbles(gs[0]);
      }
    }
  }

  /** The reverse name of an IPv6 address decodes to that address. */
  lemma V6PtrNameRoundTrip(gs: seq<nat>)
    requires IsGroups(gs) && |gs| == 8
    ensures DecodeReverse(V6PtrName(gs)) == Ok(Some(V6(Groups128(gs))))
  {
    var labels := Reverse(AllNibbles(gs));
    var j := Join(labels, '.');
    var name := V6PtrName(gs);
    assert !EndsWith(name, PTR_IPV4_SUFFIX) by {
      assert name[|name| - 10] == '.';
      if |name| >= 14 {
        assert name[|name| - 14..][4] == name[|name| - 10];
      }
    }
    assert name == j + PTR_IPV6_SUFFIX;
    StripAppended(j, PTR_IPV6_SUFFIX);
    SplitJoin(labels, '.');
    ReverseReverse(AllNibbles(gs));
    ChunksOfNibbles(gs);
    var chunks := Chunks4(AllNibbles(gs));
    forall k | 0 <= k < 8
      ensures ParseUnsigned(Concat(chunks[k]), 16, U16_MAX) == Some(gs[k])
    {
      NibblesValue(gs[k]);
    }
    HextetsSpec(chunks, name);
    var hs := Hextets(chunks, name).value;
    assert hs == gs;
    assert gs[..8] == gs;
  }

  // ---- answers from the hosts tables ----

  /**
   * `local_reverse_dns_query`: the PTR record to push for a reverse name
   * whose address has a hostname; nothing for any other name.
   */
  function LocalReverse(c: Config.Tables, group: string, q: Query): (r: Result<seq<Record>>)
    ensures r.Ok? ==> |r.value| <= 1
  {
    match DecodeReverse(ToUtf8(q.name))
    case Err(e) => Err(e)
    case Ok(None) => Ok([])
    case Ok(Some(addr)) =>
      match Config.GetHostname(c, group, addr)
      case None => Ok([])
      case Some(h) =>
        match FromAscii(h)
        case Err(e) => Err(e)
        case Ok(n) => Ok([Record(q.name, PTR, 0, Some(PtrData(n)))])
  }

  /**
   * A PTR record is pushed exactly when the name decodes to an address for
   * which the hosts tables hold a hostname; it names the query and points at
   * that hostname.
   */
  lemma LocalReverseSpec(c: Config.Tables, group: string, q: Query)
    ensures var r := LocalReverse(c, group, q); var d := DecodeReverse(ToUtf8(q.name));
      (r.Ok? && |r.value| == 1) <==>
        (d.Ok? && d.value.Some? && Config.GetHostname(c, group, d.value.value).Some?
         && FromAscii(Config.GetHostname(c, group, d.value.value).value).Ok?)
    ensures var r := LocalReverse(c, group, q);
      r.Ok? && |r.value| == 1 ==>
        var h := Config.GetHostname(c, group, DecodeReverse(ToUtf8(q.name)).value.value).value;
        r.value[0] == Record(q.name, PTR, 0, Some(PtrData(FromAscii(h).value)))
  {
  }

  /** `get_hosts`, an error read as no address. */
  function HostAddrs(c: Config.Tables, group: string, domain: string): seq<IpAddr> {
    match Config.GetHosts(c, group, domain)
    case Ok(v) => v
    case Err(_) => []
  }

  /** The IPv4 addresses among `addrs`, in order. */
  function V4s(addrs: seq<IpAddr>): (r: seq<U32>)
    ensures forall x :: x in r <==> V4(x) in addrs
    decreases |addrs|
  {
    if addrs == [] then []
    else (if addrs[0].V4? then [addrs[0].v4] else []) + V4s(addrs[1..])
  }

  /** The IPv6 addresses among `addrs`, in order. */
  function V6s(addrs: seq<IpAddr>): (r: seq<U128>)
    ensures forall x :: x in r <==> V6(x) in addrs
    decreases |addrs|
  {
    if addrs == [] then []
    else (if addrs[0].V6? then [addrs[0].v6] else []) + V6s(addrs[1..])
  }

  /** The records built for the addresses: the name, the type, TTL 1 and the address. */
  function AddressRecords(n: Name, t: RecordType, data: seq<RData>): (r: seq<Record>)
    ensures |r| == |data| && forall i :: 0 <= i < |data| ==> r[i] == Record(n, t, 1, Some(data[i]))
  {
    seq(|data|, i requires 0 <= i < |data| => Record(n, t, 1, Some(data[i])))
  }

  function AsA(xs: seq<U32>): (r: seq<RData>)
    ensures |r| == |xs| && forall i :: 0 <= i < |xs| ==> r[i] == AData(xs[i])
  {
    seq(|xs|, i requires 0 <= i < |xs| => AData(xs[i]))
  }

  function AsAAAA(xs: seq<U128>): (r: seq<RData>)
    ensures |r| == |xs| && forall i :: 0 <= i < |xs| ==> r[i] == AAAAData(xs[i])
  {
    seq(|xs|, i requires 0 <= i < |xs| => AAAAData(xs[i]))
  }

  /**
   * What one query adds in `resolve_from_hosts`: a PTR answer if one is
   * found (an error is logged and skipped); for A the host's IPv4 addresses
   * and for AAAA its IPv6 ones, the name re-read by `Name::from_ascii`,
   * whose error ends the whole lookup; nothing for other types.
   */
  function QueryAnswers(c: Config.Tables, group: string, q: Query): Result<seq<Record>> {
    var name := ToUtf8(q.name);
    match q.qtype
    case PTR =>
      (match LocalReverse(c, group, q)
       case Ok(rs) => Ok(rs)
       case Err(_) => Ok([]))
    case A =>
      var addrs := V4s(HostAddrs(c, group, name));
      if addrs == [] then Ok([])
      else
        (match FromAscii(name)
         case Err(e) => Err(e)
         case Ok(n) => Ok(AddressRecords(n, A, AsA(addrs))))
    case AAAA =>
      var addrs := V6s(HostAddrs(c, group, name));
      if addrs == [] then Ok([])
      else
        (match FromAscii(name)
         case Err(e) => Err(e)
         case Ok(n) => Ok(AddressRecords(n, AAAA, AsAAAA(addrs))))
    case _ => Ok([])
  }

  /** An answer from the hosts tables has the query's type; A and AAAA answers carry an address of their family and TTL 1. */
  predicate HostAnswer(q: Query, x: Record) {
    x.rtype == q.qtype
    && (x.rtype == A ==> x.ttl == 1 && x.data.Some? && x.data.value.AData?)
    && (x.rtype == AAAA ==> x.ttl == 1 && x.data.Some? && x.data.value.AAAAData?)
    && (x.rtype == PTR ==> x.name == q.name && x.data.Some? && x.data.value.PtrData?)
  }

  lemma QueryAnswersSpec(c: Config.Tables, group: string, q: Query)
    requires QueryAnswers(c, group, q).Ok?
    ensures forall x :: x in QueryAnswers(c, group, q).value ==> HostAnswer(q, x)
    ensures !(q.qtype.A? || q.qtype.AAAA? || q.qtype.PTR?) ==> QueryAnswers(c, group, q).value == []
  {
    if q.qtype == PTR {
      LocalReverseSpec(c, group, q);
    }
  }

  /**
   * An A query for a name the hosts tables map to an IPv4 address is
   * answered with that address; one mapped to an IPv6 address gets no A answer.
   */
  lemma HostsAnswerA(c: Config.Tables, group: string, q: Query, ip: IpAddr)
    requires q.qtype == A && Config.GetHosts(c, group, ToUtf8(q.name)) == Ok([ip])
    ensures ip.V4? ==> QueryAnswers(c, group, q) == Ok([Record(FromAscii(ToUtf8(q.name)).value, A, 1, Some(AData(ip.v4)))])
    ensures ip.V6? ==> QueryAnswers(c, group, q) == Ok([])
  {
    assert V4s([ip]) == (if ip.V4? then [ip.v4] else []) + V4s([]);
    assert HostAddrs(c, group, ToUtf8(q.name)) == [ip];
    if ip.V4? {
      var n := FromAscii(ToUtf8(q.name)).value;
      assert V4s(HostAddrs(c, group, ToUtf8(q.name))) == [ip.v4];
      assert AddressRecords(n, A, AsA([ip.v4])) == [Record(n, A, 1, Some(AData(ip.v4)))];
    }
  }

  /** The same for AAAA queries and IPv6 addresses. */
  lemma HostsAnswerAAAA(c: Config.Tables, group: string, q: Query, ip: IpAddr)
    requires q.qtype == AAAA && Config.GetHosts(c, group, ToUtf8(q.name)) == Ok([ip])
    ensures ip.V6? ==> QueryAnswers(c, group, q) == Ok([Record(FromAscii(ToUtf8(q.name)).value, AAAA, 1, Some(AAAAData(ip.v6)))])
    ensures ip.V4? ==> QueryAnswers(c, group, q) == Ok([])
  {
    assert V6s([ip]) == (if ip.V6? then [ip.v6] else []) + V6s([]);
    assert HostAddrs(c, group, ToUtf8(q.name)) == [ip];
    if ip.V6? {
      var n := FromAscii(ToUtf8(q.name)).value;
      assert V6s(HostAddrs(c, group, ToUtf8(q.name))) == [ip.v6];
      assert AddressRecords(n, AAAA, AsAAAA([ip.v6])) == [Record(n, AAAA, 1, Some(AAAAData(ip.v6)))];
    }
  }

  /** The answers of the queries in order; the first error ends the lookup. */
  function HostAnswers(c: Config.Tables, group: string, qs: seq<Query>): Result<seq<Record>>
    decreases |qs|
  {
    if qs == [] then Ok([])
    else
      match HostAnswers(c, group, qs[..|qs| - 1])
      case Err(e) => Err(e)
      case Ok(prev) =>
        match QueryAnswers(c, group, qs[|qs| - 1])
        case Err(e) => Err(e)
        case Ok(rs) => Ok(prev + rs)
  }

  /** Every answer collected answers one of the queries. */
  lemma {:induction false} HostAnswersSpec(c: Config.Tables, group: string, qs: seq<Query>)
    requires HostAnswers(c, group, qs).Ok?
    ensures forall x :: x in HostAnswers(c, group, qs).value ==> exists k :: 0 <= k < |qs| && HostAnswer(qs[k], x)
    decreases |qs|
  {
    if qs != [] {
      var init := qs[..|qs| - 1];
      HostAnswersSpec(c, group, init);
      QueryAnswersSpec(c, group, qs[|qs| - 1]);
      forall x | x in HostAnswers(c, group, qs).value
        ensures exists k :: 0 <= k < |qs| && HostAnswer(qs[k], x)
      {
        if x in HostAnswers(c, group, init).value {
          var k :| 0 <= k < |init| && HostAnswer(init[k], x);
          assert qs[k] == init[k];
        } else {
          assert HostAnswer(qs[|qs| - 1], x);
        }
      }
    }
  }

  /**
   * The re-parse `Name::from_ascii` in the A and AAAA arms never fails:
   * `get_hosts` finds an address only for a name that parses.
   */
  lemma QueryAnswersOk(c: Config.Tables, group: string, q: Query)
    ensures QueryAnswers(c, group, q).Ok?
  {
    var name := ToUtf8(q.name);
    if Config.GetHosts(c, group, name).Err? {
      assert HostAddrs(c, group, name) == [];
    }
  }

  /** So the lookup over all the queries never fails either. */
  lemma {:induction false} HostAnswersOk(c: Config.Tables, group: string, qs: seq<Query>)
    ensures HostAnswers(c, group, qs).Ok?
    decreases |qs|
  {
    if qs != [] {
      HostAnswersOk(c, group, qs[..|qs| - 1]);
      QueryAnswersOk(c, group, qs[|qs| - 1]);
    }
  }

  /**
   * `resolve_from_hosts`: no answer at all gives `None`; otherwise the
   * request, turned into a response, with the answers after its own.
   */
  function HostsResponse(c: Config.Tables, group: string, req: Message): Result<Option<Message>> {
    match HostAnswers(c, group, req.queries)
    case Err(e) => Err(e)
    case Ok(ans) =>
      if ans == [] then Ok(None) else Ok(Some(req.(isResponse := true, answers := req.answers + ans)))
  }

  /** `resolve_from_hosts`: `None` exactly when no query got an answer; a response keeps the request's queries and answers. */
  lemma HostsResponseSpec(c: Config.Tables, group: string, req: Message)
    requires HostsResponse(c, group, req).Ok?
    ensures var r := HostsResponse(c, group, req).value; var ans := HostAnswers(c, group, req.queries).value;
      (r.None? <==> ans == [])
      && (r.Some? ==>
            r.value.isResponse && r.value.queries == req.queries
            && r.value.answers[..|req.answers|] == req.answers && r.value.answers[|req.answers|..] == ans)
  {
    var ans := HostAnswers(c, group, req.queries).value;
    var all := req.answers + ans;
    assert all[..|req.answers|] == req.answers && all[|req.answers|..] == ans;
  }

  /** `resolve_from_hosts`: the loop over the queries. */
  method ResolveFromHosts(c: Config.Tables, group: string, req: Message) returns (r: Result<Option<Message>>)
    ensures r == HostsResponse(c, group, req)
  {
    var qs := req.queries;
    var answers: seq<Record> := [];
    var i := 0;
    while i < |qs|
      invariant 0 <= i <= |qs|
      invariant HostAnswers(c, group, qs[..i]) == Ok(answers)
    {
      assert qs[..i + 1][..i] == qs[..i];
      var more := QueryAnswers(c, group, qs[i]);
      QueryAnswersOk(c, group, qs[i]);
      answers := answers + more.value;
      i := i + 1;
    }
    assert qs[..i] == qs;
    if answers == [] {
      return Ok(None);
    }
    r := Ok(Some(req.(isResponse := true, answers := req.answers + answers)));
  }

  // ---- answers from the record cache ----

  /** `lookup_dns_cache` consults the cache for A and AAAA queries only. */
  predicate Cacheable(q: Query) {
    q.qtype == A || q.qtype == AAAA
  }

  /** The records `get` returns for the queries in order, and the cache after those reads. */
  function CacheAnswers(lru: Cache.Lru, qs: seq<Query>, now: nat): (seq<Record>, Cache.Lru)
    decreases |qs|
  {
    if qs == [] then ([], lru)
    else
      var (prev, l1) := CacheAnswers(lru, qs[..|qs| - 1], now);
      var q := qs[|qs| - 1];
      if Cacheable(q) then
        var (r, l2) := Cache.LruGet(l1, ToUtf8(q.name), q.qtype, now);
        (prev + (if r.Some? then r.value else []), l2)
      else (prev, l1)
  }

  /**
   * The reads keep the cache valid, and every record read has a TTL of at
   * most `now` and the type of some A or AAAA query.
   */
  lemma {:induction false} CacheAnswersSpec(lru: Cache.Lru, qs: seq<Query>, now: nat)
    requires Cache.Valid(lru)
    ensures Cache.Valid(CacheAnswers(lru, qs, now).1)
    ensures forall x :: x in CacheAnswers(lru, qs, now).0 ==>
      x.ttl <= now && exists k :: 0 <= k < |qs| && Cacheable(qs[k]) && x.rtype == qs[k].qtype
    decreases |qs|
  {
    if qs != [] {
      var init := qs[..|qs| - 1];
      var q := qs[|qs| - 1];
      CacheAnswersSpec(lru, init, now);
      var (prev, l1) := CacheAnswers(lru, init, now);
      if Cacheable(q) {
        Cache.GetValid(l1, ToUtf8(q.name), q.qtype, now);
        Cache.GetSpec(l1, ToUtf8(q.name), q.qtype, now);
      }
      forall x | x in CacheAnswers(lru, qs, now).0
        ensures x.ttl <= now && exists k :: 0 <= k < |qs| && Cacheable(qs[k]) && x.rtype == qs[k].qtype
      {
        if x in prev {
          var k :| 0 <= k < |init| && Cacheable(init[k]) && x.rtype == init[k].qtype;
          assert qs[k] == init[k];
        } else {
          assert Cacheable(q) && x.rtype == q.qtype;
        }
      }
    }
  }

  /** Queries of other types neither read nor change the cache. */
  lemma {:induction false} OtherQueriesSkipCache(lru: Cache.Lru, qs: seq<Query>, now: nat)
    requires forall k :: 0 <= k < |qs| ==> !Cacheable(qs[k])
    ensures CacheAnswers(lru, qs, now) == ([], lru)
    decreases |qs|
  {
    if qs != [] {
      OtherQueriesSkipCache(lru, qs[..|qs| - 1], now);
    }
  }

  /**
   * `lookup_dns_cache` on the cache's contents (`None` when caching is off):
   * no records read gives no response; otherwise the request, turned into a
   * response, with the records after its own answers.
   */
  function CacheResponse(store: Option<Cache.Lru>, req: Message, now: nat): (Option<Message>, Option<Cache.Lru>) {
    match store
    case None => (None, None)
    case Some(lru) =>
      var (ans, after) := CacheAnswers(lru, req.queries, now);
      (if ans == [] then None else Some(req.(isResponse := true, answers := req.answers + ans)), Some(after))
  }

  /** `lookup_dns_cache`: the reads go through the store in place. */
  method LookupDnsCache(rc: Cache.RecordCache, req: Message, now: nat) returns (r: Option<Message>)
    modifies rc.store
    ensures rc.store == null ==> r.None?
    ensures rc.store != null ==> (r, Some(rc.store.View())) == CacheResponse(Some(old(rc.store.View())), req, now)
  {
    var access := rc.Access();
    if access.value.None? {
      return None;
    }
    var store := access.value.value;
    ghost var start := store.View();
    var qs := req.queries;
    var answers: seq<Record> := [];
    var i := 0;
    while i < |qs|
      invariant 0 <= i <= |qs|
      invariant (answers, store.View()) == CacheAnswers(start, qs[..i], now)
    {
      assert qs[..i + 1][..i] == qs[..i];
      var q := qs[i];
      ghost var lru := store.View();
      ghost var before := answers;
      assert qs[..i + 1][i] == q;
      if Cacheable(q) {
        var got := store.Get(ToUtf8(q.name), q.qtype, now);
        if got.Some? {
          answers := answers + got.value;
        }
        ghost var rl := Cache.LruGet(lru, ToUtf8(q.name), q.qtype, now);
        assert rl.0 == got && rl.1 == store.View();
        assert answers == before + (if got.Some? then got.value else []);
        assert CacheAnswers(start, qs[..i + 1], now) == (before + (if rl.0.Some? then rl.0.value else []), rl.1);
      }
      i := i + 1;
    }
    assert qs[..i] == qs;
    if answers == [] {
      return None;
    }
    r := Some(req.(isResponse := true, answers := req.answers + answers));
  }

  // ---- AAAA filtering ----

  /** `resolution` asks for a verdict on the records that carry an IPv6 address. */
  predicate CarriesAAAA(x: Record) {
    x.data.Some? && x.data.value.AAAAData?
  }

  /**
   * The `allows` vector: true for every other record; for one carrying an
   * IPv6 address, the outcome of its verdict task, a failed task counting as false.
   */
  function Allows(answers: seq<Record>, outcomes: seq<Option<bool>>): (r: seq<bool>)
    requires |outcomes| == |answers|
    ensures |r| == |answers| && forall i :: 0 <= i < |answers| ==> r[i] == (!CarriesAAAA(answers[i]) || outcomes[i] == Some(true))
  {
    seq(|answers|, i requires 0 <= i < |answers| => !CarriesAAAA(answers[i]) || outcomes[i] == Some(true))
  }

  /** The items whose flag is set, in order. */
  function Keep<T>(xs: seq<T>, keep: seq<bool>): seq<T>
    requires |keep| == |xs|
    decreases |xs|
  {
    if xs == [] then []
    else Keep(xs[..|xs| - 1], keep[..|xs| - 1]) + (if keep[|xs| - 1] then [xs[|xs| - 1]] else [])
  }

  /** The positions whose flag is set, in increasing order. */
  function Indices(keep: seq<bool>): (r: seq<nat>)
    ensures forall k :: 0 <= k < |r| ==> r[k] < |keep|
    decreases |keep|
  {
    if keep == [] then []
    else Indices(keep[..|keep| - 1]) + (if keep[|keep| - 1] then [|keep| - 1] else [])
  }

  /**
   * `Keep` is the order-preserving filter: it is the items at the set
   * positions, those positions increase, and a position is among them
   * exactly when its flag is set.
   */
  lemma {:induction false} KeepSpec<T>(xs: seq<T>, keep: seq<bool>)
    requires |keep| == |xs|
    ensures var idx := Indices(keep); var r := Keep(xs, keep);
      |r| == |idx|
      && (forall k :: 0 <= k < |idx| ==> r[k] == xs[idx[k]])
      && (forall k, l :: 0 <= k < l < |idx| ==> idx[k] < idx[l])
      && (forall i :: 0 <= i < |xs| ==> (i in idx <==> keep[i]))
  {
    KeepAt(xs, keep);
    IndicesIncrease(keep);
    IndicesMembers(keep);
  }

  lemma {:induction false} KeepAt<T>(xs: seq<T>, keep: seq<bool>)
    requires |keep| == |xs|
    ensures |Keep(xs, keep)| == |Indices(keep)|
    ensures forall k :: 0 <= k < |Indices(keep)| ==> Keep(xs, keep)[k] == xs[Indices(keep)[k]]
    decreases |xs|
  {
    if xs != [] {
      var n := |xs| - 1;
      KeepAt(xs[..n], keep[..n]);
      var idx0 := Indices(keep[..n]);
      var r0 := Keep(xs[..n], keep[..n]);
      assert Indices(keep) == idx0 + (if keep[n] then [n] else []);
      assert Keep(xs, keep) == r0 + (if keep[n] then [xs[n]] else []);
      forall k | 0 <= k < |idx0|
        ensures Keep(xs, keep)[k] == xs[Indices(keep)[k]]
      {
        assert idx0[k] < n;
        assert r0[k] == xs[..n][idx0[k]];
      }
    }
  }

  lemma {:induction false} IndicesIncrease(keep: seq<bool>)
    ensures forall k, l :: 0 <= k < l < |Indices(keep)| ==> Indices(keep)[k] < Indices(keep)[l]
    decreases |keep|
  {
    if keep != [] {
      var n := |keep| - 1;
      IndicesIncrease(keep[..n]);
      var idx0 := Indices(keep[..n]);
      assert forall k :: 0 <= k < |idx0| ==> idx0[k] < n;
      assert Indices(keep) == idx0 + (if keep[n] then [n] else []);
    }
  }

  lemma {:induction false} IndicesMembers(keep: seq<bool>)
    ensures forall i :: 0 <= i < |keep| ==> (i in Indices(keep) <==> keep[i])
    decreases |keep|
  {
    if keep != [] {
      var n := |keep| - 1;
      IndicesMembers(keep[..n]);
      var idx0 := Indices(keep[..n]);
      assert forall k :: 0 <= k < |idx0| ==> idx0[k] < n;
      assert Indices(keep) == idx0 + (if keep[n] then [n] else []);
      assert forall i :: 0 <= i < n ==> keep[..n][i] == keep[i];
    }
  }

  /**
   * `resolution`: records without an IPv6 address are always kept; one with
   * is kept exactly when its verdict is true; the survivors keep their order.
   */
  lemma ResolutionSpec(answers: seq<Record>, outcomes: seq<Option<bool>>)
    requires |outcomes| == |answers|
    ensures var allows := Allows(answers, outcomes); var idx := Indices(allows);
      var kept := Keep(answers, allows);
      |kept| == |idx|
      && (forall k :: 0 <= k < |idx| ==> kept[k] == answers[idx[k]])
      && (forall k, l :: 0 <= k < l < |idx| ==> idx[k] < idx[l])
      && (forall i :: 0 <= i < |answers| ==> (i in idx <==> !CarriesAAAA(answers[i]) || outcomes[i] == Some(true)))
  {
    KeepSpec(answers, Allows(answers, outcomes));
  }

  /** `resolution`: the loop that starts a verdict task per record, then the filter over the outcomes. */
  method Resolution(answers: seq<Record>, outcomes: seq<Option<bool>>) returns (kept: seq<Record>)
    requires |outcomes| == |answers|
    ensures kept == Keep(answers, Allows(answers, outcomes))
  {
    var allows: seq<bool> := [];
    var i := 0;
    while i < |answers|
      invariant 0 <= i <= |answers|
      invariant allows == Allows(answers, outcomes)[..i]
    {
      if CarriesAAAA(answers[i]) {
        allows := allows + [outcomes[i] == Some(true)];
      } else {
        allows := allows + [true];
      }
      i := i + 1;
    }
    assert allows == Allows(answers, outcomes);
    kept := Keep(answers, allows);
  }

  // ---- handle ----

  /** Where an answer came from: `L`, `C` or `F` in the trace line. */
  datatype Stage = Local | Cached | Forwarded

  /**
   * How `handle` ends: a response sent, an error, or the `todo!()` of
   * `cache_dns_record`, reached when a forwarded response meets an enabled cache.
   */
  datatype Outcome = Answered(stage: Stage, response: Message) | Failed(error: string) | Unimplemented

  /** Some query asks for AAAA records. */
  predicate AsksAAAA(req: Message) {
    exists q :: q in req.queries && q.qtype == AAAA
  }

  /** `print_err_and_flatten`: an error is logged and read as no answer. */
  function Flatten<T>(r: Result<Option<T>>): Option<T> {
    match r
    case Ok(v) => v
    case Err(_) => None
  }

  /**
   * `handle` after parsing: the hosts tables first, then the cache, then
   * the upstream's response `forwarded` (AAAA-filtered with the verdict
   * outcomes when some query asks for AAAA).
   */
  function HandleSpec(c: Config.Tables, group: string, req: Message, store: Option<Cache.Lru>, now: nat,
                      forwarded: Result<Message>, outcomes: seq<Option<bool>>): (Outcome, Option<Cache.Lru>)
    requires forwarded.Ok? ==> |outcomes| == |forwarded.value.answers|
  {
    match Flatten(HostsResponse(c, group, req))
    case Some(m) => (Answered(Local, m), store)
    case None =>
      var (cached, after) := CacheResponse(store, req, now);
      match cached
      case Some(m) => (Answered(Cached, m), after)
      case None =>
        match forwarded
        case Err(e) => (Failed(e), after)
        case Ok(res) =>
          var filtered := if AsksAAAA(req) then res.(answers := Keep(res.answers, Allows(res.answers, outcomes))) else res;
          if after.Some? then (Unimplemented, after) else (Answered(Forwarded, filtered), after)
  }

  /** A hosts answer wins, and then the cache is not read. */
  lemma HostsFirst(c: Config.Tables, group: string, req: Message, store: Option<Cache.Lru>, now: nat,
                   forwarded: Result<Message>, outcomes: seq<Option<bool>>)
    requires forwarded.Ok? ==> |outcomes| == |forwarded.value.answers|
    requires HostsResponse(c, group, req).Ok? && HostsResponse(c, group, req).value.Some?
    ensures HandleSpec(c, group, req, store, now, forwarded, outcomes) == (Answered(Local, HostsResponse(c, group, req).value.value), store)
  {
  }

  /** Without a hosts answer, records read from the cache win over forwarding. */
  lemma CacheSecond(c: Config.Tables, group: string, req: Message, lru: Cache.Lru, now: nat,
                    forwarded: Result<Message>, outcomes: seq<Option<bool>>)
    requires forwarded.Ok? ==> |outcomes| == |forwarded.value.answers|
    requires Flatten(HostsResponse(c, group, req)).None?
    requires CacheAnswers(lru, req.queries, now).0 != []
    ensures var (o, after) := HandleSpec(c, group, req, Some(lru), now, forwarded, outcomes);
      o.Answered? && o.stage == Cached && after == Some(CacheAnswers(lru, req.queries, now).1)
      && o.response.answers == req.answers + CacheAnswers(lru, req.queries, now).0
  {
  }

  /**
   * A forwarded response is sent only with caching off; it is filtered only
   * when some query asks for AAAA, and then exactly as `resolution` filters.
   */
  lemma ForwardedSpec(c: Config.Tables, group: string, req: Message, store: Option<Cache.Lru>, now: nat,
                      res: Message, outcomes: seq<Option<bool>>)
    requires |outcomes| == |res.answers|
    requires Flatten(HostsResponse(c, group, req)).None? && CacheResponse(store, req, now).0.None?
    ensures var (o, _) := HandleSpec(c, group, req, store, now, Ok(res), outcomes);
      (store.Some? <==> o.Unimplemented?)
      && (o.Answered? ==> (o.stage == Forwarded
          && o.response == (if AsksAAAA(req) then res.(answers := Keep(res.answers, Allows(res.answers, outcomes))) else res)))
  {
  }

  /** `handle`: hosts, then the cache in place, then the forwarded response. */
  method Handle(rc: Cache.RecordCache, c: Config.Tables, group: string, req: Message, now: nat,
                forwarded: Result<Message>, outcomes: seq<Option<bool>>) returns (out: Outcome)
    requires forwarded.Ok? ==> |outcomes| == |forwarded.value.answers|
    modifies rc.store
    ensures rc.store == null ==> (out, None) == HandleSpec(c, group, req, None, now, forwarded, outcomes)
    ensures rc.store != null ==>
      (out, Some(rc.store.View())) == HandleSpec(c, group, req, Some(old(rc.store.View())), now, forwarded, outcomes)
  {
    var local := ResolveFromHosts(c, group, req);
    if local.Ok? && local.value.Some? {
      return Answered(Local, local.value.value);
    }
    var cached := LookupDnsCache(rc, req, now);
    if cached.Some? {
      return Answered(Cached, cached.value);
    }
    if forwarded.Err? {
      return Failed(forwarded.error);
    }
    var res := forwarded.value;
    if exists q :: q in req.queries && q.qtype == AAAA {
      var kept := Resolution(res.answers, outcomes);
      res := res.(answers := kept);
    }
    if rc.Enabled() {
      return Unimplemented;
    }
    out := Answered(Forwarded, res);
  }

  // ---- log lines ----

  /** `[String]::join` with a string separator. */
  function JoinWith(parts: seq<string>, sep: string): string {
    if parts == [] then ""
    else if |parts| == 1 then parts[0]
    else parts[0] + sep + JoinWith(parts[1..], sep)
  }

  /** Appending a part appends the separator and the part. */
  lemma {:induction false} JoinWithSnoc(parts: seq<string>, p: string, sep: string)
    ensures JoinWith(parts + [p], sep) == if parts == [] then p else JoinWith(parts, sep) + sep + p
    decreases |parts|
  {
    if |parts| > 1 {
      JoinWithSnoc(parts[1..], p, sep);
      assert (parts + [p])[1..] == parts[1..] + [p];
    }
  }

  /** The `Display` of a record type. */
  function TypeText(t: RecordType): string {
    match t
    case A => "A"
    case AAAA => "AAAA"
    case PTR => "PTR"
    case CNAME => "CNAME"
    case SOA => "SOA"
    case OtherType(_) => "Unknown"
  }

  /** One query in `format_queries`; the class is always `IN` here. */
  function QueryText(q: Query): string {
    ToUtf8(q.name) + ": type " + TypeText(q.qtype) + ", class IN"
  }

  /** `format_queries`: the queries' texts joined by `"; "`. */
  function FormatQueries(qs: seq<Query>): string {
    JoinWith(seq(|qs|, k requires 0 <= k < |qs| => QueryText(qs[k])), "; ")
  }

  /** One more query adds `"; "` and its text, after whatever was there. */
  lemma FormatQueriesSnoc(qs: seq<Query>, q: Query)
    ensures FormatQueries(qs + [q]) == if qs == [] then QueryText(q) else FormatQueries(qs) + "; " + QueryText(q)
  {
    var texts := seq(|qs|, k requires 0 <= k < |qs| => QueryText(qs[k]));
    assert seq(|qs + [q]|, k requires 0 <= k < |qs + [q]| => QueryText((qs + [q])[k])) == texts + [QueryText(q)];
    JoinWithSnoc(texts, QueryText(q), "; ");
  }

  /** The suffix `format_answers` writes for a record's data; addresses use the `Display` given as `addrText`. */
  function DataText(d: Option<RData>, addrText: IpAddr -> string): string {
    match d
    case Some(AAAAData(v6)) => ", addr " + addrText(V6(v6))
    case Some(AData(v4)) => ", addr " + addrText(V4(v4))
    case Some(CnameData(n)) => ", cname " + ToUtf8(n)
    case Some(SoaData(_, _, _, _, _, _, _)) => ", mname " + SoaText(d.value)
    case Some(PtrData(n)) => ", " + ToUtf8(n)
    case _ => ""
  }

  /** One answer in `format_answers`. */
  function AnswerText(x: Record, addrText: IpAddr -> string): string {
    ToUtf8(x.name) + ": type " + TypeText(x.rtype) + ", class IN" + DataText(x.data, addrText)
  }

  /** The four spaces before each item of a multi-line answer list. */
  const TAB: string := "    "

  /** What `writeln!` appends line by line: each line and a newline. */
  function Terminated(lines: seq<string>): string {
    if lines == [] then "" else lines[0] + "\n" + Terminated(lines[1..])
  }

  /** The indented line for each item of a multi-line answer list. */
  function ItemLines(indent: string, items: seq<string>): (r: seq<string>)
    ensures |r| == |items|
  {
    seq(|items|, k requires 0 <= k < |items| => indent + TAB + items[k] + ";")
  }

  /**
   * `format_answers` over the items' texts: `<None>` for none, the item
   * alone for one, otherwise a newline and one indented line per item with
   * the final newline trimmed.
   */
  function FormatItems(indent: string, items: seq<string>): string {
    if |items| == 1 then JoinWith(items, "; ")
    else if items == [] then "<None>"
    else TrimEndChar("\n" + Terminated(ItemLines(indent, items)), '\n')
  }

  /** `format_answers`. */
  function FormatAnswers(indent: string, answers: seq<Record>, addrText: IpAddr -> string): string {
    FormatItems(indent, seq(|answers|, k requires 0 <= k < |answers| => AnswerText(answers[k], addrText)))
  }

  /** Terminated lines are the joined lines and one newline more. */
  lemma {:induction false} TerminatedJoin(lines: seq<string>)
    requires |lines| >= 1
    ensures Terminated(lines) == Join(lines, '\n') + "\n"
    decreases |lines|
  {
    if |lines| > 1 {
      TerminatedJoin(lines[1..]);
    }
  }

  /** Trimming a newline after text that does not end in one removes just that newline. */
  lemma TrimOneNewline(s: string)
    requires s != [] && s[|s| - 1] != '\n'
    ensures TrimEndChar(s + "\n", '\n') == s
  {
    assert (s + "\n")[..|s|] == s;
  }

  /**
   * What `format_answers` promises: no items read `<None>`, one reads as
   * itself, and several split on newlines into an empty first line and one
   * `indent`, four spaces, item, `;` line per item, in order.
   */
  lemma FormatItemsSpec(indent: string, items: seq<string>)
    requires '\n' !in indent && forall k :: 0 <= k < |items| ==> '\n' !in items[k]
    ensures items == [] ==> FormatItems(indent, items) == "<None>"
    ensures |items| == 1 ==> FormatItems(indent, items) == items[0]
    ensures |items| >= 2 ==> Split(FormatItems(indent, items), '\n') == [""] + ItemLines(indent, items)
  {
    if |items| >= 2 {
      var lines := ItemLines(indent, items);
      ItemLinesClean(indent, items);
      FormatItemsJoined(indent, items);
      SplitPrefix([], Join(lines, '\n'), '\n');
      SplitJoin(lines, '\n');
    }
  }

  /** Several items read as a newline and the item lines joined. */
  lemma FormatItemsJoined(indent: string, items: seq<string>)
    requires |items| >= 2
    ensures FormatItems(indent, items) == [] + ['\n'] + Join(ItemLines(indent, items), '\n')
  {
    var lines := ItemLines(indent, items);
    var last := indent + TAB + items[|items| - 1];
    assert lines[|lines| - 1] == last + ";";
    assert (last + ";")[|last|] == ';';
    TrimTerminated("\n", lines);
    assert "\n" == [] + ['\n'];
  }

  /** The item lines hold no newline, and the last one ends in ';'. */
  lemma ItemLinesClean(indent: string, items: seq<string>)
    requires |items| >= 1
    requires '\n' !in indent && forall k :: 0 <= k < |items| ==> '\n' !in items[k]
    ensures var lines := ItemLines(indent, items);
      (forall k :: 0 <= k < |lines| ==> '\n' !in lines[k])
      && lines[|lines| - 1] != [] && lines[|lines| - 1][|lines[|lines| - 1]| - 1] == ';'
  {
    var lines := ItemLines(indent, items);
    forall k | 0 <= k < |lines| ensures '\n' !in lines[k] {
      assert lines[k] == indent + TAB + items[k] + ";";
    }
  }

  /** Trimming the newlines after terminated lines leaves them joined, when the last line does not end in one. */
  lemma TrimTerminated(pre: string, lines: seq<string>)
    requires |lines| >= 1 && lines[|lines| - 1] != []
    requires lines[|lines| - 1][|lines[|lines| - 1]| - 1] != '\n'
    ensures TrimEndChar(pre + Terminated(lines), '\n') == pre + Join(lines, '\n')
  {
    var j := Join(lines, '\n');
    TerminatedJoin(lines);
    JoinEndsWithLast(lines, '\n');
    assert pre + Terminated(lines) == (pre + j) + "\n";
    TrimOneNewline(pre + j);
  }

  /** A join ends as its last part does. */
  lemma {:induction false} JoinEndsWithLast(parts: seq<string>, sep: char)
    requires |parts| >= 1 && parts[|parts| - 1] != []
    ensures var j := Join(parts, sep); |j| >= 1 && j[|j| - 1] == parts[|parts| - 1][|parts[|parts| - 1]| - 1]
    decreases |parts|
  {
    if |parts| > 1 {
      JoinEndsWithLast(parts[1..], sep);
    }
  }

  /** The `Caused by:` line for each error below the top one. */
  function CauseLines(chain: seq<string>, indent: nat): (r: seq<string>)
    requires |chain| >= 1
    ensures |r| == |chain| - 1
  {
    seq(|chain| - 1, k requires 0 <= k < |chain| - 1 => seq(indent, _ => ' ') + "Caused by: " + chain[k + 1])
  }

  /**
   * `format_err` over the error's chain of messages, outermost first: the
   * top message, a newline, and a `Caused by:` line per cause with the
   * final newline trimmed.
   */
  function FormatErr(chain: seq<string>, indent: nat): string
    requires |chain| >= 1
  {
    chain[0] + "\n" + TrimEndChar(Terminated(CauseLines(chain, indent)), '\n')
  }

  /**
   * Its lines: the top message, then one indented `Caused by:` line per
   * cause in order, or one empty line when there is no cause.
   */
  lemma FormatErrSpec(chain: seq<string>, indent: nat)
    requires |chain| >= 1 && forall k :: 0 <= k < |chain| ==> '\n' !in chain[k]
    ensures Split(FormatErr(chain, indent), '\n')
      == [chain[0]] + (if |chain| == 1 then [""] else CauseLines(chain, indent))
  {
    var lines := CauseLines(chain, indent);
    if |chain| == 1 {
      assert FormatErr(chain, indent) == chain[0] + ['\n'] + [];
      SplitPrefix(chain[0], [], '\n');
    } else {
      CauseLinesClean(chain, indent);
      FormatErrJoined(chain, indent);
      SplitPrefix(chain[0], Join(lines, '\n'), '\n');
      SplitJoin(lines, '\n');
    }
  }

  /** With a cause, the message is the top message, a newline and the cause lines joined. */
  lemma FormatErrJoined(chain: seq<string>, indent: nat)
    requires |chain| >= 2 && forall k :: 0 <= k < |chain| ==> '\n' !in chain[k]
    ensures FormatErr(chain, indent) == chain[0] + ['\n'] + Join(CauseLines(chain, indent), '\n')
  {
    var lines := CauseLines(chain, indent);
    var t := Terminated(lines);
    CauseLinesClean(chain, indent);
    TrimTerminated([], lines);
    assert [] + t == t;
    assert [] + Join(lines, '\n') == Join(lines, '\n');
  }

  /** The cause lines hold no newline, and the last one ends as the last message does. */
  lemma CauseLinesClean(chain: seq<string>, indent: nat)
    requires |chain| >= 2 && forall k :: 0 <= k < |chain| ==> '\n' !in chain[k]
    ensures var lines := CauseLines(chain, indent);
      (forall k :: 0 <= k < |lines| ==> '\n' !in lines[k])
      && lines[|lines| - 1] != [] && lines[|lines| - 1][|lines[|lines| - 1]| - 1] != '\n'
  {
    var lines := CauseLines(chain, indent);
    forall k | 0 <= k < |lines| ensures '\n' !in lines[k] {
      assert lines[k] == seq(indent, _ => ' ') + "Caused by: " + chain[k + 1];
    }
    var last := lines[|lines| - 1];
    assert last[|last| - 1] in last;
  }
}
