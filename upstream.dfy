/**
 * Upstream server addresses (`src/resolves/mod.rs`): `split_addr` cuts a
 * server string into scheme, host and port, and `resolve` turns it into the
 * target of a DNS-over-TLS, DNS-over-HTTPS or plain client.
 */
module Upstream {
  import opened Wrappers
  import opened Text

  const SCHEME_SEP: string := "://"

  /**
   * The first half of `split_addr`: with a `://`, the scheme is the text
   * before the first one and the rest is the piece after it, up to a second
   * one; without, no scheme and the whole input.
   */
  function SchemeSplit(input: string): (Option<string>, string) {
    var parts := SplitStr(input, SCHEME_SEP);
    if |parts| >= 2 then (Some(parts[0]), parts[1]) else (None, input)
  }

  /** What `split_addr` returns. */
  datatype Address = Address(protocol: Option<string>, addr: string, port: Option<string>)

  /** `split_addr`: the host is the rest up to its first ':', the port the piece after it up to a second ':'. */
  function SplitAddr(input: string): (r: Address) {
    var (protocol, rest) := SchemeSplit(input);
    var hp := Split(rest, ':');
    Address(protocol, hp[0], if |hp| >= 2 then Some(hp[1]) else None)
  }

  /** The piece `SplitStr` returns after the first occurrence of the pattern. */
  lemma SplitStrFirst(s: string, t: string, i: nat)
    requires |t| > 0 && FindFrom(s, t, 0) == Some(i)
    ensures |SplitStr(s, t)| >= 2 && SplitStr(s, t)[0] == s[..i]
    ensures SplitStr(s, t)[1] == SplitStr(s[i + |t|..], t)[0]
  {
    SplitStrUnfold(s, t, i);
  }


  /** The first piece `SplitStr` returns is a prefix of the input that is either all of it or followed by the pattern. */
  lemma SplitStrHead(s: string, t: string)
    requires |t| > 0
    ensures var h := SplitStr(s, t)[0];
      |h| <= |s| && s[..|h|] == h && (|h| == |s| || OccursAt(s, t, |h|))
  {
    match FindFrom(s, t, 0)
    case None =>
    case Some(i) =>
  }

  /** A prefix of the text after position `k` of `s`, seen in `s`. */
  lemma SliceShift(s: string, t: string, k: nat, h: string)
    requires k <= |s| && |t| > 0
    requires var tail := s[k..]; |h| <= |tail| && tail[..|h|] == h && (|h| == |tail| || OccursAt(tail, t, |h|))
    ensures k + |h| <= |s| && s[k..k + |h|] == h
    ensures k + |h| == |s| || OccursAt(s, t, k + |h|)
  {
    var tail := s[k..];
    if |h| < |tail| {
      assert s[k + |h|..k + |h| + |t|] == tail[|h|..|h| + |t|];
    }
  }

  /**
   * The scheme split: a scheme exactly when the input contains `://`; then
   * the scheme is the text before the first `://` and the rest is the text
   * after it up to the end or the next `://`, neither holding a `://`.
   */
  lemma SchemeSplitSpec(input: string)
    ensures var (protocol, rest) := SchemeSplit(input);
      (protocol.Some? <==> Contains(input, SCHEME_SEP))
      && (protocol.None? ==> rest == input)
      && (protocol.Some? ==>
            var i := |protocol.value|;
            var j := i + |SCHEME_SEP| + |rest|;
            protocol.value == input[..i] && OccursAt(input, SCHEME_SEP, i)
            && j <= |input| && rest == input[i + |SCHEME_SEP|..j] && (j == |input| || OccursAt(input, SCHEME_SEP, j))
            && !Contains(protocol.value, SCHEME_SEP) && !Contains(rest, SCHEME_SEP))
  {
    SplitStrPieces(input, SCHEME_SEP);
    match FindFrom(input, SCHEME_SEP, 0)
    case None =>
      assert !Contains(input, SCHEME_SEP);
    case Some(i) =>
      assert Contains(input, SCHEME_SEP) by { assert OccursAt(input, SCHEME_SEP, i); }
      SchemeFound(input, i);
  }

  /** With the first `://` at `i`, the scheme is the text before it and the rest the piece after it. */
  lemma SchemeFound(input: string, i: nat)
    requires FindFrom(input, SCHEME_SEP, 0) == Some(i)
    ensures var h := SplitStr(input[i + 3..], SCHEME_SEP)[0];
      SchemeSplit(input) == (Some(input[..i]), h)
      && i + 3 + |h| <= |input| && h == input[i + 3..i + 3 + |h|]
      && (i + 3 + |h| == |input| || OccursAt(input, SCHEME_SEP, i + 3 + |h|))
      && !Contains(input[..i], SCHEME_SEP) && !Contains(h, SCHEME_SEP)
  {
    var parts := SplitStr(input, SCHEME_SEP);
    var tail := input[i + 3..];
    var h := SplitStr(tail, SCHEME_SEP)[0];
    SplitStrPieces(input, SCHEME_SEP);
    SplitStrFirst(input, SCHEME_SEP, i);
    assert !Contains(parts[0], SCHEME_SEP) && !Contains(parts[1], SCHEME_SEP);
    SplitStrHead(tail, SCHEME_SEP);
    SliceShift(input, SCHEME_SEP, i + 3, h);
  }

  /**
   * The host/port split: the host holds no ':' and starts the rest; there is
   * a port exactly when the rest holds a ':', and then the rest continues with
   * ':' and the port, which holds no ':' either.
   */
  lemma HostPortSpec(input: string)
    ensures var rest := SchemeSplit(input).1;
      var r := SplitAddr(input);
      ':' !in r.addr && |r.addr| <= |rest| && rest[..|r.addr|] == r.addr
      && (r.port.None? <==> ':' !in rest)
      && (r.port.Some? ==>
            ':' !in r.port.value
            && var hp := r.addr + [':'] + r.port.value; |hp| <= |rest| && rest[..|hp|] == hp)
  {
    var rest := SchemeSplit(input).1;
    var parts := Split(rest, ':');
    JoinSplit(rest, ':');
    if |parts| >= 2 {
      var more := Join(parts[1..], ':');
      assert rest == parts[0] + [':'] + more;
      if |parts| >= 3 {
        assert more == parts[1] + [':'] + Join(parts[2..], ':');
      }
      assert more[..|parts[1]|] == parts[1];
      assert ':' in rest by { assert rest[|parts[0]|] == ':'; }
    }
  }

  /** No ':' in a text means no `://` in it. */
  lemma NoColonNoScheme(s: string)
    requires ':' !in s
    ensures !Contains(s, SCHEME_SEP)
  {
    assert forall i :: OccursAt(s, SCHEME_SEP, i) ==> s[i..i + 3][0] == s[i] == ':';
  }

  /** The target `resolve` connects to. */
  datatype Target = Tls(addr: string) | Https(url: string) | Plain(addr: string)

  const TLS_PORT: string := "853"
  const DNS_PORT: string := "53"
  const DOH_PATH: string := "/dns-query"

  /** The DNS-over-HTTPS URL: `/dns-query` appended unless already there. */
  function DohUrl(server: string): (url: string) {
    if EndsWith(server, DOH_PATH) then server else server + DOH_PATH
  }

  /** `host:port`, with the given default port. */
  function HostPort(a: Address, default: string): string {
    a.addr + ":" + (if a.port.Some? then a.port.value else default)
  }

  /** The target derivation in `resolve`. */
  function ResolveTarget(server: string): Target {
    if StartsWith(server, "tls://") then Tls(HostPort(SplitAddr(server), TLS_PORT))
    else if StartsWith(server, "https://") then Https(DohUrl(server))
    else Plain(HostPort(SplitAddr(server), DNS_PORT))
  }

  /** The URL always ends in `/dns-query`, keeps the server as its start, and a second pass changes nothing. */
  lemma DohUrlSpec(server: string)
    ensures EndsWith(DohUrl(server), DOH_PATH)
    ensures StartsWith(DohUrl(server), server)
    ensures DohUrl(DohUrl(server)) == DohUrl(server)
  {
    var s := server + DOH_PATH;
    assert s[|s| - |DOH_PATH|..] == DOH_PATH;
    assert s[..|server|] == server;
  }

  /** `tls://host` connects to `host:853`. */
  lemma TlsDefaultPort(host: string)
    requires ':' !in host
    ensures ResolveTarget("tls://" + host) == Tls(host + ":" + TLS_PORT)
  {
    var s := "tls://" + host;
    assert s[..6] == "tls://";
    TlsScheme(host);
  }

  /** `tls://host:port` connects to `host:port`, for a numeric port. */
  lemma TlsExplicitPort(host: string, port: string)
    requires ':' !in host && forall i :: 0 <= i < |port| ==> IsAsciiDigit(port[i])
    ensures ResolveTarget("tls://" + host + ":" + port) == Tls(host + ":" + port)
  {
    var hp := host + ":" + port;
    assert ':' !in port;
    assert forall i :: 0 <= i < |hp| && hp[i] == ':' ==> i == |host|;
    assert "tls://" + host + ":" + port == "tls://" + hp;
    assert ("tls://" + hp)[..6] == "tls://";
    TlsScheme(hp);
    SplitPrefix(host, port, ':');
  }

  /** After `tls://`, the rest is everything that follows when it holds no ':' beyond a single port separator. */
  lemma TlsScheme(rest: string)
    requires forall i :: 0 <= i < |rest| && rest[i] == ':' ==> i + 1 == |rest| || rest[i + 1] != '/'
    ensures SchemeSplit("tls://" + rest) == (Some("tls"), rest)
  {
    var s := "tls://" + rest;
    assert s[0] == 't' && s[1] == 'l' && s[2] == 's' && s[3] == ':' && s[4] == '/' && s[5] == '/';
    assert !OccursAt(s, SCHEME_SEP, 0) && !OccursAt(s, SCHEME_SEP, 1) && !OccursAt(s, SCHEME_SEP, 2);
    assert OccursAt(s, SCHEME_SEP, 3);
    assert FindFrom(s, SCHEME_SEP, 0) == Some(3);
    assert s[6..] == rest;
    assert !Contains(rest, SCHEME_SEP);
    SplitStrFirst(s, SCHEME_SEP, 3);
    SplitStrPieces(rest, SCHEME_SEP);
    assert s[..3] == "tls";
    assert SplitStr(rest, SCHEME_SEP) == [rest];
  }

  /** A bare host connects to `host:53`. */
  lemma PlainDefaultPort(host: string)
    requires ':' !in host
    ensures ResolveTarget(host) == Plain(host + ":" + DNS_PORT)
  {
    NoColonNoScheme(host);
    assert SchemeSplit(host) == (None, host);
    assert !StartsWith(host, "tls://") by { if |host| >= 6 { assert host[..6][3] == host[3]; } }
    assert !StartsWith(host, "https://") by { if |host| >= 8 { assert host[..8][5] == host[5]; } }
  }
}
