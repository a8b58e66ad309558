/**
 * The `[hosts]` and `[hosts.<group>]` sections (`src/config/hosts.rs`): a
 * line is either `address name`, appended to the group's host list, or
 * `@include path`, which appends every entry of a hosts file.
 */
module HostsSection {
  import opened Wrappers
  import opened Text
  import opened Net
  import opened DnsName
  import opened Config
  import opened ServerSection
  import Scanner

  const INCLUDE: string := "@include"

  /** The tables with `extra` appended to the host list of `sub`, which is created empty when missing. */
  function Append(t: Tables, sub: string, extra: seq<HostEntry>): Tables {
    t.(hosts := t.hosts[sub := Entries(t.hosts, sub) + extra])
  }

  /** `hosts::parse` for a line of the section of group `sub`. */
  function ParseHostsLine(sub: string, row: nat, line: string, t: Tables, env: Env): Result<Tables> {
    if !KnownGroup(t, sub) then Err("Can't find group '" + sub + "' definition in " + NatToString(row) + ":8")
    else
      match StripPrefix(TrimStart(line), INCLUDE)
      case Some(rest) => IncludeHosts(sub, Trim(rest), t, env)
      case None => InlineHost(sub, row, line, t)
  }

  /** `@include path`: the file must exist, and every one of its entries must hold an address. */
  function IncludeHosts(sub: string, path: string, t: Tables, env: Env): Result<Tables> {
    if path !in env.files then Err("Include file does not exist, path: '" + path + "'")
    else
      match ReadHostsSpec(path, env)
      case Err(e) => Err(e)
      case Ok(entries) =>
        match ParseHostAddrs(entries)
        case Err(e) => Err(e)
        case Ok(hs) => Ok(Append(t, sub, hs))
  }

  /** `address name`: the key must be an address and the value a name. */
  function InlineHost(sub: string, row: nat, line: string, t: Tables): Result<Tables> {
    match Scanner.ParseKeyValuePair(line)
    case Failed(e) => Err(Scanner.Message(e, row))
    case Pair(key, value, _) =>
      match ParseIpAddr(key)
      case None => Err("Invalid ip addr '" + key + "'")
      case Some(a) =>
        match FromAscii(value)
        case Err(e) => Err(e)
        case Ok(n) => Ok(Append(t, sub, [(a, n)]))
  }

  /**
   * What a failing line leaves behind: an inline line that scanned has
   * already created the group's (empty) list before its address or name
   * failed; every other failure leaves the tables as they were.
   */
  function FailedHosts(sub: string, line: string, t: Tables): Tables {
    if KnownGroup(t, sub) && StripPrefix(TrimStart(line), INCLUDE).None? then InlineFailed(sub, line, t) else t
  }

  /** An inline line that scanned creates the group's list before its address is parsed. */
  function InlineFailed(sub: string, line: string, t: Tables): Tables {
    if Scanner.ParseKeyValuePair(line).Pair? then Append(t, sub, []) else t
  }

  /** A line under a group that is neither `default` nor defined fails and changes nothing. */
  lemma UnknownGroupFails(sub: string, row: nat, line: string, t: Tables, env: Env)
    requires !KnownGroup(t, sub)
    ensures ParseHostsLine(sub, row, line, t, env).Err?
    ensures FailedHosts(sub, line, t) == t
  {
  }

  /**
   * Only appends happen: a successful line keeps every entry of every group
   * where it was and adds entries at the end of the list of `sub`.
   */
  lemma HostsAppendOnly(sub: string, row: nat, line: string, t: Tables, env: Env)
    requires ParseHostsLine(sub, row, line, t, env).Ok?
    ensures var u := ParseHostsLine(sub, row, line, t, env).value;
      exists extra :: u == Append(t, sub, extra)
    ensures var u := ParseHostsLine(sub, row, line, t, env).value;
      u.hosts.Keys == t.hosts.Keys + {sub}
      && Entries(t.hosts, sub) <= u.hosts[sub]
      && forall g :: g in t.hosts && g != sub ==> u.hosts[g] == t.hosts[g]
  {
    var rest := StripPrefix(TrimStart(line), INCLUDE);
    if rest.Some? {
      var hs := ParseHostAddrs(ReadHostsSpec(Trim(rest.value), env).value).value;
      assert ParseHostsLine(sub, row, line, t, env).value == Append(t, sub, hs);
    } else {
      var s := Scanner.ParseKeyValuePair(line);
      var e := (ParseIpAddr(s.key).value, FromAscii(s.value).value);
      assert ParseHostsLine(sub, row, line, t, env).value == Append(t, sub, [e]);
    }
  }

  /**
   * An inline line succeeds exactly when the group is known, the line scans,
   * its key is an address and its value a name; the pair then ends the list.
   */
  lemma InlineHostSpec(sub: string, row: nat, line: string, t: Tables, env: Env)
    requires StripPrefix(TrimStart(line), INCLUDE).None?
    ensures var s := Scanner.ParseKeyValuePair(line);
      ParseHostsLine(sub, row, line, t, env).Ok?
      <==> KnownGroup(t, sub) && s.Pair? && ParseIpAddr(s.key).Some? && FromAscii(s.value).Ok?
    ensures var s := Scanner.ParseKeyValuePair(line);
      ParseHostsLine(sub, row, line, t, env).Ok? ==>
        ParseHostsLine(sub, row, line, t, env).value.hosts[sub]
        == Entries(t.hosts, sub) + [(ParseIpAddr(s.key).value, FromAscii(s.value).value)]
  {
  }

  /**
   * An inline entry written without a trailing '.' is stored as a name that
   * is not fully qualified, so `get_hosts` never gives it for a query name
   * from the wire (`Config.UnqualifiedEntriesMiss`).
   */
  lemma InlineNameUnqualified(sub: string, row: nat, line: string, t: Tables, env: Env)
    requires StripPrefix(TrimStart(line), INCLUDE).None?
    requires ParseHostsLine(sub, row, line, t, env).Ok?
    requires var v := Scanner.ParseKeyValuePair(line).value; v == "" || v[|v| - 1] != '.'
    ensures var hs := ParseHostsLine(sub, row, line, t, env).value.hosts[sub];
      |hs| > 0 && !hs[|hs| - 1].1.fqdn
  {
    InlineHostSpec(sub, row, line, t, env);
    var v := Scanner.ParseKeyValuePair(line).value;
    if v != "" {
      NoTrailingDotUnqualified(v);
    }
  }

  /**
   * An included file is all or nothing: when one of its entries does not
   * hold an address the line fails and no entry of the file is kept;
   * otherwise its entries are appended in file order.
   */
  lemma IncludeAllOrNothing(sub: string, row: nat, line: string, t: Tables, env: Env, rest: string)
    requires KnownGroup(t, sub) && StripPrefix(TrimStart(line), INCLUDE) == Some(rest)
    requires Trim(rest) in env.files && ReadHostsSpec(Trim(rest), env).Ok?
    ensures var entries := ReadHostsSpec(Trim(rest), env).value;
      (exists i :: 0 <= i < |entries| && ParseIpAddr(entries[i].0).None?) ==>
        ParseHostsLine(sub, row, line, t, env).Err? && FailedHosts(sub, line, t) == t
    ensures var entries := ReadHostsSpec(Trim(rest), env).value;
      ParseHostsLine(sub, row, line, t, env).Ok? ==>
        var added := ParseHostsLine(sub, row, line, t, env).value.hosts[sub][|Entries(t.hosts, sub)|..];
        |added| == |entries|
        && forall i :: 0 <= i < |entries| ==> Some(added[i].0) == ParseIpAddr(entries[i].0) && added[i].1 == entries[i].1
  {
    var entries := ReadHostsSpec(Trim(rest), env).value;
    ParseHostAddrsSpec(entries);
    if ParseHostsLine(sub, row, line, t, env).Ok? {
      var hs := ParseHostAddrs(entries).value;
      var before := Entries(t.hosts, sub);
      assert (before + hs)[|before|..] == hs;
    }
  }

  /** `hosts::parse`: the tables of `inner` change as `ParseHostsLine` says, or as `FailedHosts` says on an error. */
  method ParseHostsSectionLine(sub: string, row: nat, line: string, inner: Inner, env: Env) returns (r: Result<Unit>)
    modifies inner
    ensures Applied(r, ParseHostsLine(sub, row, line, old(inner.View()), env), FailedHosts(sub, line, old(inner.View())), inner.View())
  {
    if sub != DEFAULT_GROUP && sub !in inner.groups {
      return Err("Can't find group '" + sub + "' definition in " + NatToString(row) + ":8");
    }
    var rest := StripPrefix(TrimStart(line), INCLUDE);
    if rest.Some? {
      r := AppendInclude(sub, Trim(rest.value), inner, env);
    } else {
      r := AppendInline(sub, row, line, inner);
    }
  }

  /** The `@include` branch: read the file, parse every address, then extend the list at once. */
  method AppendInclude(sub: string, path: string, inner: Inner, env: Env) returns (r: Result<Unit>)
    modifies inner
    ensures Applied(r, IncludeHosts(sub, path, old(inner.View()), env), old(inner.View()), inner.View())
  {
    if path !in env.files {
      return Err("Include file does not exist, path: '" + path + "'");
    }
    var entries := ReadHosts(path, env);
    if entries.Err? {
      return Err(entries.error);
    }
    var hs := ParseHostAddrs(entries.value);
    if hs.Err? {
      return Err(hs.error);
    }
    inner.hosts := inner.hosts[sub := Entries(inner.hosts, sub) + hs.value];
    return Ok(Unit);
  }

  /** A second update of the same key replaces the first. */
  lemma UpdateTwice<K, V>(m: map<K, V>, k: K, a: V, b: V)
    ensures m[k := a][k := b] == m[k := b]
  {
  }

  /** The inline branch: `or_default` creates the list, then the parsed pair is pushed. */
  method AppendInline(sub: string, row: nat, line: string, inner: Inner) returns (r: Result<Unit>)
    modifies inner
    ensures Applied(r, InlineHost(sub, row, line, old(inner.View())), InlineFailed(sub, line, old(inner.View())), inner.View())
  {
    ghost var t := inner.View();
    var scanned := Scanner.ScanLine(line);
    if scanned.Failed? {
      return Err(Scanner.Message(scanned.error, row));
    }
    var created := Entries(inner.hosts, sub);
    assert created + [] == created;
    inner.hosts := inner.hosts[sub := created];
    assert inner.View() == InlineFailed(sub, line, t);
    var a := ParseIpAddr(scanned.key);
    if a.None? {
      assert InlineHost(sub, row, line, t) == Err("Invalid ip addr '" + scanned.key + "'");
      return Err("Invalid ip addr '" + scanned.key + "'");
    }
    var n := FromAscii(scanned.value);
    if n.Err? {
      assert InlineHost(sub, row, line, t) == Err(n.error);
      return Err(n.error);
    }
    inner.hosts := inner.hosts[sub := created + [(a.value, n.value)]];
    UpdateTwice(t.hosts, sub, created, created + [(a.value, n.value)]);
    assert inner.hosts == t.hosts[sub := created + [(a.value, n.value)]];
    assert inner.View() == Append(t, sub, [(a.value, n.value)]);
    assert InlineHost(sub, row, line, t) == Ok(inner.View());
    return Ok(Unit);
  }
}
