/**
 * The `[metadata]` section (`src/config/metadata.rs`): `addn-host`,
 * `cache-size`, `bind`, `mmdb` and `access_log`, each setting its own field
 * of the metadata (and `addn-host` also the hosts of `default`).
 */
module MetadataSection {
  import opened Wrappers
  import opened Text
  import opened Net
  import opened DnsName
  import opened Rules
  import opened Config
  import Scanner

  /** The `access_log` switch: on/true/1 turn it on, off/false/0 turn it off, anything else turns it on. */
  function AccessLogValue(v: string): (b: bool)
    ensures !b <==> v == "off" || v == "false" || v == "0"
  {
    if v == "on" || v == "true" || v == "1" then true
    else if v == "off" || v == "false" || v == "0" then false
    else true
  }

  /** The address text of each entry, parsed by `IpAddr::from_str`. */
  function Addrs(entries: seq<(string, Name)>): (r: seq<Option<IpAddr>>)
    ensures |r| == |entries|
    ensures forall i :: 0 <= i < |entries| ==> r[i] == ParseIpAddr(entries[i].0)
  {
    seq(|entries|, i requires 0 <= i < |entries| => ParseIpAddr(entries[i].0))
  }

  lemma AddrsTail(entries: seq<(string, Name)>)
    requires entries != []
    ensures Addrs(entries)[1..] == Addrs(entries[1..])
  {
    assert forall i :: 0 <= i < |entries| - 1 ==> entries[1..][i] == entries[i + 1];
  }

  /**
   * The `addn-host` loop on the list of `default`: each entry of the file,
   * in order, is pushed with its parsed address (`addrs`); the first address
   * that does not parse stops the loop, the entries pushed before it staying.
   * Answers the list and whether every address parsed.
   */
  function PushEntries(list: seq<HostEntry>, entries: seq<(string, Name)>, addrs: seq<Option<IpAddr>>): (seq<HostEntry>, Result<Unit>)
    requires |addrs| == |entries|
    decreases |entries|
  {
    if entries == [] then (list, Ok(Unit))
    else
      match addrs[0]
      case None => (list, Err("Invalid ip addr '" + entries[0].0 + "'"))
      case Some(a) => PushEntries(list + [(a, entries[0].1)], entries[1..], addrs[1..])
  }

  /**
   * The hosts after the loop: `or_default` creates the list of `default` on
   * the first entry, so a file without entries leaves the hosts as they were.
   */
  function PushDefault(hosts: map<string, seq<HostEntry>>, entries: seq<(string, Name)>): map<string, seq<HostEntry>> {
    if entries == [] then hosts
    else hosts[DEFAULT_GROUP := PushEntries(Entries(hosts, DEFAULT_GROUP), entries, Addrs(entries)).0]
  }

  /** The loop succeeds exactly when every address parses, and then appends the parsed entries in file order. */
  lemma PushEntriesSpec(list: seq<HostEntry>, entries: seq<(string, Name)>)
    ensures PushEntries(list, entries, Addrs(entries)).1.Ok? <==> ParseHostAddrs(entries).Ok?
    ensures PushEntries(list, entries, Addrs(entries)).1.Ok? ==> PushEntries(list, entries, Addrs(entries)).0 == list + ParseHostAddrs(entries).value
  {
    PushEntriesOk(list, entries);
    if ParseHostAddrs(entries).Ok? {
      PushEntriesValue(list, entries);
    }
  }

  lemma {:induction false} PushEntriesOk(list: seq<HostEntry>, entries: seq<(string, Name)>)
    ensures PushEntries(list, entries, Addrs(entries)).1.Ok? <==> ParseHostAddrs(entries).Ok?
    decreases |entries|
  {
    if entries != [] {
      var a := ParseIpAddr(entries[0].0);
      AddrsTail(entries);
      if a.Some? {
        PushEntriesOk(list + [(a.value, entries[0].1)], entries[1..]);
      }
    }
  }

  lemma {:induction false} PushEntriesValue(list: seq<HostEntry>, entries: seq<(string, Name)>)
    requires ParseHostAddrs(entries).Ok?
    ensures PushEntries(list, entries, Addrs(entries)).0 == list + ParseHostAddrs(entries).value
    decreases |entries|
  {
    if entries == [] {
      assert list + [] == list;
    } else {
      var e, rest := HostAddrsHead(entries);
      AddrsTail(entries);
      PushEntriesHead(list, entries, Addrs(entries), e);
      PushEntriesValue(list + [e], entries[1..]);
      calc {
        PushEntries(list, entries, Addrs(entries)).0;
        PushEntries(list + [e], entries[1..], Addrs(entries[1..])).0;
        (list + [e]) + rest;
        { SeqAssoc(list, [e], rest); }
        list + ([e] + rest);
      }
    }
  }

  lemma SeqAssoc<T>(a: seq<T>, b: seq<T>, c: seq<T>)
    ensures (a + b) + c == a + (b + c)
  {
  }

  /** The loop stops at the first address that does not parse. */
  lemma PushEntriesStop(list: seq<HostEntry>, entries: seq<(string, Name)>, addrs: seq<Option<IpAddr>>)
    requires |addrs| == |entries| && entries != [] && addrs[0].None?
    ensures PushEntries(list, entries, addrs) == (list, Err("Invalid ip addr '" + entries[0].0 + "'"))
  {
  }

  /** A successful `ParseHostAddrs` is its first entry, parsed, before the rest. */
  lemma HostAddrsHead(entries: seq<(string, Name)>) returns (e: HostEntry, rest: seq<HostEntry>)
    requires ParseHostAddrs(entries).Ok? && entries != []
    ensures ParseIpAddr(entries[0].0) == Some(e.0) && e.1 == entries[0].1
    ensures ParseHostAddrs(entries[1..]) == Ok(rest)
    ensures ParseHostAddrs(entries).value == [e] + rest
  {
    e := (ParseIpAddr(entries[0].0).value, entries[0].1);
    rest := ParseHostAddrs(entries[1..]).value;
  }

  /** One turn of the loop when the first address parses. */
  lemma PushEntriesHead(list: seq<HostEntry>, entries: seq<(string, Name)>, addrs: seq<Option<IpAddr>>, e: HostEntry)
    requires |addrs| == |entries| && entries != [] && addrs[0] == Some(e.0) && e.1 == entries[0].1
    ensures PushEntries(list, entries, addrs) == PushEntries(list + [e], entries[1..], addrs[1..])
  {
  }

  /** `metadata::parse` on the tables. */
  function ParseMetadata(row: nat, line: string, t: Tables, env: Env): Result<Tables> {
    match Scanner.ParseKeyValuePair(line)
    case Failed(e) => Err(Scanner.Message(e, row))
    case Pair(key, value, _) => MetadataItem(key, value, t, env)
  }

  /** One scanned item, dispatched on its key. */
  function MetadataItem(key: string, value: string, t: Tables, env: Env): Result<Tables> {
    if key == "addn-host" then AddnHostItem(value, t, env)
    else if key == "cache-size" then CacheSizeItem(value, t)
    else if key == "bind" then Ok(t.(metadata := t.metadata.(bind := value)))
    else if key == "mmdb" then MmdbItem(value, t, env)
    else if key == "access_log" then Ok(t.(metadata := t.metadata.(accessLog := AccessLogValue(value))))
    else Err("Unknown metadata item specified: '" + key + "'")
  }

  /** `addn-host`: the file must exist and read as a hosts file, and every address in it must parse. */
  function AddnHostItem(value: string, t: Tables, env: Env): Result<Tables> {
    if value !in env.files then Err("Add-on host file does not exist, path: '" + value + "'")
    else
      match ReadHostsSpec(value, env)
      case Err(e) => Err(e)
      case Ok(entries) => PushedItem(value, entries, t)
  }

  /** The tables after pushing the entries of the file at `path`, which is then remembered. */
  function PushedItem(path: string, entries: seq<(string, Name)>, t: Tables): Result<Tables> {
    var res := PushEntries(Entries(t.hosts, DEFAULT_GROUP), entries, Addrs(entries)).1;
    if res.Err? then Err(res.error)
    else Ok(t.(hosts := PushDefault(t.hosts, entries), metadata := t.metadata.(addnHost := Some(path))))
  }

  /** `cache-size`: a `u32`. */
  function CacheSizeItem(value: string, t: Tables): Result<Tables> {
    match ParseUnsigned(value, 10, U32_MAX)
    case None => Err("Invalid u32 value '" + value + "'")
    case Some(n) => Ok(t.(metadata := t.metadata.(cacheSize := n)))
  }

  /** `mmdb`: a file that opens as a GeoIP database. */
  function MmdbItem(value: string, t: Tables, env: Env): Result<Tables> {
    if value !in env.files then Err("GeoIP file does not exist")
    else if value !in env.mmdbs then Err("Failed to parse mmdb file on '" + value + "'")
    else Ok(t.(metadata := t.metadata.(mmdb := Some(env.mmdbs[value]))))
  }

  /** What a failing item leaves behind: only an `addn-host` file with a bad address leaves the entries pushed before it. */
  function FailedItem(key: string, value: string, t: Tables, env: Env): Tables {
    if key == "addn-host" && value in env.files && ReadHostsSpec(value, env).Ok?
    then t.(hosts := PushDefault(t.hosts, ReadHostsSpec(value, env).value))
    else t
  }

  function FailedMetadata(line: string, t: Tables, env: Env): Tables {
    match Scanner.ParseKeyValuePair(line)
    case Failed(_) => t
    case Pair(key, value, _) => FailedItem(key, value, t, env)
  }

  /** Keys are matched exactly; any key other than the five is an error that changes nothing. */
  lemma UnknownKeyFails(key: string, value: string, t: Tables, env: Env)
    requires key !in {"addn-host", "cache-size", "bind", "mmdb", "access_log"}
    ensures MetadataItem(key, value, t, env).Err?
    ensures FailedItem(key, value, t, env) == t
  {
  }

  /**
   * The `access_log` arm can never be taken: the scanner rejects '_' in a
   * key, so no line yields that key and the switch keeps its default.
   */
  lemma AccessLogUnreachable(line: string)
    ensures var s := Scanner.ParseKeyValuePair(line); s.Pair? ==> s.key != "access_log"
  {
    Scanner.NoUnderscoreKey(line);
    assert "access_log"[6] == '_';
  }

  /**
   * Each key writes only its own field: groups, servers and rules never
   * change; the hosts change only for `addn-host`, and every metadata field
   * other than the key's keeps its value.
   */
  lemma EachKeyOwnField(key: string, value: string, t: Tables, env: Env)
    requires MetadataItem(key, value, t, env).Ok?
    ensures var u := MetadataItem(key, value, t, env).value;
      u.groups == t.groups && u.servers == t.servers && u.ipv6Resolution == t.ipv6Resolution
      && (key != "addn-host" ==> u.hosts == t.hosts && u.metadata.addnHost == t.metadata.addnHost)
      && (key != "cache-size" ==> u.metadata.cacheSize == t.metadata.cacheSize)
      && (key != "bind" ==> u.metadata.bind == t.metadata.bind)
      && (key != "mmdb" ==> u.metadata.mmdb == t.metadata.mmdb)
      && (key != "access_log" ==> u.metadata.accessLog == t.metadata.accessLog)
  {
    KeysDistinct();
    var u := MetadataItem(key, value, t, env).value;
    if key == "addn-host" {
      AddnHostOwnField(value, t, env);
    } else if key == "cache-size" {
      assert u == t.(metadata := t.metadata.(cacheSize := u.metadata.cacheSize));
    } else if key == "bind" {
      assert u == t.(metadata := t.metadata.(bind := value));
    } else if key == "mmdb" {
      assert u == t.(metadata := t.metadata.(mmdb := u.metadata.mmdb));
    } else {
      assert u == t.(metadata := t.metadata.(accessLog := AccessLogValue(value)));
    }
  }

  /** The five item keys are different texts. */
  lemma KeysDistinct()
    ensures "addn-host" != "cache-size" && "addn-host" != "bind" && "addn-host" != "mmdb" && "addn-host" != "access_log"
    ensures "cache-size" != "bind" && "cache-size" != "mmdb" && "cache-size" != "access_log"
    ensures "bind" != "mmdb" && "bind" != "access_log" && "mmdb" != "access_log"
  {
    assert |"addn-host"| == 9 && |"cache-size"| == 10 && |"bind"| == 4 && |"mmdb"| == 4 && |"access_log"| == 10;
    assert "cache-size"[0] != "access_log"[0];
    assert "bind"[0] != "mmdb"[0];
  }

  lemma AddnHostOwnField(value: string, t: Tables, env: Env)
    requires AddnHostItem(value, t, env).Ok?
    ensures var u := AddnHostItem(value, t, env).value;
      u == t.(hosts := u.hosts, metadata := t.metadata.(addnHost := Some(value)))
  {
    var entries := ReadHostsSpec(value, env).value;
    assert AddnHostItem(value, t, env) == PushedItem(value, entries, t);
  }

  /** `cache-size` must be a `u32`; `bind` is stored verbatim; `mmdb` needs a file that opens as a database. */
  lemma ValueFields(key: string, value: string, t: Tables, env: Env)
    ensures var r := MetadataItem(key, value, t, env);
      key == "cache-size" ==>
        (r.Ok? <==> ParseUnsigned(value, 10, U32_MAX).Some?)
        && (r.Ok? ==> r.value.metadata.cacheSize == ParseUnsigned(value, 10, U32_MAX).value <= U32_MAX)
    ensures var r := MetadataItem(key, value, t, env);
      key == "bind" ==> r.Ok? && r.value.metadata.bind == value
    ensures var r := MetadataItem(key, value, t, env);
      key == "mmdb" ==>
        (r.Ok? <==> value in env.files && value in env.mmdbs)
        && (r.Ok? ==> r.value.metadata.mmdb == Some(env.mmdbs[value]))
  {
  }

  /**
   * `addn-host` with an existing file whose addresses all parse appends the
   * file's entries to `default` in order, remembers the path, and changes no
   * other group; a missing file, or a bad address in it, is an error.
   */
  lemma AddnHostAppends(value: string, t: Tables, env: Env)
    ensures value !in env.files ==> MetadataItem("addn-host", value, t, env).Err?
    ensures var r := MetadataItem("addn-host", value, t, env);
      value in env.files && ReadHostsSpec(value, env).Ok? ==>
        var entries := ReadHostsSpec(value, env).value;
        (r.Ok? <==> ParseHostAddrs(entries).Ok?)
        && (r.Ok? ==>
          r.value.metadata.addnHost == Some(value)
          && Entries(r.value.hosts, DEFAULT_GROUP) == Entries(t.hosts, DEFAULT_GROUP) + ParseHostAddrs(entries).value
          && forall g :: g != DEFAULT_GROUP ==> Entries(r.value.hosts, g) == Entries(t.hosts, g))
  {
    assert MetadataItem("addn-host", value, t, env) == AddnHostItem(value, t, env);
    if value in env.files && ReadHostsSpec(value, env).Ok? {
      var entries := ReadHostsSpec(value, env).value;
      assert AddnHostItem(value, t, env) == PushedItem(value, entries, t);
      PushedItemSpec(value, entries, t);
    }
  }

  /** Pushing a file's entries succeeds exactly when every address parses, and then appends them to `default` only. */
  lemma PushedItemSpec(path: string, entries: seq<(string, Name)>, t: Tables)
    ensures var r := PushedItem(path, entries, t);
      (r.Ok? <==> ParseHostAddrs(entries).Ok?)
      && (r.Ok? ==>
        r.value.metadata.addnHost == Some(path)
        && Entries(r.value.hosts, DEFAULT_GROUP) == Entries(t.hosts, DEFAULT_GROUP) + ParseHostAddrs(entries).value
        && forall g :: g != DEFAULT_GROUP ==> Entries(r.value.hosts, g) == Entries(t.hosts, g))
  {
    PushEntriesSpec(Entries(t.hosts, DEFAULT_GROUP), entries);
    if entries == [] {
      assert ParseHostAddrs(entries).value == [];
      assert Entries(t.hosts, DEFAULT_GROUP) + [] == Entries(t.hosts, DEFAULT_GROUP);
    }
  }

  /** `metadata::parse`: the tables of `inner` change as `ParseMetadata` says, or as `FailedMetadata` says on an error. */
  method ParseMetadataLine(row: nat, line: string, inner: Inner, env: Env) returns (r: Result<Unit>)
    modifies inner
    ensures Applied(r, ParseMetadata(row, line, old(inner.View()), env), FailedMetadata(line, old(inner.View()), env), inner.View())
  {
    var scanned := Scanner.ScanLine(line);
    if scanned.Failed? {
      return Err(Scanner.Message(scanned.error, row));
    }
    r := SetItem(scanned.key, scanned.value, inner, env);
  }

  /** The dispatch on the key. */
  method SetItem(key: string, value: string, inner: Inner, env: Env) returns (r: Result<Unit>)
    modifies inner
    ensures Applied(r, MetadataItem(key, value, old(inner.View()), env), FailedItem(key, value, old(inner.View()), env), inner.View())
  {
    if key == "addn-host" {
      r := AddnHost(value, inner, env);
    } else if key == "cache-size" {
      var n := ParseUnsigned(value, 10, U32_MAX);
      if n.None? {
        return Err("Invalid u32 value '" + value + "'");
      }
      inner.metadata := inner.metadata.(cacheSize := n.value);
      r := Ok(Unit);
    } else if key == "bind" {
      inner.metadata := inner.metadata.(bind := value);
      r := Ok(Unit);
    } else if key == "mmdb" {
      if value !in env.files {
        return Err("GeoIP file does not exist");
      }
      if value !in env.mmdbs {
        return Err("Failed to parse mmdb file on '" + value + "'");
      }
      inner.metadata := inner.metadata.(mmdb := Some(env.mmdbs[value]));
      r := Ok(Unit);
    } else if key == "access_log" {
      inner.metadata := inner.metadata.(accessLog := AccessLogValue(value));
      r := Ok(Unit);
    } else {
      r := Err("Unknown metadata item specified: '" + key + "'");
    }
  }

  /** The `addn-host` arm: check and read the file, push its entries one by one, then remember the path. */
  method AddnHost(path: string, inner: Inner, env: Env) returns (r: Result<Unit>)
    modifies inner
    ensures Applied(r, MetadataItem("addn-host", path, old(inner.View()), env), FailedItem("addn-host", path, old(inner.View()), env), inner.View())
  {
    if path !in env.files {
      return Err("Add-on host file does not exist, path: '" + path + "'");
    }
    var read := ReadHosts(path, env);
    if read.Err? {
      return Err(read.error);
    }
    ghost var t := inner.View();
    r := PushAll(path, read.value, inner);
    assert MetadataItem("addn-host", path, t, env) == PushedItem(path, read.value, t);
  }

  /** The loop of the `addn-host` arm over the entries of the file. */
  method PushAll(path: string, entries: seq<(string, Name)>, inner: Inner) returns (r: Result<Unit>)
    modifies inner
    ensures Applied(r, PushedItem(path, entries, old(inner.View())), old(inner.View()).(hosts := PushDefault(old(inner.hosts), entries)), inner.View())
  {
    r := PushLoop(entries, inner);
    if r.Ok? {
      inner.metadata := inner.metadata.(addnHost := Some(path));
      r := Ok(Unit);
    }
  }

  /**
   * The `for` loop itself: the hosts become `PushDefault` of the entries,
   * whatever the outcome. The list of `default` is built in a local and
   * stored whenever the loop ends.
   */
  method PushLoop(entries: seq<(string, Name)>, inner: Inner) returns (r: Result<Unit>)
    modifies inner
    ensures inner.View() == old(inner.View()).(hosts := PushDefault(old(inner.hosts), entries))
    ensures r == PushEntries(Entries(old(inner.hosts), DEFAULT_GROUP), entries, Addrs(entries)).1
  {
    if entries == [] {
      return Ok(Unit);
    }
    var list;
    list, r := PushList(Entries(inner.hosts, DEFAULT_GROUP), entries);
    inner.hosts := inner.hosts[DEFAULT_GROUP := list];
  }

  /** The loop of `addn-host` on the list of `default`: computes `PushEntries`. */
  method PushList(start: seq<HostEntry>, entries: seq<(string, Name)>) returns (list: seq<HostEntry>, r: Result<Unit>)
    ensures (list, r) == PushEntries(start, entries, Addrs(entries))
  {
    ghost var addrs := Addrs(entries);
    list := start;
    var i := 0;
    while i < |entries|
      invariant 0 <= i <= |entries|
      invariant PushEntries(start, entries, addrs) == PushEntries(list, entries[i..], addrs[i..])
    {
      var a := ParseIpAddr(entries[i].0);
      assert addrs[i..][0] == a && entries[i..][0] == entries[i];
      if a.None? {
        PushEntriesStop(list, entries[i..], addrs[i..]);
        return list, Err("Invalid ip addr '" + entries[i].0 + "'");
      }
      PushEntriesHead(list, entries[i..], addrs[i..], (a.value, entries[i].1));
      assert entries[i..][1..] == entries[i + 1..] && addrs[i..][1..] == addrs[i + 1..];
      list := list + [(a.value, entries[i].1)];
      i := i + 1;
    }
    r := Ok(Unit);
  }
}
