/**
 * The `[server]` section (`src/config/server.rs`): a line `group a, b, ...`
 * sets the upstream servers of a group that is `default` or already defined.
 */
module ServerSection {
  import opened Wrappers
  import opened Text
  import opened Config
  import Scanner

  /** The upstream list of a server value: the value split at ',', every piece trimmed, in order. */
  function ServerList(value: string): seq<string> {
    var parts := Split(value, ',');
    seq(|parts|, i requires 0 <= i < |parts| => Trim(parts[i]))
  }

  /**
   * The list is never empty and no entry holds a ','; when no piece carries
   * surrounding whitespace, joining the list with ',' gives the value back.
   */
  lemma ServerListSpec(value: string)
    ensures |ServerList(value)| >= 1
    ensures forall i :: 0 <= i < |ServerList(value)| ==> ',' !in ServerList(value)[i]
    ensures (forall i :: 0 <= i < |Split(value, ',')| ==> Trim(Split(value, ',')[i]) == Split(value, ',')[i])
      ==> Join(ServerList(value), ',') == value
  {
    var parts := Split(value, ',');
    forall i | 0 <= i < |parts| ensures ',' !in ServerList(value)[i] {
      TrimInside(parts[i], ',');
    }
    if forall i :: 0 <= i < |parts| ==> Trim(parts[i]) == parts[i] {
      assert ServerList(value) == parts;
      JoinSplit(value, ',');
    }
  }

  /** The group a section line may name: `default` or one defined in `[group]` before. */
  predicate KnownGroup(t: Tables, key: string) {
    key == DEFAULT_GROUP || key in t.groups
  }

  /** `server::parse` on the tables: scan the line, check the group, then set its list. */
  function ParseServer(row: nat, line: string, t: Tables): Result<Tables> {
    match Scanner.ParseKeyValuePair(line)
    case Failed(e) => Err(Scanner.Message(e, row))
    case Pair(key, value, _) =>
      if !KnownGroup(t, key) then Err("Can't find group '" + key + "' definition in " + line + ":1")
      else Ok(t.(servers := t.servers[key := ServerList(value)]))
  }

  /**
   * A server line succeeds exactly when it scans and names a known group;
   * it then sets that group's list, replacing an earlier one, and changes
   * nothing else. A scanner error comes back tagged with the row.
   */
  lemma ParseServerSpec(row: nat, line: string, t: Tables)
    ensures var s := Scanner.ParseKeyValuePair(line);
      ParseServer(row, line, t).Ok? <==> s.Pair? && KnownGroup(t, s.key)
    ensures var s := Scanner.ParseKeyValuePair(line);
      s.Failed? ==> ParseServer(row, line, t) == Err(Scanner.Message(s.error, row))
    ensures var s := Scanner.ParseKeyValuePair(line);
      ParseServer(row, line, t).Ok? ==>
        var u := ParseServer(row, line, t).value;
        u.servers.Keys == t.servers.Keys + {s.key} && u.servers[s.key] == ServerList(s.value)
        && (forall g :: g in t.servers && g != s.key ==> u.servers[g] == t.servers[g])
        && u == t.(servers := u.servers)
  {
  }

  /** `server::parse`: the tables of `inner` change as `ParseServer` says, and not at all on an error. */
  method ParseServerLine(row: nat, line: string, inner: Inner) returns (r: Result<Unit>)
    modifies inner
    ensures Applied(r, ParseServer(row, line, old(inner.View())), old(inner.View()), inner.View())
  {
    var scanned := Scanner.ScanLine(line);
    if scanned.Failed? {
      return Err(Scanner.Message(scanned.error, row));
    }
    var key := scanned.key;
    if key != DEFAULT_GROUP && key !in inner.groups {
      return Err("Can't find group '" + key + "' definition in " + line + ":1");
    }
    inner.servers := inner.servers[key := ServerList(scanned.value)];
    return Ok(Unit);
  }
}
