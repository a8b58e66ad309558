/**
 * `Inner::parse` (`src/config/mod.rs`): the configuration text is read line
 * by line; a line is skipped, opens a section, or is handed to the parser of
 * the current section; at the end a `default` server list must exist.
 */
module ConfigParse {
  import opened Wrappers
  import opened Text
  import opened Groups
  import opened Rules
  import opened Config
  import opened ServerSection
  import opened HostsSection
  import opened MetadataSection
  import opened ResolutionSection
  import Scanner

  /** The state of the line loop: the current section (none before the first header) and the tables. */
  datatype Cursor = Cursor(section: Option<Section>, tables: Tables)

  const START: Cursor := Cursor(None, EMPTY)

  /** `group::parse` on the tables: only the groups change. */
  function GroupLine(row: nat, line: string, t: Tables): Result<Tables> {
    match ParseGroup(row, line, t.groups)
    case Err(e) => Err(e)
    case Ok(groups) => Ok(t.(groups := groups))
  }

  /** A content line handed to the parser of section `s`. */
  function SectionLine(s: Section, row: nat, line: string, t: Tables, env: Env): Result<Tables> {
    match s
    case UnknownSection(name) => Err("Unknown section '" + name + "'")
    case GroupSection => GroupLine(row, line, t)
    case ServerSection => ParseServer(row, line, t)
    case HostSection(sub) => ParseHostsLine(sub, row, line, t, env)
    case MetadataSection => ParseMetadata(row, line, t, env)
    case Ipv6ResolutionSection => ParseIpv6Resolution(row, line, t)
  }

  /** A line after `trim_end` that is skipped: empty, or a comment. */
  predicate Skipped(line: string) {
    StartsWith(line, "#") || line == ""
  }

  /** A line after `trim_end` that opens a section. */
  predicate Header(line: string) {
    StartsWith(line, "[") && EndsWith(line, "]")
  }

  /** One turn of the line loop, for the line numbered `row` (from 1). */
  function ParseLine(row: nat, raw: string, c: Cursor, env: Env): Result<Cursor> {
    var line := TrimEnd(raw);
    if Skipped(line) then Ok(c)
    else if Header(line) then Ok(c.(section := Some(ParseSection(TrimMatches(line, {'[', ']'})))))
    else
      match c.section
      case None => Err("Unexpected error, missing section " + line)
      case Some(s) =>
        match SectionLine(s, row, line, c.tables, env)
        case Err(e) => Err(e)
        case Ok(t) => Ok(c.(tables := t))
  }

  /** The line loop from line `i` (numbered `i + 1`) on; the first error ends it. */
  function ParseLinesFrom(lines: seq<string>, i: nat, c: Cursor, env: Env): Result<Cursor>
    requires i <= |lines|
    decreases |lines| - i
  {
    if i == |lines| then Ok(c)
    else
      match ParseLine(i + 1, lines[i], c, env)
      case Err(e) => Err(e)
      case Ok(next) => ParseLinesFrom(lines, i + 1, next, env)
  }

  /** One turn of the line loop. */
  lemma ParseLinesStep(lines: seq<string>, i: nat, c: Cursor, env: Env)
    requires i < |lines|
    ensures ParseLinesFrom(lines, i, c, env) ==
      match ParseLine(i + 1, lines[i], c, env)
      case Err(e) => Err(e)
      case Ok(next) => ParseLinesFrom(lines, i + 1, next, env)
  {
  }

  const MISSING_DEFAULT: string := "Must specify a default upstream server, missing 'default' field in server section"

  /** `Inner::parse`: the line loop from empty tables, then the check for a `default` server list. */
  function ParseConfig(text: string, env: Env): Result<Tables> {
    match ParseLinesFrom(Lines(text), 0, START, env)
    case Err(e) => Err(e)
    case Ok(c) => if DEFAULT_GROUP !in c.tables.servers then Err(MISSING_DEFAULT) else Ok(c.tables)
  }

  // ---- what a line does ----

  /** Blank lines and comments change nothing. */
  lemma SkippedLineKeeps(row: nat, raw: string, c: Cursor, env: Env)
    requires Skipped(TrimEnd(raw))
    ensures ParseLine(row, raw, c, env) == Ok(c)
  {
  }

  /** A header line switches the section and keeps the tables. */
  lemma HeaderSwitches(row: nat, raw: string, c: Cursor, env: Env)
    requires !Skipped(TrimEnd(raw)) && Header(TrimEnd(raw))
    ensures ParseLine(row, raw, c, env).Ok?
    ensures ParseLine(row, raw, c, env).value.tables == c.tables
    ensures ParseLine(row, raw, c, env).value.section == Some(ParseSection(TrimMatches(TrimEnd(raw), {'[', ']'})))
  {
  }

  /** A content line before the first header is an error. */
  lemma NoSectionFails(row: nat, raw: string, c: Cursor, env: Env)
    requires c.section.None?
    requires !Skipped(TrimEnd(raw)) && !Header(TrimEnd(raw))
    ensures ParseLine(row, raw, c, env) == Err("Unexpected error, missing section " + TrimEnd(raw))
  {
  }

  /** A content line in a section of unknown name is an error, whatever it holds. */
  lemma UnknownSectionFails(row: nat, raw: string, c: Cursor, env: Env, name: string)
    requires c.section == Some(UnknownSection(name))
    requires !Skipped(TrimEnd(raw)) && !Header(TrimEnd(raw))
    ensures ParseLine(row, raw, c, env) == Err("Unknown section '" + name + "'")
  {
  }

  /** A configuration that parses has a `default` server list. */
  lemma ParsedHasDefault(text: string, env: Env)
    requires ParseConfig(text, env).Ok?
    ensures DEFAULT_GROUP in ParseConfig(text, env).value.servers
  {
  }

  // ---- the invariant every parsed configuration keeps ----

  /**
   * What the handler relies on: every server list is non-empty, and every
   * group named by a server list, a host list or a rule list is `default` or
   * defined; a country rule is only stored alongside a GeoIP database.
   */
  predicate WellFormed(t: Tables) {
    (forall g :: g in t.servers ==> KnownGroup(t, g) && |t.servers[g]| >= 1)
    && (forall g :: g in t.hosts ==> KnownGroup(t, g))
    && (forall g :: g in t.ipv6Resolution ==> KnownGroup(t, g))
    && CountryRulesHaveDb(t)
  }

  lemma EmptyWellFormed()
    ensures WellFormed(EMPTY)
  {
  }

  /** Tables that only gain groups, keep their lists and keep a loaded database stay well-formed. */
  lemma {:induction false} GrowKeeps(t: Tables, u: Tables)
    requires WellFormed(t)
    requires t.groups.Keys <= u.groups.Keys
    requires u.servers == t.servers && u.ipv6Resolution == t.ipv6Resolution
    requires u.hosts.Keys <= t.hosts.Keys + {DEFAULT_GROUP}
    requires t.metadata.mmdb.Some? ==> u.metadata.mmdb.Some?
    ensures WellFormed(u)
  {
    assert forall g :: KnownGroup(t, g) ==> KnownGroup(u, g);
    forall g, i | g in u.ipv6Resolution && 0 <= i < |u.ipv6Resolution[g]| && u.ipv6Resolution[g][i].directive.Country?
      ensures u.metadata.mmdb.Some?
    {
      assert t.ipv6Resolution[g][i].directive.Country?;
    }
  }

  lemma GroupLineKeeps(row: nat, line: string, t: Tables)
    requires WellFormed(t) && GroupLine(row, line, t).Ok?
    ensures WellFormed(GroupLine(row, line, t).value)
  {
    var s := Scanner.ParseKeyValuePair(line);
    ParseGroupReplaces(row, line, t.groups, s.key, s.value, s.valueStart);
    GrowKeeps(t, GroupLine(row, line, t).value);
  }

  lemma ServerLineKeeps(row: nat, line: string, t: Tables)
    requires WellFormed(t) && ParseServer(row, line, t).Ok?
    ensures WellFormed(ParseServer(row, line, t).value)
  {
    var s := Scanner.ParseKeyValuePair(line);
    ParseServerSpec(row, line, t);
    ServerListSpec(s.value);
    var u := ParseServer(row, line, t).value;
    assert forall g :: KnownGroup(t, g) <==> KnownGroup(u, g);
    assert CountryRulesHaveDb(u) by {
      assert u.ipv6Resolution == t.ipv6Resolution && u.metadata == t.metadata;
    }
  }

  lemma HostsLineKeeps(sub: string, row: nat, line: string, t: Tables, env: Env)
    requires WellFormed(t) && ParseHostsLine(sub, row, line, t, env).Ok?
    ensures WellFormed(ParseHostsLine(sub, row, line, t, env).value)
  {
    if !KnownGroup(t, sub) {
      UnknownGroupFails(sub, row, line, t, env);
    }
    HostsAppendOnly(sub, row, line, t, env);
    var u := ParseHostsLine(sub, row, line, t, env).value;
    var extra :| u == Append(t, sub, extra);
    assert forall g :: KnownGroup(t, g) <==> KnownGroup(u, g);
    assert CountryRulesHaveDb(u) by {
      assert u.ipv6Resolution == t.ipv6Resolution && u.metadata == t.metadata;
    }
  }

  lemma MetadataLineKeeps(row: nat, line: string, t: Tables, env: Env)
    requires WellFormed(t) && ParseMetadata(row, line, t, env).Ok?
    ensures WellFormed(ParseMetadata(row, line, t, env).value)
  {
    var s := Scanner.ParseKeyValuePair(line);
    var u := MetadataItem(s.key, s.value, t, env).value;
    EachKeyOwnField(s.key, s.value, t, env);
    if s.key == "addn-host" {
      AddnHostKeys(s.value, t, env);
    }
    if s.key == "mmdb" {
      ValueFields(s.key, s.value, t, env);
    }
    GrowKeeps(t, u);
  }

  /** `addn-host` adds no host list other than that of `default`. */
  lemma AddnHostKeys(value: string, t: Tables, env: Env)
    requires MetadataItem("addn-host", value, t, env).Ok?
    ensures MetadataItem("addn-host", value, t, env).value.hosts.Keys <= t.hosts.Keys + {DEFAULT_GROUP}
  {
    var entries := ReadHostsSpec(value, env).value;
    assert MetadataItem("addn-host", value, t, env) == PushedItem(value, entries, t);
  }

  lemma ResolutionLineKeeps(row: nat, line: string, t: Tables)
    requires WellFormed(t) && ParseIpv6Resolution(row, line, t).Ok?
    ensures WellFormed(ParseIpv6Resolution(row, line, t).value)
  {
    ParseIpv6ResolutionSpec(row, line, t);
    ParseKeepsCountryRulesHaveDb(row, line, t);
    var u := ParseIpv6Resolution(row, line, t).value;
    assert forall g :: KnownGroup(t, g) <==> KnownGroup(u, g);
  }

  /** Every section parser keeps the tables well-formed. */
  lemma SectionLineKeeps(s: Section, row: nat, line: string, t: Tables, env: Env)
    requires WellFormed(t) && SectionLine(s, row, line, t, env).Ok?
    ensures WellFormed(SectionLine(s, row, line, t, env).value)
  {
    match s
    case GroupSection => GroupLineKeeps(row, line, t);
    case ServerSection => ServerLineKeeps(row, line, t);
    case HostSection(sub) => HostsLineKeeps(sub, row, line, t, env);
    case MetadataSection => MetadataLineKeeps(row, line, t, env);
    case Ipv6ResolutionSection => ResolutionLineKeeps(row, line, t);
  }

  lemma ParseLineKeeps(row: nat, raw: string, c: Cursor, env: Env)
    requires WellFormed(c.tables) && ParseLine(row, raw, c, env).Ok?
    ensures WellFormed(ParseLine(row, raw, c, env).value.tables)
  {
    var line := TrimEnd(raw);
    if !Skipped(line) && !Header(line) {
      SectionLineKeeps(c.section.value, row, line, c.tables, env);
    }
  }

  lemma {:induction false} ParseLinesKeep(lines: seq<string>, i: nat, c: Cursor, env: Env)
    requires i <= |lines|
    requires WellFormed(c.tables) && ParseLinesFrom(lines, i, c, env).Ok?
    ensures WellFormed(ParseLinesFrom(lines, i, c, env).value.tables)
    decreases |lines| - i
  {
    if i < |lines| {
      ParseLineKeeps(i + 1, lines[i], c, env);
      ParseLinesKeep(lines, i + 1, ParseLine(i + 1, lines[i], c, env).value, env);
    }
  }

  /** Every configuration that parses is well-formed and has a `default` server list. */
  lemma ParsedWellFormed(text: string, env: Env)
    requires ParseConfig(text, env).Ok?
    ensures WellFormed(ParseConfig(text, env).value)
    ensures DEFAULT_GROUP in ParseConfig(text, env).value.servers
  {
    EmptyWellFormed();
    ParseLinesKeep(Lines(text), 0, START, env);
  }

  // ---- the loop itself ----

  /** `group::parse`: the groups of `inner` change as `GroupLine` says, and not at all on an error. */
  method ParseGroupLine(row: nat, line: string, inner: Inner) returns (r: Result<Unit>)
    modifies inner
    ensures Applied(r, GroupLine(row, line, old(inner.View())), old(inner.View()), inner.View())
  {
    var scanned := Scanner.ScanLine(line);
    if scanned.Failed? {
      return Err(Scanner.Message(scanned.error, row));
    }
    var ranges := ParseIpRange(scanned.value);
    if ranges.Err? {
      return Err(ranges.error);
    }
    inner.groups := inner.groups[scanned.key := ranges.value];
    r := Ok(Unit);
  }

  /** A content line handed to the section's parser; the tables change as `SectionLine` says when it succeeds. */
  method ApplySection(s: Section, row: nat, line: string, inner: Inner, env: Env) returns (r: Result<Unit>)
    modifies inner
    ensures match SectionLine(s, row, line, old(inner.View()), env)
      case Ok(t) => r == Ok(Unit) && inner.View() == t
      case Err(e) => r == Err(e)
  {
    match s
    case UnknownSection(name) =>
      r := Err("Unknown section '" + name + "'");
    case GroupSection =>
      r := ParseGroupLine(row, line, inner);
    case ServerSection =>
      r := ParseServerLine(row, line, inner);
    case HostSection(sub) =>
      r := ParseHostsSectionLine(sub, row, line, inner, env);
    case MetadataSection =>
      r := ParseMetadataLine(row, line, inner, env);
    case Ipv6ResolutionSection =>
      r := ParseIpv6ResolutionLine(row, line, inner);
  }

  /**
   * One turn of the loop in `Inner::parse`: the line is skipped, switches the
   * section or goes to the section's parser; the section and tables become
   * those `ParseLine` gives.
   */
  method ParseOneLine(row: nat, raw: string, section: Option<Section>, inner: Inner, env: Env)
    returns (r: Result<Option<Section>>)
    modifies inner
    ensures match ParseLine(row, raw, Cursor(section, old(inner.View())), env)
      case Ok(c) => r == Ok(c.section) && inner.View() == c.tables
      case Err(e) => r == Err(e)
  {
    var line := TrimEnd(raw);
    if Skipped(line) {
      r := Ok(section);
    } else if Header(line) {
      r := Ok(Some(ParseSection(TrimMatches(line, {'[', ']'}))));
    } else if section.None? {
      r := Err("Unexpected error, missing section " + line);
    } else {
      var res := ApplySection(section.value, row, line, inner, env);
      if res.Err? {
        return Err(res.error);
      }
      r := Ok(section);
    }
  }

  /** Line `i` of the loop, stated as how it moves the rest of the parse on by one line. */
  method ParseLineAt(lines: seq<string>, i: nat, section: Option<Section>, inner: Inner, env: Env)
    returns (r: Result<Option<Section>>)
    requires i < |lines|
    modifies inner
    ensures ParseLinesFrom(lines, i, Cursor(section, old(inner.View())), env) ==
      match r
      case Err(e) => Err(e)
      case Ok(s) => ParseLinesFrom(lines, i + 1, Cursor(s, inner.View()), env)
  {
    ParseLinesStep(lines, i, Cursor(section, inner.View()), env);
    r := ParseOneLine(i + 1, lines[i], section, inner, env);
  }

  /** The line loop of `Inner::parse`, run on `inner` from the start of the file. */
  method ParseAllLines(lines: seq<string>, inner: Inner, env: Env) returns (r: Result<Option<Section>>)
    modifies inner
    ensures ParseLinesFrom(lines, 0, Cursor(None, old(inner.View())), env) ==
      match r
      case Err(e) => Err(e)
      case Ok(s) => Ok(Cursor(s, inner.View()))
  {
    var section: Option<Section> := None;
    var i := 0;
    while i < |lines|
      invariant 0 <= i <= |lines|
      invariant ParseLinesFrom(lines, 0, Cursor(None, old(inner.View())), env) == ParseLinesFrom(lines, i, Cursor(section, inner.View()), env)
    {
      var res := ParseLineAt(lines, i, section, inner, env);
      if res.Err? {
        return Err(res.error);
      }
      section := res.value;
      i := i + 1;
    }
    r := Ok(section);
  }

  /** `Inner::parse`: a fresh `Inner` holding `ParseConfig`'s tables, or its error. */
  method ParseInner(text: string, env: Env) returns (r: Result<Inner>)
    ensures ParseConfig(text, env).Err? ==> r == Err(ParseConfig(text, env).error)
    ensures ParseConfig(text, env).Ok? ==> r.Ok? && fresh(r.value) && r.value.View() == ParseConfig(text, env).value
  {
    var inner := new Inner();
    var res := ParseAllLines(Lines(text), inner, env);
    if res.Err? {
      return Err(res.error);
    }
    if DEFAULT_GROUP !in inner.servers {
      return Err(MISSING_DEFAULT);
    }
    r := Ok(inner);
  }
}
