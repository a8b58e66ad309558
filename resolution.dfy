/**
 * The `[ipv6-resolution]` section (`ipv6_resolution_parse` in
 * `src/config/resolution.rs`): a line `group rule, rule, ...` sets the AAAA
 * filtering rules of a group that is `default` or already defined.
 */
module ResolutionSection {
  import opened Wrappers
  import opened Text
  import opened Rules
  import opened Config
  import opened ServerSection
  import Scanner

  /**
   * One comma-separated piece: trimmed and parsed by `Resolution::from_str`;
   * a country rule is refused when no GeoIP database is loaded, the error
   * naming the line and the column `at` where the value starts.
   */
  function CheckedRule(piece: string, hasDb: bool, at: string): (r: Result<Resolution>)
    ensures r.Ok? && r.value.directive.Country? ==> hasDb
  {
    match ParseResolution(Trim(piece))
    case Err(e) => Err(e)
    case Ok(rule) =>
      if rule.directive.Country? && !hasDb then Err("mmdb not found, unable to use 'country' command in line " + at)
      else Ok(rule)
  }

  /**
   * `collect::<Result<Vec<_>, _>>()` over the pieces: the first error stops
   * the collection; otherwise the rules, one per piece, in order.
   */
  function CollectRules(pieces: seq<string>, hasDb: bool, at: string): Result<seq<Resolution>>
    decreases |pieces|
  {
    if pieces == [] then Ok([])
    else
      match CheckedRule(pieces[0], hasDb, at)
      case Err(e) => Err(e)
      case Ok(rule) =>
        match CollectRules(pieces[1..], hasDb, at)
        case Err(e) => Err(e)
        case Ok(rules) => Ok([rule] + rules)
  }

  /**
   * The collection succeeds exactly when every piece is a rule, and then gives
   * one rule per piece, in order; otherwise it fails with the error of the
   * first piece that fails.
   */
  lemma CollectRulesSpec(pieces: seq<string>, hasDb: bool, at: string)
    ensures var r := CollectRules(pieces, hasDb, at);
      r.Ok? <==> forall i :: 0 <= i < |pieces| ==> CheckedRule(pieces[i], hasDb, at).Ok?
    ensures var r := CollectRules(pieces, hasDb, at);
      r.Ok? ==> (|r.value| == |pieces|
        && forall i :: 0 <= i < |pieces| ==> r.value[i] == CheckedRule(pieces[i], hasDb, at).value)
    ensures var r := CollectRules(pieces, hasDb, at);
      r.Err? ==> exists i: nat :: FirstFailure(pieces, hasDb, at, i) && r.error == CheckedRule(pieces[i], hasDb, at).error
  {
    CollectRulesOk(pieces, hasDb, at);
    if CollectRules(pieces, hasDb, at).Err? {
      var k :| 0 <= k < |pieces| && CheckedRule(pieces[k], hasDb, at).Err?;
      FirstFailureExists(pieces, hasDb, at, k);
      var i: nat :| FirstFailure(pieces, hasDb, at, i);
      FirstError(pieces, hasDb, at, i);
    }
  }

  /** The success half of `CollectRulesSpec`. */
  lemma CollectRulesOk(pieces: seq<string>, hasDb: bool, at: string)
    ensures var r := CollectRules(pieces, hasDb, at);
      r.Ok? <==> forall i :: 0 <= i < |pieces| ==> CheckedRule(pieces[i], hasDb, at).Ok?
    ensures var r := CollectRules(pieces, hasDb, at);
      r.Ok? ==> (|r.value| == |pieces|
        && forall i :: 0 <= i < |pieces| ==> r.value[i] == CheckedRule(pieces[i], hasDb, at).value)
  {
    CollectRulesOkIff(pieces, hasDb, at);
    if CollectRules(pieces, hasDb, at).Ok? {
      CollectRulesValues(pieces, hasDb, at);
    }
  }

  lemma {:induction false} CollectRulesOkIff(pieces: seq<string>, hasDb: bool, at: string)
    ensures CollectRules(pieces, hasDb, at).Ok? <==> forall i :: 0 <= i < |pieces| ==> CheckedRule(pieces[i], hasDb, at).Ok?
    decreases |pieces|
  {
    if pieces != [] {
      var rest := pieces[1..];
      assert forall i :: 1 <= i < |pieces| ==> pieces[i] == rest[i - 1];
      CollectRulesOkIff(rest, hasDb, at);
    }
  }

  lemma {:induction false} CollectRulesValues(pieces: seq<string>, hasDb: bool, at: string)
    requires CollectRules(pieces, hasDb, at).Ok?
    ensures var rules := CollectRules(pieces, hasDb, at).value;
      |rules| == |pieces| && forall i :: 0 <= i < |pieces| ==> CheckedRule(pieces[i], hasDb, at) == Ok(rules[i])
    decreases |pieces|
  {
    if pieces != [] {
      var rest := pieces[1..];
      var rule := CheckedRule(pieces[0], hasDb, at).value;
      var rules := CollectRules(rest, hasDb, at).value;
      CollectRulesValues(rest, hasDb, at);
      assert CollectRules(pieces, hasDb, at).value == [rule] + rules;
      assert forall i :: 1 <= i < |pieces| ==> pieces[i] == rest[i - 1] && ([rule] + rules)[i] == rules[i - 1];
    }
  }

  /** When some piece fails, a first one does. */
  lemma {:induction false} FirstFailureExists(pieces: seq<string>, hasDb: bool, at: string, k: nat)
    requires k < |pieces| && CheckedRule(pieces[k], hasDb, at).Err?
    ensures exists i: nat :: FirstFailure(pieces, hasDb, at, i)
    decreases k
  {
    if forall j :: 0 <= j < k ==> CheckedRule(pieces[j], hasDb, at).Ok? {
      assert FirstFailure(pieces, hasDb, at, k);
    } else {
      var j :| 0 <= j < k && CheckedRule(pieces[j], hasDb, at).Err?;
      FirstFailureExists(pieces, hasDb, at, j);
    }
  }

  /** Piece `i` is the first that fails. */
  predicate FirstFailure(pieces: seq<string>, hasDb: bool, at: string, i: nat) {
    i < |pieces| && CheckedRule(pieces[i], hasDb, at).Err?
    && forall k :: 0 <= k < i ==> CheckedRule(pieces[k], hasDb, at).Ok?
  }

  /** Where a value starts, as the country error names it. */
  function Position(row: nat, col: nat): string {
    NatToString(row) + ":" + NatToString(col)
  }

  /** `ipv6_resolution_parse` on the tables: scan, check the group, collect the rules, then set them. */
  function ParseIpv6Resolution(row: nat, line: string, t: Tables): Result<Tables> {
    match Scanner.ParseKeyValuePair(line)
    case Failed(e) => Err(Scanner.Message(e, row))
    case Pair(key, value, col) =>
      if !KnownGroup(t, key) then Err("Can't find group '" + key + "' definition in " + line + ":1")
      else
        match CollectRules(Split(value, ','), t.metadata.mmdb.Some?, Position(row, col))
        case Err(e) => Err(e)
        case Ok(rules) => Ok(t.(ipv6Resolution := t.ipv6Resolution[key := rules]))
  }

  /**
   * A rule line succeeds exactly when it scans, names a known group and every
   * piece is a rule (a country rule only with a GeoIP database); the group's
   * rules are then replaced by the pieces' rules in order, and nothing else changes.
   */
  lemma ParseIpv6ResolutionSpec(row: nat, line: string, t: Tables)
    ensures var s := Scanner.ParseKeyValuePair(line);
      ParseIpv6Resolution(row, line, t).Ok? <==>
        s.Pair? && KnownGroup(t, s.key)
        && forall i :: 0 <= i < |Split(s.value, ',')| ==>
          CheckedRule(Split(s.value, ',')[i], t.metadata.mmdb.Some?, Position(row, s.valueStart)).Ok?
    ensures var s := Scanner.ParseKeyValuePair(line);
      ParseIpv6Resolution(row, line, t).Ok? ==>
        var u := ParseIpv6Resolution(row, line, t).value;
        var pieces := Split(s.value, ',');
        u == t.(ipv6Resolution := u.ipv6Resolution)
        && u.ipv6Resolution.Keys == t.ipv6Resolution.Keys + {s.key}
        && |u.ipv6Resolution[s.key]| == |pieces|
        && (forall i :: 0 <= i < |pieces| ==> ParseResolution(Trim(pieces[i])) == Ok(u.ipv6Resolution[s.key][i]))
        && (forall g :: g in t.ipv6Resolution && g != s.key ==> u.ipv6Resolution[g] == t.ipv6Resolution[g])
  {
    ResolutionLineOkIff(row, line, t);
    if ParseIpv6Resolution(row, line, t).Ok? {
      ResolutionLineUpdate(row, line, t);
    }
  }

  lemma ResolutionLineOkIff(row: nat, line: string, t: Tables)
    ensures var s := Scanner.ParseKeyValuePair(line);
      ParseIpv6Resolution(row, line, t).Ok? <==>
        s.Pair? && KnownGroup(t, s.key)
        && forall i :: 0 <= i < |Split(s.value, ',')| ==>
          CheckedRule(Split(s.value, ',')[i], t.metadata.mmdb.Some?, Position(row, s.valueStart)).Ok?
  {
    var s := Scanner.ParseKeyValuePair(line);
    if s.Pair? && KnownGroup(t, s.key) {
      CollectRulesOkIff(Split(s.value, ','), t.metadata.mmdb.Some?, Position(row, s.valueStart));
      ResolutionLineCollects(row, line, t);
    }
  }

  lemma ResolutionLineUpdate(row: nat, line: string, t: Tables)
    requires ParseIpv6Resolution(row, line, t).Ok?
    ensures var s := Scanner.ParseKeyValuePair(line);
      var u := ParseIpv6Resolution(row, line, t).value;
      var pieces := Split(s.value, ',');
      u == t.(ipv6Resolution := u.ipv6Resolution)
      && u.ipv6Resolution.Keys == t.ipv6Resolution.Keys + {s.key}
      && |u.ipv6Resolution[s.key]| == |pieces|
      && (forall i :: 0 <= i < |pieces| ==> ParseResolution(Trim(pieces[i])) == Ok(u.ipv6Resolution[s.key][i]))
      && (forall g :: g in t.ipv6Resolution && g != s.key ==> u.ipv6Resolution[g] == t.ipv6Resolution[g])
  {
    ResolutionLineCollects(row, line, t);
    ResolutionLineRules(row, line, t);
  }

  /** A scanned line under a known group fails or succeeds as its collection does. */
  lemma ResolutionLineCollects(row: nat, line: string, t: Tables)
    requires Scanner.ParseKeyValuePair(line).Pair? && KnownGroup(t, Scanner.ParseKeyValuePair(line).key)
    ensures var s := Scanner.ParseKeyValuePair(line);
      var c := CollectRules(Split(s.value, ','), t.metadata.mmdb.Some?, Position(row, s.valueStart));
      ParseIpv6Resolution(row, line, t) ==
        if c.Ok? then Ok(t.(ipv6Resolution := t.ipv6Resolution[s.key := c.value])) else Err(c.error)
  {
  }

  /** After a successful collection, rule `i` of the group is what piece `i` parses to. */
  lemma ResolutionLineRules(row: nat, line: string, t: Tables)
    requires var s := Scanner.ParseKeyValuePair(line);
      s.Pair? && KnownGroup(t, s.key)
      && CollectRules(Split(s.value, ','), t.metadata.mmdb.Some?, Position(row, s.valueStart)).Ok?
    ensures var s := Scanner.ParseKeyValuePair(line);
      var pieces := Split(s.value, ',');
      var rules := CollectRules(pieces, t.metadata.mmdb.Some?, Position(row, s.valueStart)).value;
      |rules| == |pieces| && forall i :: 0 <= i < |pieces| ==> ParseResolution(Trim(pieces[i])) == Ok(rules[i])
  {
    var s := Scanner.ParseKeyValuePair(line);
    var pieces := Split(s.value, ',');
    var hasDb := t.metadata.mmdb.Some?;
    var at := Position(row, s.valueStart);
    var rules := CollectRules(pieces, hasDb, at).value;
    CollectRulesValues(pieces, hasDb, at);
    forall i | 0 <= i < |pieces|
      ensures ParseResolution(Trim(pieces[i])) == Ok(rules[i])
    {
      assert CheckedRule(pieces[i], hasDb, at) == Ok(rules[i]);
    }
  }

  /** A country rule without a GeoIP database is refused, whatever else the line holds. */
  lemma CountryNeedsDb(row: nat, line: string, t: Tables, i: nat)
    requires t.metadata.mmdb.None?
    requires Scanner.ParseKeyValuePair(line).Pair?
    requires var pieces := Split(Scanner.ParseKeyValuePair(line).value, ',');
      i < |pieces| && ParseResolution(Trim(pieces[i])).Ok? && ParseResolution(Trim(pieces[i])).value.directive.Country?
    ensures ParseIpv6Resolution(row, line, t).Err?
  {
    var s := Scanner.ParseKeyValuePair(line);
    CollectRulesSpec(Split(s.value, ','), false, Position(row, s.valueStart));
    assert CheckedRule(Split(s.value, ',')[i], false, Position(row, s.valueStart)).Err?;
  }

  /** A rule line keeps the invariant that country rules are stored only with a GeoIP database. */
  lemma ParseKeepsCountryRulesHaveDb(row: nat, line: string, t: Tables)
    requires CountryRulesHaveDb(t)
    requires ParseIpv6Resolution(row, line, t).Ok?
    ensures CountryRulesHaveDb(ParseIpv6Resolution(row, line, t).value)
  {
    var u := ParseIpv6Resolution(row, line, t).value;
    var s := Scanner.ParseKeyValuePair(line);
    var rules := u.ipv6Resolution[s.key];
    CollectRulesSpec(Split(s.value, ','), t.metadata.mmdb.Some?, Position(row, s.valueStart));
    forall g, i | g in u.ipv6Resolution && 0 <= i < |u.ipv6Resolution[g]| && u.ipv6Resolution[g][i].directive.Country?
      ensures u.metadata.mmdb.Some?
    {
      if g == s.key {
        assert CheckedRule(Split(s.value, ',')[i], t.metadata.mmdb.Some?, Position(row, s.valueStart)).value == rules[i];
      } else {
        assert u.ipv6Resolution[g] == t.ipv6Resolution[g];
      }
    }
  }

  /** The collecting loop: computes `CollectRules`. */
  method CollectLoop(pieces: seq<string>, hasDb: bool, at: string) returns (r: Result<seq<Resolution>>)
    ensures r == CollectRules(pieces, hasDb, at)
  {
    var rules: seq<Resolution> := [];
    var i := 0;
    while i < |pieces|
      invariant 0 <= i <= |pieces| && |rules| == i
      invariant forall k :: 0 <= k < i ==> CheckedRule(pieces[k], hasDb, at).Ok? && rules[k] == CheckedRule(pieces[k], hasDb, at).value
    {
      var rule := CheckedRule(pieces[i], hasDb, at);
      if rule.Err? {
        FirstError(pieces, hasDb, at, i);
        return Err(rule.error);
      }
      rules := rules + [rule.value];
      i := i + 1;
    }
    CollectRulesSpec(pieces, hasDb, at);
    assert CollectRules(pieces, hasDb, at).value == rules;
    r := Ok(rules);
  }

  /** The collection fails with the error of the first piece that fails. */
  lemma {:induction false} FirstError(pieces: seq<string>, hasDb: bool, at: string, i: nat)
    requires FirstFailure(pieces, hasDb, at, i)
    ensures CollectRules(pieces, hasDb, at) == Err(CheckedRule(pieces[i], hasDb, at).error)
  {
    if i > 0 {
      assert CheckedRule(pieces[0], hasDb, at).Ok?;
      assert forall k :: 0 <= k < i - 1 ==> pieces[1..][k] == pieces[k + 1];
      assert pieces[1..][i - 1] == pieces[i];
      FirstError(pieces[1..], hasDb, at, i - 1);
    }
  }

  /** `ipv6_resolution_parse`: the tables of `inner` change as `ParseIpv6Resolution` says, and not at all on an error. */
  method ParseIpv6ResolutionLine(row: nat, line: string, inner: Inner) returns (r: Result<Unit>)
    modifies inner
    ensures Applied(r, ParseIpv6Resolution(row, line, old(inner.View())), old(inner.View()), inner.View())
  {
    var scanned := Scanner.ScanLine(line);
    if scanned.Failed? {
      return Err(Scanner.Message(scanned.error, row));
    }
    var key := scanned.key;
    if key != DEFAULT_GROUP && key !in inner.groups {
      return Err("Can't find group '" + key + "' definition in " + line + ":1");
    }
    var rules := CollectLoop(Split(scanned.value, ','), inner.metadata.mmdb.Some?, Position(row, scanned.valueStart));
    if rules.Err? {
      return Err(rules.error);
    }
    inner.ipv6Resolution := inner.ipv6Resolution[key := rules.value];
    r := Ok(Unit);
  }
}
