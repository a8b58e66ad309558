/**
 * The key/value line scanner of the configuration language
 * (`parse_key_value_pair`): a key made of letters, digits, '.', '-', ':' or
 * non-ASCII characters, a run of spaces, then a value; '"' toggles quoting
 * and is dropped; '#' outside quotes ends the line.
 */
module Scanner {
  import opened Text

  /** The error half of the scanner's result, with the 1-based column it was found at. */
  datatype ScanError = UnexpectedChar(ch: char, column: nat) | UnmatchedQuotes(column: nat)

  /** `Ok((key, value, value_start_pos))` or `Err((error, column))`. */
  datatype Scanned = Pair(key: string, value: string, valueStart: nat) | Failed(error: ScanError)

  /** A character allowed in key position. */
  predicate KeyChar(c: char) {
    IsAsciiAlpha(c) || IsAsciiDigit(c) || c == '.' || c == '-' || c == ':' || c as int >= 0x80
  }

  /** The scanner's mutable variables. */
  datatype State = State(key: string, value: string, column: nat, isKey: bool, inQuotes: bool, valueStart: nat)

  /** How the character loop ends: the characters ran out or a comment began, or an unexpected character. */
  datatype Outcome = Stopped(st: State) | Rejected(error: ScanError)

  /** One turn of the loop: go on from index `j`, stop, or fail. */
  datatype Move = Next(j: nat, st: State) | Stop(st: State) | Fail(error: ScanError)

  /** The number of spaces starting at `i`. */
  function SpaceRun(cs: string, i: nat): (n: nat)
    requires i <= |cs|
    ensures i + n <= |cs|
    decreases |cs| - i
  {
    if i < |cs| && cs[i] == ' ' then 1 + SpaceRun(cs, i + 1) else 0
  }

  lemma {:induction false} SpaceRunSpec(cs: string, i: nat)
    requires i <= |cs|
    ensures var n := SpaceRun(cs, i);
      (forall k :: i <= k < i + n ==> cs[k] == ' ') && (i + n == |cs| || cs[i + n] != ' ')
    decreases |cs| - i
  {
    if i < |cs| && cs[i] == ' ' {
      SpaceRunSpec(cs, i + 1);
    }
  }

  /** The turn of the loop that reads `cs[i]`, including the peek loop that swallows the spaces after it. */
  function Step(cs: string, i: nat, st: State): (m: Move)
    requires i < |cs|
    ensures m.Next? ==> i < m.j <= |cs|
  {
    var ch := cs[i];
    var col := st.column + 1;
    if ch == ' ' && st.isKey then
      var n := SpaceRun(cs, i + 1);
      Next(i + 1 + n,
        if st.key != [] then st.(column := col + n, isKey := false, valueStart := col + n + 1) else st.(column := col + n))
    else if ch == '"' then Next(i + 1, st.(column := col, inQuotes := !st.inQuotes))
    else if ch == '#' && !st.inQuotes then Stop(st.(column := col))
    else if KeyChar(ch) || !st.isKey then
      Next(i + 1, if st.isKey then st.(column := col, key := st.key + [ch]) else st.(column := col, value := st.value + [ch]))
    else Fail(UnexpectedChar(ch, col))
  }

  /** The character loop from index `i` of the left-trimmed line. */
  function Run(cs: string, i: nat, st: State): Outcome
    requires i <= |cs|
    decreases |cs| - i
  {
    if i == |cs| then Stopped(st)
    else
      match Step(cs, i, st)
      case Stop(st') => Stopped(st')
      case Fail(e) => Rejected(e)
      case Next(j, st') => Run(cs, j, st')
  }

  /** After the loop: an open quote is an error, otherwise the key and the trimmed value. */
  function Finish(o: Outcome): Scanned {
    match o
    case Rejected(e) => Failed(e)
    case Stopped(st) =>
      if st.inQuotes then Failed(UnmatchedQuotes(st.column)) else Pair(st.key, Trim(st.value), st.valueStart)
  }

  /** The column count starts at the byte length of the leading whitespace. */
  function Start(line: string): State {
    var cs := TrimStart(line);
    State("", "", Utf8Len(line[..|line| - |cs|]), true, false, 0)
  }

  /** The result of `parse_key_value_pair(line)`. */
  function ParseKeyValuePair(line: string): Scanned {
    Finish(Run(TrimStart(line), 0, Start(line)))
  }

  lemma {:induction false} SpaceRunExact(cs: string, i: nat, j: nat)
    requires i <= j <= |cs|
    requires forall k :: i <= k < j ==> cs[k] == ' '
    requires j == |cs| || cs[j] != ' '
    ensures SpaceRun(cs, i) == j - i
    decreases j - i
  {
    if i < j {
      SpaceRunExact(cs, i + 1, j);
    }
  }

  /** The peek loop of `parse_key_value_pair`: the index of the first non-space at or after `i`. */
  method SkipSpaces(cs: string, i: nat) returns (j: nat)
    requires i <= |cs|
    ensures j == i + SpaceRun(cs, i)
  {
    j := i;
    while j < |cs| && cs[j] == ' '
      invariant i <= j <= |cs|
      invariant forall k :: i <= k < j ==> cs[k] == ' '
      decreases |cs| - j
    {
      j := j + 1;
    }
    SpaceRunExact(cs, i, j);
  }

  lemma {:induction false} RunNext(cs: string, i: nat, st: State, j: nat, st': State)
    requires i < |cs| && Step(cs, i, st) == Next(j, st')
    ensures Run(cs, i, st) == Run(cs, j, st')
  {
  }

  /** `parse_key_value_pair`: the character loop over the left-trimmed line, then the quote check. */
  method ScanLine(line: string) returns (r: Scanned)
    ensures r == ParseKeyValuePair(line)
  {
    var cs := TrimStart(line);
    var key, value := "", "";
    var column: nat := Utf8Len(line[..|line| - |cs|]);
    var isKey, inQuotes := true, false;
    var valueStart: nat := 0;
    var i := 0;
    while i < |cs|
      invariant i <= |cs|
      invariant Run(cs, i, State(key, value, column, isKey, inQuotes, valueStart)) == Run(cs, 0, Start(line))
      decreases |cs| - i
    {
      ghost var i0, st0 := i, State(key, value, column, isKey, inQuotes, valueStart);
      var ch := cs[i];
      i := i + 1;
      column := column + 1;
      if ch == ' ' && isKey {
        var j := SkipSpaces(cs, i);
        column := column + (j - i);
        i := j;
        if key != [] {
          isKey := false;
          valueStart := column + 1;
        }
      } else if ch == '"' {
        inQuotes := !inQuotes;
      } else if ch == '#' && !inQuotes {
        assert Step(cs, i0, st0) == Stop(State(key, value, column, isKey, inQuotes, valueStart));
        break;
      } else if KeyChar(ch) || !isKey {
        if isKey {
          key := key + [ch];
        } else {
          value := value + [ch];
        }
      } else {
        assert Step(cs, i0, st0) == Fail(UnexpectedChar(ch, column));
        return Failed(UnexpectedChar(ch, column));
      }
      RunNext(cs, i0, st0, i, State(key, value, column, isKey, inQuotes, valueStart));
    }
    if inQuotes {
      return Failed(UnmatchedQuotes(column));
    }
    return Pair(key, Trim(value), valueStart);
  }

  // ---- what the scanner promises ----

  /** The number of '"' characters in `s`. */
  function QuoteCount(s: string): nat {
    if s == [] then 0 else (if s[0] == '"' then 1 else 0) + QuoteCount(s[1..])
  }

  /** `s` with every '"' removed. */
  function Unquote(s: string): (r: string)
    ensures '"' !in r
  {
    if s == [] then [] else (if s[0] == '"' then [] else [s[0]]) + Unquote(s[1..])
  }

  predicate Odd(n: nat) { n % 2 == 1 }

  lemma {:induction false} QuoteCountFree(cs: string, i: nat, j: nat, k: nat)
    requires i <= j <= k <= |cs|
    requires forall m :: i <= m < j ==> cs[m] != '"'
    ensures QuoteCount(cs[i..k]) == QuoteCount(cs[j..k])
    decreases j - i
  {
    if i < j {
      assert cs[i..k][1..] == cs[i + 1..k];
      QuoteCountFree(cs, i + 1, j, k);
    }
  }

  lemma {:induction false} TrimStartQuotes(s: string)
    ensures QuoteCount(TrimStart(s)) == QuoteCount(s)
  {
    LeadingSpaceSpec(s, 0);
    QuoteCountFree(s, 0, LeadingSpace(s, 0), |s|);
    assert s[0..|s|] == s;
  }

  /** Invariant of every reachable state: the key holds only key characters, the value no quote. */
  predicate Clean(st: State) {
    (forall k :: 0 <= k < |st.key| ==> KeyChar(st.key[k])) && '"' !in st.value
  }

  lemma {:induction false} StepClean(cs: string, i: nat, st: State)
    requires i < |cs| && Clean(st)
    ensures match Step(cs, i, st)
      case Next(_, st') => Clean(st')
      case Stop(st') => Clean(st')
      case Fail(_) => true
  {
    var ch := cs[i];
    if ch == ' ' && st.isKey {
    } else if ch == '"' {
    } else if ch == '#' && !st.inQuotes {
    } else if KeyChar(ch) && st.isKey {
      var key := st.key + [ch];
      assert forall k :: 0 <= k < |key| ==> KeyChar(key[k]);
    } else if !st.isKey {
      assert '"' !in st.value + [ch];
    }
  }

  lemma {:induction false} RunClean(cs: string, i: nat, st: State)
    requires i <= |cs| && Clean(st)
    ensures Run(cs, i, st).Stopped? ==> Clean(Run(cs, i, st).st)
    decreases |cs| - i
  {
    if i < |cs| {
      StepClean(cs, i, st);
      match Step(cs, i, st)
      case Stop(_) =>
      case Fail(_) =>
      case Next(j, st') => RunClean(cs, j, st');
    }
  }

  /**
   * A '"' is never copied into the key or the value, and the key holds only
   * letters, digits, '.', '-', ':' and non-ASCII characters.
   */
  lemma {:induction false} PairIsClean(line: string)
    ensures var r := ParseKeyValuePair(line);
      r.Pair? ==> '"' !in r.key && '"' !in r.value && (forall k :: 0 <= k < |r.key| ==> KeyChar(r.key[k]))
  {
    RunClean(TrimStart(line), 0, Start(line));
    FinishClean(Run(TrimStart(line), 0, Start(line)));
  }

  lemma {:induction false} FinishClean(o: Outcome)
    requires o.Stopped? ==> Clean(o.st)
    ensures var r := Finish(o);
      r.Pair? ==> '"' !in r.key && '"' !in r.value && (forall k :: 0 <= k < |r.key| ==> KeyChar(r.key[k]))
  {
    if o.Stopped? {
      var t := TrimStart(o.st.value);
      assert forall c :: c in TrimEnd(t) ==> c in t;
    }
  }

  /** In particular no key contains '_', so a key such as `access_log` is never produced. */
  lemma {:induction false} NoUnderscoreKey(line: string)
    ensures var r := ParseKeyValuePair(line); r.Pair? ==> '_' !in r.key
  {
    PairIsClean(line);
  }

  lemma {:induction false} SpaceRunCut(cs: string, i: nat, k: nat)
    requires i <= k < |cs| && cs[k] != ' '
    ensures SpaceRun(cs, i) == SpaceRun(cs[..k], i)
    decreases k - i
  {
    if i < k && cs[i] == ' ' {
      SpaceRunCut(cs, i + 1, k);
    }
  }

  /** Before a '#' that stands outside quotes, a turn does the same on the line and on the line cut at it. */
  lemma {:induction false} StepCut(cs: string, k: nat, i: nat, st: State)
    requires i < k < |cs| && cs[k] == '#'
    requires st.inQuotes == Odd(QuoteCount(cs[i..k]))
    ensures Step(cs, i, st) == Step(cs[..k], i, st)
    ensures match Step(cs, i, st)
      case Next(j, st') => j <= k && st'.inQuotes == Odd(QuoteCount(cs[j..k]))
      case Stop(_) => true
      case Fail(_) => true
  {
    assert cs[..k][i] == cs[i];
    assert cs[i..k][1..] == cs[i + 1..k];
    if cs[i] == ' ' && st.isKey {
      SpaceRunCut(cs, i + 1, k);
      SpaceRunSpec(cs, i + 1);
      QuoteCountFree(cs, i, i + 1 + SpaceRun(cs, i + 1), k);
    }
  }

  lemma {:induction false} RunCut(cs: string, k: nat, i: nat, st: State)
    requires i <= k < |cs| && cs[k] == '#'
    requires st.inQuotes == Odd(QuoteCount(cs[i..k]))
    ensures Finish(Run(cs, i, st)) == Finish(Run(cs[..k], i, st))
    decreases k - i
  {
    if i == k {
      assert cs[i..k] == [];
      assert Step(cs, i, st) == Stop(st.(column := st.column + 1));
    } else {
      StepCut(cs, k, i, st);
      match Step(cs, i, st)
      case Stop(_) =>
      case Fail(_) =>
      case Next(j, st') => RunCut(cs, k, j, st');
    }
  }

  /** A line with nothing but whitespace has an empty key and an empty value. */
  lemma {:induction false} BlankLine(line: string)
    requires TrimStart(line) == []
    ensures ParseKeyValuePair(line) == Pair("", "", 0)
  {
    assert Trim("") == "";
  }

  /** A line whose first non-whitespace character is '#' has an empty key and an empty value. */
  lemma {:induction false} CommentLine(line: string)
    requires TrimStart(line) != [] && TrimStart(line)[0] == '#'
    ensures ParseKeyValuePair(line) == Pair("", "", 0)
  {
    var st := Start(line);
    assert Step(TrimStart(line), 0, st) == Stop(st.(column := st.column + 1));
    assert Trim("") == "";
  }

  lemma {:induction false} CutParse(line: string, p: string)
    requires var cs := TrimStart(line); var tp := TrimStart(p);
      |tp| < |cs| && cs[..|tp|] == tp && cs[|tp|] == '#' && !Odd(QuoteCount(tp))
    requires Start(line) == Start(p)
    ensures ParseKeyValuePair(line) == ParseKeyValuePair(p)
  {
    var cs := TrimStart(line);
    var tp := TrimStart(p);
    assert cs[0..|tp|] == tp;
    RunCut(cs, |tp|, 0, Start(line));
  }

  /** Outside quotes, '#' ends the line: whatever follows it is ignored. */
  lemma {:induction false} CommentEndsLine(p: string, rest: string)
    requires !Odd(QuoteCount(p))
    ensures ParseKeyValuePair(p + ['#'] + rest) == ParseKeyValuePair(p)
  {
    var line := p + ['#'] + rest;
    assert line == p + (['#'] + rest);
    TrimStartAppend(p, ['#'] + rest);
    if TrimStart(p) == [] {
      BlankLine(p);
      assert TrimStart(['#'] + rest) == ['#'] + rest;
      CommentLine(line);
    } else {
      var n := LeadingSpace(p, 0);
      assert line[..n] == p[..n];
      assert Start(line) == Start(p);
      TrimStartQuotes(p);
      CutParse(line, p);
    }
  }

  lemma {:induction false} RunKeyChars(cs: string, i: nat, j: nat, st: State)
    requires i <= j <= |cs| && st.isKey
    requires forall m :: i <= m < j ==> KeyChar(cs[m])
    ensures Run(cs, i, st) == Run(cs, j, st.(key := st.key + cs[i..j], column := st.column + (j - i)))
    decreases j - i
  {
    if i < j {
      var st' := st.(column := st.column + 1, key := st.key + [cs[i]]);
      assert Step(cs, i, st) == Next(i + 1, st');
      RunKeyChars(cs, i + 1, j, st');
      assert st.key + [cs[i]] + cs[i + 1..j] == st.key + cs[i..j];
    } else {
      assert st.key + cs[i..j] == st.key;
    }
  }

  /** The state the scanner starts in on a line without leading whitespace. */
  const INITIAL := State("", "", 0, true, false, 0)

  /** A line that starts with a non-whitespace character is scanned as it is, from column 0. */
  lemma {:induction false} PlainParse(line: string)
    requires line != [] && !IsWhitespace(line[0])
    ensures ParseKeyValuePair(line) == Finish(Run(line, 0, INITIAL))
  {
    assert LeadingSpace(line, 0) == 0;
    assert line[..0] == [];
  }

  /** Reading a key from the start of the line. */
  lemma {:induction false} KeyPart(line: string, k: string)
    requires |k| <= |line| && line[..|k|] == k
    requires forall m :: 0 <= m < |k| ==> KeyChar(k[m])
    ensures Run(line, 0, INITIAL) == Run(line, |k|, State(k, "", |k|, true, false, 0))
  {
    var st0 := INITIAL;
    assert line[0..|k|] == k;
    RunKeyChars(line, 0, |k|, st0);
    assert st0.(key := st0.key + line[0..|k|], column := st0.column + |k|) == State(k, "", |k|, true, false, 0);
  }

  /**
   * In key position any other ASCII character is an error reported at its
   * 1-based column (the line here starts without whitespace, so columns
   * count characters).
   */
  lemma {:induction false} ForbiddenKeyChar(k: string, c: char, rest: string)
    requires forall m :: 0 <= m < |k| ==> KeyChar(k[m])
    requires k == [] || !IsWhitespace(k[0])
    requires c as int < 0x80 && !KeyChar(c) && c != ' ' && c != '"' && c != '#'
    requires k != [] || !IsWhitespace(c)
    ensures ParseKeyValuePair(k + [c] + rest) == Failed(UnexpectedChar(c, |k| + 1))
  {
    var line := k + [c] + rest;
    assert line[0] == if k == [] then c else k[0];
    assert line[..|k|] == k && line[|k|] == c;
    PlainParse(line);
    ForbiddenRun(line, k, c);
  }

  lemma {:induction false} ForbiddenRun(line: string, k: string, c: char)
    requires |k| < |line| && line[..|k|] == k && line[|k|] == c
    requires forall m :: 0 <= m < |k| ==> KeyChar(k[m])
    requires c as int < 0x80 && !KeyChar(c) && c != ' ' && c != '"' && c != '#'
    ensures Run(line, 0, INITIAL) == Rejected(UnexpectedChar(c, |k| + 1))
  {
    KeyPart(line, k);
    assert Step(line, |k|, State(k, "", |k|, true, false, 0)) == Fail(UnexpectedChar(c, |k| + 1));
  }

  /** A line that is only a key has an empty value. */
  lemma {:induction false} KeyOnly(k: string)
    requires k != [] && !IsWhitespace(k[0])
    requires forall m :: 0 <= m < |k| ==> KeyChar(k[m])
    ensures ParseKeyValuePair(k) == Pair(k, "", 0)
  {
    PlainParse(k);
    KeyOnlyRun(k);
    assert Trim("") == "";
  }

  lemma {:induction false} KeyOnlyRun(k: string)
    requires forall m :: 0 <= m < |k| ==> KeyChar(k[m])
    ensures Run(k, 0, INITIAL) == Stopped(State(k, "", |k|, true, false, 0))
  {
    assert k[..|k|] == k;
    KeyPart(k, k);
  }

  /** The state after the value characters `w` (no '#') were read. */
  function AfterValue(st: State, w: string): State {
    st.(value := st.value + Unquote(w), inQuotes := st.inQuotes != Odd(QuoteCount(w)), column := st.column + |w|)
  }

  /** The state after one value character `ch` other than '#'. */
  function ValueStep(st: State, ch: char): State {
    if ch == '"' then st.(column := st.column + 1, inQuotes := !st.inQuotes)
    else st.(column := st.column + 1, value := st.value + [ch])
  }

  lemma {:induction false} AfterValueCons(st: State, ch: char, rest: string)
    ensures AfterValue(ValueStep(st, ch), rest) == AfterValue(st, [ch] + rest)
  {
    assert ([ch] + rest)[1..] == rest;
    if ch == '"' {
      assert Odd(1 + QuoteCount(rest)) == !Odd(QuoteCount(rest));
    } else {
      assert st.value + [ch] + Unquote(rest) == st.value + Unquote([ch] + rest);
    }
  }

  lemma {:induction false} RunValue(cs: string, i: nat, st: State)
    requires i <= |cs| && !st.isKey
    requires forall m :: i <= m < |cs| ==> cs[m] != '#'
    ensures Run(cs, i, st) == Stopped(AfterValue(st, cs[i..]))
    decreases |cs| - i
  {
    if i == |cs| {
      assert cs[i..] == [];
      assert st.value + [] == st.value;
      assert AfterValue(st, cs[i..]) == st;
    } else {
      var ch := cs[i];
      var st' := ValueStep(st, ch);
      assert Step(cs, i, st) == Next(i + 1, st');
      RunValue(cs, i + 1, st');
      assert cs[i..] == [ch] + cs[i + 1..];
      AfterValueCons(st, ch, cs[i + 1..]);
    }
  }

  lemma {:induction false} SpaceRunShift(cs: string, i: nat)
    requires i <= |cs|
    ensures SpaceRun(cs, i) == SpaceRun(cs[i..], 0)
    decreases |cs| - i
  {
    if i < |cs| && cs[i] == ' ' {
      SpaceRunShift(cs, i + 1);
      SpaceRunShift(cs[i..], 1);
      assert cs[i..][1..] == cs[i + 1..];
    }
  }

  lemma {:induction false} UnquoteSpaces(s: string, n: nat)
    requires n <= |s| && forall m :: 0 <= m < n ==> s[m] == ' '
    ensures Unquote(s) == s[..n] + Unquote(s[n..])
    ensures QuoteCount(s) == QuoteCount(s[n..])
  {
    if n > 0 {
      assert s[1..][..n - 1] == s[1..n];
      assert s[1..][n - 1..] == s[n..];
      UnquoteSpaces(s[1..], n - 1);
      assert s[..n] == [s[0]] + s[1..n];
    }
  }

  lemma {:induction false} TrimStartSpaces(sp: string, u: string)
    requires forall m :: 0 <= m < |sp| ==> sp[m] == ' '
    ensures TrimStart(sp + u) == TrimStart(u)
  {
    LeadingSpaceExact(sp, 0, |sp|);
    TrimStartAppend(sp, u);
  }

  /** Leading spaces change neither the quote-free trimmed value nor the quote parity. */
  lemma {:induction false} ValueAfterSpaces(v: string, n: nat)
    requires n <= |v| && forall m :: 0 <= m < n ==> v[m] == ' '
    ensures Trim(Unquote(v[n..])) == Trim(Unquote(v))
    ensures QuoteCount(v[n..]) == QuoteCount(v)
  {
    UnquoteSpaces(v, n);
    TrimStartSpaces(v[..n], Unquote(v[n..]));
  }

  /** Reading the space after the key, the spaces after it and then a value `v` without '#'. */
  lemma {:induction false} ValuePart(line: string, kl: nat, key: string, v: string)
    requires kl < |line| && line[kl] == ' ' && line[kl + 1..] == v && key != [] && '#' !in v
    ensures var n := SpaceRun(v, 0);
      Run(line, kl, State(key, "", kl, true, false, 0))
        == Stopped(State(key, Unquote(v[n..]), |line|, false, Odd(QuoteCount(v)), kl + 2 + n))
  {
    var st1 := State(key, "", kl, true, false, 0);
    SpaceRunShift(line, kl + 1);
    var n := SpaceRun(line, kl + 1);
    var st2 := st1.(column := kl + 1 + n, isKey := false, valueStart := kl + 2 + n);
    assert Step(line, kl, st1) == Next(kl + 1 + n, st2);
    assert line[kl + 1 + n..] == v[n..];
    RunValue(line, kl + 1 + n, st2);
    SpaceRunSpec(v, 0);
    assert QuoteCount(v[n..]) == QuoteCount(v) by { ValueAfterSpaces(v, n); }
    assert AfterValue(st2, v[n..]) == State(key, Unquote(v[n..]), |line|, false, Odd(QuoteCount(v)), kl + 2 + n);
  }

  /**
   * A key, a space and a value without '#': the key is the first token, and
   * the value is everything after the spaces, with quotes dropped and
   * whitespace trimmed; an odd number of quotes is an error at the end of the line.
   */
  lemma {:induction false} KeyThenValue(line: string, k: string, v: string)
    requires k != [] && !IsWhitespace(k[0])
    requires forall m :: 0 <= m < |k| ==> KeyChar(k[m])
    requires '#' !in v
    requires |line| == |k| + 1 + |v| && line[..|k|] == k && line[|k|] == ' ' && line[|k| + 1..] == v
    ensures ParseKeyValuePair(line) ==
      if Odd(QuoteCount(v)) then Failed(UnmatchedQuotes(|line|))
      else Pair(k, Trim(Unquote(v)), |k| + 2 + SpaceRun(v, 0))
  {
    var n := SpaceRun(v, 0);
    var st := State(k, Unquote(v[n..]), |line|, false, Odd(QuoteCount(v)), |k| + 2 + n);
    var r := ParseKeyValuePair(line);
    assert r == Finish(Stopped(st)) by { ParseKeySpaceValue(line, k, v); }
    if Odd(QuoteCount(v)) {
      assert r == Failed(UnmatchedQuotes(|line|));
    } else {
      FinishPair(st);
      TrimmedPair(r, k, v, |k| + 2 + n);
    }
  }

  lemma {:induction false} ValueTrim(v: string)
    ensures Trim(Unquote(v[SpaceRun(v, 0)..])) == Trim(Unquote(v))
  {
    SpaceRunSpec(v, 0);
    ValueAfterSpaces(v, SpaceRun(v, 0));
  }

  lemma {:induction false} ParseKeySpaceValue(line: string, k: string, v: string)
    requires k != [] && !IsWhitespace(k[0])
    requires forall m :: 0 <= m < |k| ==> KeyChar(k[m])
    requires '#' !in v
    requires |line| == |k| + 1 + |v| && line[..|k|] == k && line[|k|] == ' ' && line[|k| + 1..] == v
    ensures var n := SpaceRun(v, 0);
      ParseKeyValuePair(line) == Finish(Stopped(State(k, Unquote(v[n..]), |line|, false, Odd(QuoteCount(v)), |k| + 2 + n)))
  {
    assert line[0] == k[0];
    PlainParse(line);
    KeySpaceValue(line, k, v);
  }

  lemma {:induction false} TrimmedPair(r: Scanned, k: string, v: string, start: nat)
    requires r == Pair(k, Trim(Unquote(v[SpaceRun(v, 0)..])), start)
    ensures r == Pair(k, Trim(Unquote(v)), start)
  {
    ValueTrim(v);
  }

  lemma FinishPair(st: State)
    requires !st.inQuotes
    ensures Finish(Stopped(st)) == Pair(st.key, Trim(st.value), st.valueStart)
  {
  }

  lemma {:induction false} KeySpaceValue(line: string, k: string, v: string)
    requires k != [] && |k| < |line|
    requires line[..|k|] == k && line[|k|] == ' ' && line[|k| + 1..] == v
    requires forall m :: 0 <= m < |k| ==> KeyChar(k[m])
    requires '#' !in v
    ensures var n := SpaceRun(v, 0);
      Run(line, 0, INITIAL)
        == Stopped(State(k, Unquote(v[n..]), |line|, false, Odd(QuoteCount(v)), |k| + 2 + n))
  {
    KeyPart(line, k);
    ValuePart(line, |k|, k, v);
  }

  /** The message a scanner error becomes in a section parser: the error, then the row and the column. */
  function Message(e: ScanError, row: nat): string {
    MessageAt(e, NatToString(row))
  }

  /** `"{err} in line {at}:{col}"`: `at` is the row in a section parser and the line's text in `read_hosts`. */
  function MessageAt(e: ScanError, at: string): string {
    match e
    case UnexpectedChar(c, col) => "Unexpected character '" + [c] + "' in line " + at + ":" + NatToString(col)
    case UnmatchedQuotes(col) => "Unmatched quotes in input in line " + at + ":" + NatToString(col)
  }
}
