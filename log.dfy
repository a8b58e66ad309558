/**
 * The `[log]` settings (`src/config/log.rs`): `level`, `dir`, `max-files`
 * and `rotation`, each assigned to its own field of the `Log` passed in.
 */
module LogSection {
  import opened Wrappers
  import opened Text
  import opened Config
  import Scanner

  /** `tracing::Level`, most severe first. */
  datatype Level = Error | Warn | Info | Debug | Trace

  /** The number `Level::from_str` reads for a level: 1 for `ERROR` up to 5 for `TRACE`. */
  function LevelNumber(l: Level): (n: nat)
    ensures 1 <= n <= 5
  {
    match l
    case Error => 1
    case Warn => 2
    case Info => 3
    case Debug => 4
    case Trace => 5
  }

  /** `Display for Level`. */
  function LevelName(l: Level): string {
    match l
    case Error => "ERROR"
    case Warn => "WARN"
    case Info => "INFO"
    case Debug => "DEBUG"
    case Trace => "TRACE"
  }

  /** The level named `s`, ignoring ASCII case. */
  function LevelNamed(s: string): Option<Level> {
    if EqIgnoreAsciiCase(s, "error") then Some(Error)
    else if EqIgnoreAsciiCase(s, "warn") then Some(Warn)
    else if EqIgnoreAsciiCase(s, "info") then Some(Info)
    else if EqIgnoreAsciiCase(s, "debug") then Some(Debug)
    else if EqIgnoreAsciiCase(s, "trace") then Some(Trace)
    else None
  }

  /**
   * `Level::from_str`: a `usize` from 1 to 5 first; failing that, one of the
   * five names in any ASCII case.
   */
  function ParseLevel(s: string): Option<Level> {
    match ParseUnsigned(s, 10, USIZE_MAX)
    case Some(n) =>
      if n == 1 then Some(Error)
      else if n == 2 then Some(Warn)
      else if n == 3 then Some(Info)
      else if n == 4 then Some(Debug)
      else if n == 5 then Some(Trace)
      else LevelNamed(s)
    case None => LevelNamed(s)
  }

  /** Writing a level and reading it back gives the level. */
  lemma LevelNameRoundTrip(l: Level)
    ensures ParseLevel(LevelName(l)) == Some(l)
  {
    LevelNameAnyCase(l, LevelName(l));
  }

  /** A level's number reads back as the level. */
  lemma LevelNumberRoundTrip(l: Level)
    ensures ParseLevel(NatToString(LevelNumber(l))) == Some(l)
  {
    var n := LevelNumber(l);
    NatToStringValue(n);
    assert ParseUnsigned(NatToString(n), 10, USIZE_MAX) == Some(n);
  }

  /** Any ASCII case of a level's name reads back as the level. */
  lemma LevelNameAnyCase(l: Level, s: string)
    requires EqIgnoreAsciiCase(s, LevelName(l))
    ensures ParseLevel(s) == Some(l)
  {
    assert !IsAsciiDigit(s[0]) && s[0] != '+' by {
      assert AsciiLower(s[0]) == AsciiLower(LevelName(l)[0]);
    }
    NotDecimal(s, USIZE_MAX);
    LevelNamedAnyCase(l, s);
  }

  /** The name lookup alone: any ASCII case of a level's name is that level. */
  lemma LevelNamedAnyCase(l: Level, s: string)
    requires EqIgnoreAsciiCase(s, LevelName(l))
    ensures LevelNamed(s) == Some(l)
  {
    var n := LevelName(l);
    match l
    case Error =>
      SameCaseFolded(s, n, "error");
    case Warn =>
      CaseFoldDiffers(s, n, "error", 0);
      SameCaseFolded(s, n, "warn");
    case Info =>
      CaseFoldDiffers(s, n, "error", 0);
      CaseFoldDiffers(s, n, "warn", 0);
      SameCaseFolded(s, n, "info");
    case Debug =>
      CaseFoldDiffers(s, n, "error", 0);
      CaseFoldDiffers(s, n, "warn", 0);
      CaseFoldDiffers(s, n, "info", 0);
      SameCaseFolded(s, n, "debug");
    case Trace =>
      CaseFoldDiffers(s, n, "error", 0);
      CaseFoldDiffers(s, n, "warn", 0);
      CaseFoldDiffers(s, n, "info", 0);
      CaseFoldDiffers(s, n, "debug", 0);
      SameCaseFolded(s, n, "trace");
  }

  /** A text equal to `a` ignoring case is not equal to a `b` of another length or with another letter at `i`. */
  lemma CaseFoldDiffers(s: string, a: string, b: string, i: nat)
    requires EqIgnoreAsciiCase(s, a) && i < |a|
    requires |a| != |b| || AsciiLower(a[i]) != AsciiLower(b[i])
    ensures !EqIgnoreAsciiCase(s, b)
  {
    if |a| == |b| {
      assert AsciiLower(s[i]) == AsciiLower(a[i]);
    }
  }

  /** Equality ignoring case is transitive. */
  lemma SameCaseFolded(s: string, a: string, b: string)
    requires EqIgnoreAsciiCase(s, a)
    requires |a| == |b| && forall i :: 0 <= i < |a| ==> AsciiLower(a[i]) == AsciiLower(b[i])
    ensures EqIgnoreAsciiCase(s, b)
  {
  }

  /** `RollingRotation`. */
  datatype Rotation = Hourly | Daily | Weekly | Monthly | Never

  function RotationName(r: Rotation): string {
    match r
    case Hourly => "hourly"
    case Daily => "daily"
    case Weekly => "weekly"
    case Monthly => "monthly"
    case Never => "never"
  }

  /** The `rotation` value: lower-cased, then one of the five names. */
  function ParseRotation(s: string): Option<Rotation> {
    var v := ToLower(s);
    if v == "hourly" then Some(Hourly)
    else if v == "daily" then Some(Daily)
    else if v == "weekly" then Some(Weekly)
    else if v == "monthly" then Some(Monthly)
    else if v == "never" then Some(Never)
    else None
  }

  lemma RotationNameIsLower(r: Rotation)
    ensures ToLower(RotationName(r)) == RotationName(r)
  {
    var s := RotationName(r);
    assert forall i :: 0 <= i < |s| ==> 'a' <= s[i] <= 'z';
  }

  /** A rotation's name reads back as the rotation. */
  lemma RotationRoundTrip(r: Rotation)
    ensures ParseRotation(RotationName(r)) == Some(r)
  {
    RotationNameIsLower(r);
  }

  lemma ToLowerIdempotent(s: string)
    ensures ToLower(ToLower(s)) == ToLower(s)
  {
  }

  /** The case of a rotation value does not matter: reading its lower-cased form gives the same answer. */
  lemma RotationIgnoresCase(s: string)
    ensures ParseRotation(ToLower(s)) == ParseRotation(s)
  {
    ToLowerIdempotent(s);
  }

  /** Exactly the five names, in any case, are rotations. */
  lemma ParseRotationSpec(s: string)
    ensures ParseRotation(s).Some? <==> exists r :: ToLower(s) == RotationName(r)
    ensures ParseRotation(s).Some? ==> ToLower(s) == RotationName(ParseRotation(s).value)
  {
    if ParseRotation(s).Some? {
      assert ToLower(s) == RotationName(ParseRotation(s).value);
    }
  }

  /** The fields of a `Log`, as one value. */
  datatype LogSettings = LogSettings(level: Level, dir: Option<string>, maxFiles: Option<nat>, rotation: Rotation)

  /** `log::parse` on the settings: scan, then set the field the key names. */
  function ParseLog(row: nat, line: string, s: LogSettings, env: Env): Result<LogSettings> {
    match Scanner.ParseKeyValuePair(line)
    case Failed(e) => Err(Scanner.Message(e, row))
    case Pair(key, value, _) => LogItem(key, value, s, env)
  }

  function LogItem(key: string, value: string, s: LogSettings, env: Env): Result<LogSettings> {
    if key == "level" then
      match ParseLevel(value)
      case None => Err("Failed to parse log level from value: '" + value + "'")
      case Some(l) => Ok(s.(level := l))
    else if key == "dir" then
      if value !in env.dirs then Err("Provided log directory path is not a directory: '" + value + "'")
      else Ok(s.(dir := Some(value)))
    else if key == "max-files" then
      match ParseUnsigned(value, 10, USIZE_MAX)
      case None => Err("Failed to parse max_files from value: '" + value + "'")
      case Some(n) => Ok(s.(maxFiles := Some(n)))
    else if key == "rotation" then
      match ParseRotation(value)
      case None => Err("Invalid rotation value specified: '" + value + "'. Valid values are 'hourly', 'daily', 'weekly', 'monthly', 'never'.")
      case Some(r) => Ok(s.(rotation := r))
    else Err("Unknown log item " + key + " specified: ")
  }

  /** A key other than the four is an error. */
  lemma UnknownLogKeyFails(key: string, value: string, s: LogSettings, env: Env)
    requires key != "level" && key != "dir" && key != "max-files" && key != "rotation"
    ensures LogItem(key, value, s, env).Err?
  {
  }

  /** Each key writes only its own field, and only the value it read. */
  lemma EachLogKeyOwnField(key: string, value: string, s: LogSettings, env: Env)
    requires LogItem(key, value, s, env).Ok?
    ensures var u := LogItem(key, value, s, env).value;
      (key == "level" ==> u == s.(level := ParseLevel(value).value))
      && (key == "dir" ==> value in env.dirs && u == s.(dir := Some(value)))
      && (key == "max-files" ==> u == s.(maxFiles := ParseUnsigned(value, 10, USIZE_MAX)))
      && (key == "rotation" ==> u == s.(rotation := ParseRotation(value).value))
  {
  }

  /** The `Log` that `log::parse` writes into. */
  class Log {
    var level: Level
    var dir: Option<string>
    var maxFiles: Option<nat>
    var rotation: Rotation

    constructor(s: LogSettings)
      ensures View() == s
    {
      level := s.level;
      dir := s.dir;
      maxFiles := s.maxFiles;
      rotation := s.rotation;
    }

    function View(): LogSettings
      reads this
    {
      LogSettings(level, dir, maxFiles, rotation)
    }

    /** `log::parse`: the fields change as `ParseLog` says, and not at all on an error. */
    method Parse(row: nat, line: string, env: Env) returns (r: Result<Unit>)
      modifies this
      ensures match ParseLog(row, line, old(View()), env)
        case Ok(u) => r == Ok(Unit) && View() == u
        case Err(e) => r == Err(e) && View() == old(View())
    {
      var scanned := Scanner.ScanLine(line);
      if scanned.Failed? {
        return Err(Scanner.Message(scanned.error, row));
      }
      var key, value := scanned.key, scanned.value;
      if key == "level" {
        var l := ParseLevel(value);
        if l.None? {
          return Err("Failed to parse log level from value: '" + value + "'");
        }
        level := l.value;
      } else if key == "dir" {
        if value !in env.dirs {
          return Err("Provided log directory path is not a directory: '" + value + "'");
        }
        dir := Some(value);
      } else if key == "max-files" {
        var n := ParseUnsigned(value, 10, USIZE_MAX);
        if n.None? {
          return Err("Failed to parse max_files from value: '" + value + "'");
        }
        maxFiles := Some(n.value);
      } else if key == "rotation" {
        var rot := ParseRotation(value);
        if rot.None? {
          return Err("Invalid rotation value specified: '" + value + "'. Valid values are 'hourly', 'daily', 'weekly', 'monthly', 'never'.");
        }
        rotation := rot.value;
      } else {
        return Err("Unknown log item " + key + " specified: ");
      }
      r := Ok(Unit);
    }
  }
}
