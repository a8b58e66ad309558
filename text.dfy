/**
 * The parts of Rust's `str` API that the configuration language, the
 * upstream address splitter and the HTTP codec lean on: whitespace trimming,
 * splitting at a character or a string, `lines()`, case mapping and the
 * unsigned integer parsers of `FromStr`.
 */
module Text {
  import opened Wrappers

  /** A `u8`. */
  type byte = b: int | 0 <= b < 256

  /** `char::is_whitespace`: the Unicode White_Space property. */
  predicate IsWhitespace(c: char) {
    ('\t' <= c <= '\r') || c == ' ' || c == '\U{0085}' || c == '\U{00A0}' || c == '\U{1680}'
    || ('\U{2000}' <= c <= '\U{200A}') || c == '\U{2028}' || c == '\U{2029}' || c == '\U{202F}'
    || c == '\U{205F}' || c == '\U{3000}'
  }

  /** The number of whitespace characters starting at index `i`. */
  function LeadingSpace(s: string, i: nat): (n: nat)
    requires i <= |s|
    ensures i + n <= |s|
    decreases |s| - i
  {
    if i < |s| && IsWhitespace(s[i]) then 1 + LeadingSpace(s, i + 1) else 0
  }

  /** The number of whitespace characters ending just before index `j`. */
  function TrailingSpace(s: string, j: nat): (n: nat)
    requires j <= |s|
    ensures n <= j
  {
    if j > 0 && IsWhitespace(s[j - 1]) then 1 + TrailingSpace(s, j - 1) else 0
  }

  /** `str::trim_start`. */
  function TrimStart(s: string): string {
    s[LeadingSpace(s, 0)..]
  }

  /** `str::trim_end`. */
  function TrimEnd(s: string): string {
    s[..|s| - TrailingSpace(s, |s|)]
  }

  /** `str::trim`. */
  function Trim(s: string): string {
    TrimEnd(TrimStart(s))
  }

  lemma {:induction false} LeadingSpaceSpec(s: string, i: nat)
    requires i <= |s|
    ensures var n := LeadingSpace(s, i);
      (i + n == |s| || !IsWhitespace(s[i + n])) && forall k :: i <= k < i + n ==> IsWhitespace(s[k])
    decreases |s| - i
  {
    if i < |s| && IsWhitespace(s[i]) {
      LeadingSpaceSpec(s, i + 1);
    }
  }

  lemma {:induction false} TrailingSpaceSpec(s: string, j: nat)
    requires j <= |s|
    ensures var n := TrailingSpace(s, j);
      (n == j || !IsWhitespace(s[j - n - 1])) && forall k :: j - n <= k < j ==> IsWhitespace(s[k])
  {
    if j > 0 && IsWhitespace(s[j - 1]) {
      TrailingSpaceSpec(s, j - 1);
    }
  }

  lemma {:induction false} LeadingSpaceExact(s: string, i: nat, j: nat)
    requires i <= j <= |s|
    requires forall k :: i <= k < j ==> IsWhitespace(s[k])
    requires j == |s| || !IsWhitespace(s[j])
    ensures LeadingSpace(s, i) == j - i
    decreases j - i
  {
    if i < j {
      LeadingSpaceExact(s, i + 1, j);
    }
  }

  /** Trimming the start of `p + q` trims `p` and, when nothing of `p` is left, trims `q`. */
  lemma TrimStartAppend(p: string, q: string)
    ensures TrimStart(p + q) == if TrimStart(p) == [] then TrimStart(q) else TrimStart(p) + q
    ensures TrimStart(p) != [] ==> LeadingSpace(p + q, 0) == LeadingSpace(p, 0)
  {
    var s := p + q;
    var n := LeadingSpace(p, 0);
    LeadingSpaceSpec(p, 0);
    if n < |p| {
      LeadingSpaceExact(s, 0, n);
      assert s[n..] == p[n..] + q;
    } else {
      var m := LeadingSpace(q, 0);
      LeadingSpaceSpec(q, 0);
      LeadingSpaceExact(s, 0, |p| + m);
      assert s[|p| + m..] == q[m..];
    }
  }

  /** `trim_start` removes exactly the leading whitespace. */
  lemma TrimStartSpec(s: string)
    ensures var r := TrimStart(s);
      |r| <= |s| && r == s[|s| - |r|..]
      && (r == [] || !IsWhitespace(r[0])) && forall i :: 0 <= i < |s| - |r| ==> IsWhitespace(s[i])
  {
    LeadingSpaceSpec(s, 0);
  }

  /** `trim_end` removes exactly the trailing whitespace. */
  lemma TrimEndSpec(s: string)
    ensures var r := TrimEnd(s);
      |r| <= |s| && r == s[..|r|]
      && (r == [] || !IsWhitespace(r[|r| - 1])) && forall i :: |r| <= i < |s| ==> IsWhitespace(s[i])
  {
    TrailingSpaceSpec(s, |s|);
  }

  /** `trim` leaves no whitespace at either end. */
  lemma TrimSpec(s: string)
    ensures var r := Trim(s); r == [] || (!IsWhitespace(r[0]) && !IsWhitespace(r[|r| - 1]))
  {
    TrimStartSpec(s);
    TrimEndSpec(TrimStart(s));
    var t := TrimStart(s);
    var r := TrimEnd(t);
    if r != [] {
      assert r[0] == t[0];
    }
  }

  /** Trimming keeps a text with no whitespace at either end as it is. */
  lemma TrimNoop(s: string)
    requires s == [] || (!IsWhitespace(s[0]) && !IsWhitespace(s[|s| - 1]))
    ensures Trim(s) == s
  {
    assert LeadingSpace(s, 0) == 0;
    assert TrimStart(s) == s;
    assert TrailingSpace(s, |s|) == 0;
  }

  /** Trimming only removes characters: whatever is in the trimmed text was in the text. */
  lemma TrimInside(s: string, c: char)
    ensures c in Trim(s) ==> c in s
  {
    TrimStartSpec(s);
    TrimEndSpec(TrimStart(s));
    if c in Trim(s) {
      var k :| 0 <= k < |Trim(s)| && Trim(s)[k] == c;
      assert s[|s| - |TrimStart(s)| + k] == c;
    }
  }

  /** `str::split(sep)` for a single-character separator. */
  function Split(s: string, sep: char): (r: seq<string>)
    ensures |r| >= 1
    ensures forall i :: 0 <= i < |r| ==> sep !in r[i]
    ensures sep !in s ==> r == [s]
  {
    if s == [] then [""]
    else
      var rest := Split(s[1..], sep);
      assert sep !in s ==> [s[0]] + rest[0] == s;
      if s[0] == sep then [""] + rest else [[s[0]] + rest[0]] + rest[1..]
  }

  /** The inverse of `Split`: `[T]::join(sep)`. */
  function Join(parts: seq<string>, sep: char): string
    requires |parts| >= 1
  {
    if |parts| == 1 then parts[0] else parts[0] + [sep] + Join(parts[1..], sep)
  }

  lemma {:induction false} JoinSplit(s: string, sep: char)
    ensures Join(Split(s, sep), sep) == s
  {
    if s != [] {
      JoinSplit(s[1..], sep);
      var rest := Split(s[1..], sep);
      if s[0] != sep && |rest| > 1 {
        assert Join(Split(s, sep), sep) == [s[0]] + rest[0] + [sep] + Join(rest[1..], sep);
      }
    }
  }

  /** A separator-free piece followed by the separator splits off as the first piece. */
  lemma {:induction false} SplitPrefix(a: string, b: string, sep: char)
    requires sep !in a
    ensures Split(a + [sep] + b, sep) == [a] + Split(b, sep)
  {
    if a == [] {
      assert a + [sep] + b == [sep] + b;
    } else {
      SplitPrefix(a[1..], b, sep);
      assert (a + [sep] + b)[1..] == a[1..] + [sep] + b;
      assert [a[0]] + a[1..] == a;
    }
  }

  /** `Split` undoes `Join` when no part holds the separator. */
  lemma {:induction false} SplitJoin(parts: seq<string>, sep: char)
    requires |parts| >= 1 && forall i :: 0 <= i < |parts| ==> sep !in parts[i]
    ensures Split(Join(parts, sep), sep) == parts
  {
    if |parts| > 1 {
      SplitJoin(parts[1..], sep);
      SplitPrefix(parts[0], Join(parts[1..], sep), sep);
    }
  }

  /** A trailing separator adds a final empty piece. */
  lemma {:induction false} SplitAppendSep(s: string, sep: char)
    ensures Split(s + [sep], sep) == Split(s, sep) + [""]
  {
    if s == [] {
      assert Split([sep], sep) == [""] + Split([], sep);
    } else {
      SplitAppendSep(s[1..], sep);
      assert (s + [sep])[1..] == s[1..] + [sep];
    }
  }

  /** `str::trim_matches` with a character predicate given as a set. */
  function TrimMatches(s: string, cs: set<char>): (r: string)
    ensures |r| <= |s|
    ensures r == [] || (r[0] !in cs && r[|r| - 1] !in cs)
  {
    if s == [] then s
    else if s[0] in cs then TrimMatches(s[1..], cs)
    else if s[|s| - 1] in cs then TrimMatches(s[..|s| - 1], cs)
    else s
  }

  /** `str::trim_end_matches(c)`. */
  function TrimEndChar(s: string, c: char): (r: string)
    ensures |r| <= |s| && r == s[..|r|]
    ensures r == [] || r[|r| - 1] != c
  {
    if s != [] && s[|s| - 1] == c then TrimEndChar(s[..|s| - 1], c) else s
  }

  /** `str::starts_with` for a string pattern. */
  predicate StartsWith(s: string, p: string) {
    |p| <= |s| && s[..|p|] == p
  }

  /** `str::strip_prefix` for a string pattern: the rest after `p` when `s` starts with it. */
  function StripPrefix(s: string, p: string): (r: Option<string>)
    ensures r.Some? <==> StartsWith(s, p)
    ensures r.Some? ==> s == p + r.value
  {
    if StartsWith(s, p) then Some(s[|p|..]) else None
  }

  /** `str::ends_with` for a string pattern. */
  predicate EndsWith(s: string, p: string) {
    |p| <= |s| && s[|s| - |p|..] == p
  }

  /** `t` occurs in `s` at index `i`. */
  predicate OccursAt(s: string, t: string, i: int) {
    0 <= i && i + |t| <= |s| && s[i..i + |t|] == t
  }

  /** `str::contains` for a string pattern. */
  ghost predicate Contains(s: string, t: string) {
    exists i :: OccursAt(s, t, i)
  }

  /** The first index at which a non-empty `t` occurs in `s`, if any. */
  function FindFrom(s: string, t: string, from: nat): (r: Option<nat>)
    requires |t| > 0 && from <= |s|
    ensures r.Some? ==> from <= r.value && OccursAt(s, t, r.value)
    ensures r.Some? ==> forall j :: from <= j < r.value ==> !OccursAt(s, t, j)
    ensures r.None? ==> forall j :: from <= j ==> !OccursAt(s, t, j)
    decreases |s| - from
  {
    if from + |t| > |s| then None
    else if s[from..from + |t|] == t then Some(from)
    else FindFrom(s, t, from + 1)
  }

  /** `str::split(pat)` for a non-empty string pattern: left-to-right, non-overlapping. */
  function SplitStr(s: string, t: string): (r: seq<string>)
    requires |t| > 0
    ensures |r| >= 1
    decreases |s|
  {
    match FindFrom(s, t, 0)
    case None => [s]
    case Some(i) => [s[..i]] + SplitStr(s[i + |t|..], t)
  }

  /** `SplitStr` past the first occurrence of the pattern. */
  lemma SplitStrUnfold(s: string, t: string, i: nat)
    requires |t| > 0 && FindFrom(s, t, 0) == Some(i)
    ensures SplitStr(s, t) == [s[..i]] + SplitStr(s[i + |t|..], t)
  {
    var rest := SplitStr(s[i + |t|..], t);
    var r := SplitStr(s, t);
    assert r == [s[..i]] + rest;
  }

  /** No piece of `SplitStr` holds the pattern, and a text without it is its only piece. */
  lemma {:induction false} SplitStrPieces(s: string, t: string)
    requires |t| > 0
    ensures forall k :: 0 <= k < |SplitStr(s, t)| ==> !Contains(SplitStr(s, t)[k], t)
    ensures !Contains(s, t) ==> SplitStr(s, t) == [s]
    decreases |s|
  {
    match FindFrom(s, t, 0)
    case None =>
    case Some(i) =>
      assert !Contains(s[..i], t) by {
        forall j | OccursAt(s[..i], t, j) ensures OccursAt(s, t, j) && j < i {
          assert s[..i][j..j + |t|] == s[j..j + |t|];
        }
      }
      assert Contains(s, t) by { assert OccursAt(s, t, i); }
      SplitStrPieces(s[i + |t|..], t);
      SplitStrUnfold(s, t, i);
  }

  /**
   * `str::lines`: split at '\n', drop a final empty piece, and strip the
   * '\r' of a "\r\n" line ending (a last line without '\n' keeps its '\r').
   */
  function Lines(s: string): (r: seq<string>)
    ensures forall i :: 0 <= i < |r| ==> '\n' !in r[i]
  {
    var parts := Split(s, '\n');
    var kept := if parts[|parts| - 1] == "" then parts[..|parts| - 1] else parts;
    seq(|kept|, i requires 0 <= i < |kept| =>
      if i < |parts| - 1 && kept[i] != [] && kept[i][|kept[i]| - 1] == '\r' then kept[i][..|kept[i]| - 1] else kept[i])
  }

  predicate IsAsciiDigit(c: char) { '0' <= c <= '9' }
  predicate IsAsciiAlpha(c: char) { 'a' <= c <= 'z' || 'A' <= c <= 'Z' }
  predicate IsAsciiUpper(c: char) { 'A' <= c <= 'Z' }
  predicate IsHexDigit(c: char) { IsAsciiDigit(c) || 'a' <= c <= 'f' || 'A' <= c <= 'F' }

  function HexValue(c: char): nat
    requires IsHexDigit(c)
  {
    if IsAsciiDigit(c) then c as nat - '0' as nat
    else if 'a' <= c <= 'f' then c as nat - 'a' as nat + 10
    else c as nat - 'A' as nat + 10
  }

  /** Every character is a digit of `radix` (10 or 16). */
  predicate AllDigits(ds: string, radix: nat) {
    forall i :: 0 <= i < |ds| ==> (if radix == 10 then IsAsciiDigit(ds[i]) else IsHexDigit(ds[i]))
  }

  /** The value of a run of digits in `radix` (10 or 16). */
  function DigitsValue(ds: string, radix: nat): nat
    requires radix == 10 || radix == 16
    requires AllDigits(ds, radix)
  {
    if ds == [] then 0 else DigitsValue(ds[..|ds| - 1], radix) * radix + HexValue(ds[|ds| - 1])
  }

  /**
   * `<uN as FromStr>::from_str` (radix 10) and `uN::from_str_radix(s, 16)`:
   * an optional '+', then one or more digits, with a value at most `max`.
   */
  function ParseUnsigned(s: string, radix: nat, max: nat): (r: Option<nat>)
    requires radix == 10 || radix == 16
    ensures r.Some? ==> r.value <= max
  {
    var ds := if |s| > 0 && s[0] == '+' then s[1..] else s;
    if ds == [] then None
    else if !AllDigits(ds, radix) then None
    else if DigitsValue(ds, radix) > max then None
    else Some(DigitsValue(ds, radix))
  }

  /** A text that starts with neither a sign nor a digit is no decimal number. */
  lemma NotDecimal(s: string, max: nat)
    requires |s| > 0 && s[0] != '+' && !IsAsciiDigit(s[0])
    ensures ParseUnsigned(s, 10, max).None?
  {
    assert !IsAsciiDigit(s[0]);
    assert !AllDigits(s, 10);
  }

  const U8_MAX: nat := 0xFF
  const U16_MAX: nat := 0xFFFF
  const U32_MAX: nat := 0xFFFF_FFFF
  const USIZE_MAX: nat := 0xFFFF_FFFF_FFFF_FFFF

  /** Decimal text of a natural number, as `Display` writes it. */
  function NatToString(n: nat): (r: string)
    ensures |r| >= 1
    ensures forall i :: 0 <= i < |r| ==> IsAsciiDigit(r[i])
    decreases n
  {
    if n < 10 then [('0' as int + n) as char]
    else NatToString(n / 10) + [('0' as int + n % 10) as char]
  }

  lemma {:induction false} NatToStringValue(n: nat)
    ensures DigitsValue(NatToString(n), 10) == n
    decreases n
  {
    if n >= 10 {
      NatToStringValue(n / 10);
      var s := NatToString(n);
      assert s[..|s| - 1] == NatToString(n / 10);
    }
  }

  /** A number written in decimal reads back, when it fits. */
  lemma NatToStringParses(n: nat, max: nat)
    requires n <= max
    ensures ParseUnsigned(NatToString(n), 10, max) == Some(n)
  {
    NatToStringValue(n);
    assert NatToString(n)[0] != '+';
  }

  /** `char::to_ascii_lowercase`. */
  function AsciiLower(c: char): char {
    if 'A' <= c <= 'Z' then (c as int + 32) as char else c
  }

  /** `str::eq_ignore_ascii_case`. */
  predicate EqIgnoreAsciiCase(a: string, b: string) {
    |a| == |b| && forall i :: 0 <= i < |a| ==> AsciiLower(a[i]) == AsciiLower(b[i])
  }

  /**
   * `char::to_lowercase` for the characters this model meets: ASCII, the
   * Latin-1 capitals (the HTTP parser reads bytes as Latin-1 characters) and
   * the Kelvin sign, the one non-ASCII character whose lowercase is an ASCII letter.
   */
  function LowerChar(c: char): char {
    if 'A' <= c <= 'Z' || ('\U{00C0}' <= c <= '\U{00DE}' && c != '\U{00D7}') then (c as int + 32) as char
    else if c == '\U{212A}' then 'k'
    else c
  }

  function ToLower(s: string): (r: string)
    ensures |r| == |s| && forall i :: 0 <= i < |s| ==> r[i] == LowerChar(s[i])
  {
    seq(|s|, i requires 0 <= i < |s| => LowerChar(s[i]))
  }

  /** The number of bytes `c` takes in UTF-8. */
  function Utf8Width(c: char): nat {
    if c as int < 0x80 then 1 else if c as int < 0x800 then 2 else if c as int < 0x10000 then 3 else 4
  }

  /** `str::len`: the UTF-8 byte length. */
  function Utf8Len(s: string): nat {
    if s == [] then 0 else Utf8Len(s[..|s| - 1]) + Utf8Width(s[|s| - 1])
  }

  /** `str::as_bytes`: the UTF-8 encoding of `s`. */
  function Utf8(s: string): (r: seq<byte>)
    ensures |r| == Utf8Len(s)
  {
    if s == [] then [] else Utf8(s[..|s| - 1]) + EncodeChar(s[|s| - 1])
  }

  function EncodeChar(c: char): (r: seq<byte>)
    ensures |r| == Utf8Width(c)
  {
    var n := c as int;
    if n < 0x80 then [n]
    else if n < 0x800 then [0xC0 + n / 64, 0x80 + n % 64]
    else if n < 0x10000 then [0xE0 + n / 4096, 0x80 + (n / 64) % 64, 0x80 + n % 64]
    else [0xF0 + n / 262144, 0x80 + (n / 4096) % 64, 0x80 + (n / 64) % 64, 0x80 + n % 64]
  }

  lemma {:induction false} Utf8Append(a: string, b: string)
    ensures Utf8(a + b) == Utf8(a) + Utf8(b)
    decreases |b|
  {
    if b != [] {
      Utf8Append(a, b[..|b| - 1]);
      assert (a + b)[..|a + b| - 1] == a + b[..|b| - 1];
    } else {
      assert a + b == a;
    }
  }
}
