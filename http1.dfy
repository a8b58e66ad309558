/**
 * The minimal HTTP/1.1 codec of `src/resolves/http/h1.rs`: a byte-at-a-time
 * reader for a response's status line, headers and body (sections 4 and 5
 * of RFC 9112), and a request builder that serialises `METHOD path
 * HTTP/1.1`, the headers, a blank line and the body (section 3 of RFC 9112).
 */
module Http1 {
  import opened Wrappers
  import opened Text

  const PROTOCOL: string := "HTTP"
  const VERSION: string := "1.1"
  const CONTENT_LENGTH: string := "content-length"

  /** `State`: where the reader is in the response head. */
  datatype Phase = Protocol | Version | StatusCode | StatusText | HeaderName | HeaderValue

  /** The reader's variables: the state, the text read so far for each part, and the headers. */
  datatype Reader = Reader(
    phase: Phase, protocol: string, version: string, code: string, text: string,
    name: string, value: string, headers: map<string, string>)

  const START: Reader := Reader(Protocol, "", "", "", "", "", "", map[])

  /**
   * What one character does: the next reader, whether one more byte is
   * consumed unchecked (after a '\r'), and whether the head has ended (the
   * '\r' of the blank line).
   */
  datatype Move = Move(next: Reader, skip: bool, stop: bool)

  /** One turn of the `match state` loop. */
  function Step(r: Reader, c: char): Result<Move> {
    match r.phase
    case Protocol =>
      if 'A' <= c <= 'Z' then Ok(Move(r.(protocol := r.protocol + [c]), false, false))
      else if c == '/' then
        if r.protocol != PROTOCOL then Err("Not supported protocol: " + r.protocol)
        else Ok(Move(r.(phase := Version), false, false))
      else Err("Invalid protocol char '" + [c] + "'")
    case Version =>
      if '0' <= c <= '9' || c == '.' then Ok(Move(r.(version := r.version + [c]), false, false))
      else if c == ' ' then
        if r.version != VERSION then Err("Not supported version: " + r.version)
        else Ok(Move(r.(phase := StatusCode), false, false))
      else Err("Invalid protocol version char '" + [c] + "'")
    case StatusCode =>
      if '0' <= c <= '9' then Ok(Move(r.(code := r.code + [c]), false, false))
      else if c == ' ' then Ok(Move(r.(phase := StatusText), false, false))
      else Err("Invalid status code char '" + [c] + "'")
    case StatusText =>
      if c == '\r' then Ok(Move(r.(phase := HeaderName), true, false))
      else Ok(Move(r.(text := r.text + [c]), false, false))
    case HeaderName =>
      if c == '\r' then Ok(Move(r, true, true))
      else if c == ':' then Ok(Move(r.(phase := HeaderValue), false, false))
      else Ok(Move(r.(name := r.name + [c]), false, false))
    case HeaderValue =>
      if c == '\r' then
        Ok(Move(r.(phase := HeaderName, headers := r.headers[ToLower(r.name) := Trim(r.value)], name := "", value := ""), true, false))
      else Ok(Move(r.(value := r.value + [c]), false, false))
  }

  /** The reader after the loop and the bytes left in the stream. */
  datatype Fed = Fed(reader: Reader, rest: seq<byte>)

  /** The bytes after the current one and, on a skip, the one after it. */
  function After(s: seq<byte>, skip: bool): (t: seq<byte>)
    requires |s| > 0
    ensures |t| < |s|
  {
    if skip && |s| >= 2 then s[2..] else if skip then [] else s[1..]
  }

  /** The `while let Some(char) = next(..)` loop: each byte read as a Latin-1 character, until the end of the stream or the blank line. */
  function Feed(s: seq<byte>, r: Reader): Result<Fed>
    decreases |s|
  {
    if s == [] then Ok(Fed(r, []))
    else
      match Step(r, s[0] as char)
      case Err(e) => Err(e)
      case Ok(m) =>
        if m.stop then Ok(Fed(m.next, After(s, true)))
        else Feed(After(s, m.skip), m.next)
  }

  /** `Response`. */
  datatype Response = Response(statusCode: nat, statusText: string, headers: map<string, string>, body: seq<byte>)

  /**
   * `Response::from_stream` over the bytes of the stream: after the head,
   * `content-length` must be a `u16`, that many bytes must follow, and the
   * status code must be a `u16`.
   */
  function FromBytes(input: seq<byte>): Result<Response> {
    match Feed(input, START)
    case Err(e) => Err(e)
    case Ok(Fed(r, rest)) =>
      if CONTENT_LENGTH !in r.headers || ParseUnsigned(r.headers[CONTENT_LENGTH], 10, U16_MAX).None? then Err("Unknown body length")
      else
        var n := ParseUnsigned(r.headers[CONTENT_LENGTH], 10, U16_MAX).value;
        if |rest| < n then Err("early eof")
        else
          match ParseUnsigned(r.code, 10, U16_MAX)
          case None => Err("Invalid status code: " + r.code)
          case Some(code) => Ok(Response(code, r.text, r.headers, rest[..n]))
  }

  /** Where the next byte is read after byte `i`: one further on, or two after a '\r' (never past the end). */
  function NextIndex(i: nat, skip: bool, n: nat): nat {
    if skip && i + 2 <= n then i + 2 else if skip then n else i + 1
  }

  /** One turn of `Feed` on the bytes from `i` on. */
  lemma FeedAt(s: seq<byte>, i: nat, r: Reader)
    requires i < |s|
    ensures Feed(s[i..], r) ==
      match Step(r, s[i] as char)
      case Err(e) => Err(e)
      case Ok(m) =>
        var j := NextIndex(i, m.skip, |s|);
        if m.stop then Ok(Fed(m.next, s[j..])) else Feed(s[j..], m.next)
  {
    var t := s[i..];
    assert t[0] == s[i];
    if i + 2 <= |s| {
      assert t[2..] == s[i + 2..];
    } else {
      assert s[|s|..] == [];
    }
    assert t[1..] == s[i + 1..];
  }

  /** `Response::from_stream`: the state-machine loop over the stream's bytes, then the body and the status code. */
  method ReadResponse(input: seq<byte>) returns (res: Result<Response>)
    ensures res == FromBytes(input)
  {
    var phase := Protocol;
    var protocol, version, code, text, name, value := "", "", "", "", "", "";
    var headers: map<string, string> := map[];
    var i := 0;
    var ended := false;
    while i < |input| && !ended
      invariant 0 <= i <= |input|
      invariant var r := Reader(phase, protocol, version, code, text, name, value, headers);
        Feed(input, START) == if ended then Ok(Fed(r, input[i..])) else Feed(input[i..], r)
      decreases |input| - i, !ended
    {
      var c := input[i] as char;
      FeedAt(input, i, Reader(phase, protocol, version, code, text, name, value, headers));
      i := i + 1;
      match phase
      case Protocol =>
        if 'A' <= c <= 'Z' {
          protocol := protocol + [c];
        } else if c == '/' {
          if protocol != PROTOCOL {
            return Err("Not supported protocol: " + protocol);
          }
          phase := Version;
        } else {
          return Err("Invalid protocol char '" + [c] + "'");
        }
      case Version =>
        if '0' <= c <= '9' || c == '.' {
          version := version + [c];
        } else if c == ' ' {
          if version != VERSION {
            return Err("Not supported version: " + version);
          }
          phase := StatusCode;
        } else {
          return Err("Invalid protocol version char '" + [c] + "'");
        }
      case StatusCode =>
        if '0' <= c <= '9' {
          code := code + [c];
        } else if c == ' ' {
          phase := StatusText;
        } else {
          return Err("Invalid status code char '" + [c] + "'");
        }
      case StatusText =>
        if c == '\r' {
          if i < |input| {
            i := i + 1;
          }
          phase := HeaderName;
        } else {
          text := text + [c];
        }
      case HeaderName =>
        if c == '\r' {
          if i < |input| {
            i := i + 1;
          }
          ended := true;
        } else if c == ':' {
          phase := HeaderValue;
        } else {
          name := name + [c];
        }
      case HeaderValue =>
        if c == '\r' {
          if i < |input| {
            i := i + 1;
          }
          headers := headers[ToLower(name) := Trim(value)];
          name := "";
          value := "";
          phase := HeaderName;
        } else {
          value := value + [c];
        }
    }
    if !ended {
      assert input[i..] == [];
    }
    var length := if CONTENT_LENGTH in headers then ParseUnsigned(headers[CONTENT_LENGTH], 10, U16_MAX) else None;
    if length.None? {
      return Err("Unknown body length");
    }
    var rest := input[i..];
    if |rest| < length.value {
      return Err("early eof");
    }
    var body := rest[..length.value];
    var status := ParseUnsigned(code, 10, U16_MAX);
    if status.None? {
      return Err("Invalid status code: " + code);
    }
    res := Ok(Response(status.value, text, headers, body));
  }

  /** Every character fits in a byte. */
  predicate IsLatin1(s: string) {
    forall i :: 0 <= i < |s| ==> s[i] as int < 0x100
  }

  /** The bytes of a Latin-1 text, the inverse of reading each byte as a character. */
  function Latin1(s: string): (b: seq<byte>)
    requires IsLatin1(s)
    ensures |b| == |s| && forall i :: 0 <= i < |s| ==> b[i] as char == s[i]
  {
    seq(|s|, i requires 0 <= i < |s| => s[i] as int)
  }

  lemma Latin1Append(a: string, b: string)
    requires IsLatin1(a) && IsLatin1(b)
    ensures IsLatin1(a + b) && Latin1(a + b) == Latin1(a) + Latin1(b)
  {
    assert forall i :: 0 <= i < |a + b| ==> (a + b)[i] == if i < |a| then a[i] else b[i - |a|];
  }

  /** A canonical response head: status line, one `name: value` line per header, blank line. */
  function StatusLine(code: nat, text: string): string {
    PROTOCOL + "/" + VERSION + " " + NatToString(code) + " " + text + "\r\n"
  }

  /** One header as `name: value` and CRLF. */
  function HeaderLine(h: (string, string)): string {
    h.0 + ": " + h.1 + "\r\n"
  }

  function HeaderLines(hs: seq<(string, string)>): string
    decreases |hs|
  {
    if hs == [] then "" else HeaderLine(hs[0]) + HeaderLines(hs[1..])
  }

  function ResponseHead(code: nat, text: string, hs: seq<(string, string)>): string {
    StatusLine(code, text) + HeaderLines(hs) + "\r\n"
  }

  /** The headers a reader collects from `hs`: names lower-cased, values trimmed, a later name replacing an earlier one. */
  function HeaderMap(hs: seq<(string, string)>, m: map<string, string>): map<string, string>
    decreases |hs|
  {
    if hs == [] then m else HeaderMap(hs[1..], m[ToLower(hs[0].0) := Trim(hs[0].1)])
  }

  /** Header names hold neither ':' nor '\r', values no '\r', and all is Latin-1. */
  predicate GoodHeaders(hs: seq<(string, string)>) {
    forall k :: 0 <= k < |hs| ==>
      IsLatin1(hs[k].0) && IsLatin1(hs[k].1) && ':' !in hs[k].0 && '\r' !in hs[k].0 && '\r' !in hs[k].1
  }

  /** A character the reader just appends to the part it is reading. */
  predicate Appends(ph: Phase, c: char) {
    match ph
    case Protocol => 'A' <= c <= 'Z'
    case Version => '0' <= c <= '9' || c == '.'
    case StatusCode => '0' <= c <= '9'
    case StatusText => c != '\r'
    case HeaderName => c != '\r' && c != ':'
    case HeaderValue => c != '\r'
  }

  /** The reader with `s` appended to the part it is reading. */
  function AppendPart(r: Reader, s: string): Reader {
    match r.phase
    case Protocol => r.(protocol := r.protocol + s)
    case Version => r.(version := r.version + s)
    case StatusCode => r.(code := r.code + s)
    case StatusText => r.(text := r.text + s)
    case HeaderName => r.(name := r.name + s)
    case HeaderValue => r.(value := r.value + s)
  }

  /** Feeding one byte that moves without a skip. */
  lemma FeedOne(b: byte, t: seq<byte>, r: Reader)
    requires Step(r, b as char).Ok? && !Step(r, b as char).value.skip && !Step(r, b as char).value.stop
    ensures Feed([b] + t, r) == Feed(t, Step(r, b as char).value.next)
  {
    assert ([b] + t)[1..] == t;
  }

  /** Feeding a '\r' that skips the '\n' after it. */
  lemma FeedCrLf(t: seq<byte>, r: Reader)
    requires Step(r, '\r').Ok? && Step(r, '\r').value.skip
    ensures Feed(Latin1("\r\n") + t, r) ==
      if Step(r, '\r').value.stop then Ok(Fed(Step(r, '\r').value.next, t)) else Feed(t, Step(r, '\r').value.next)
  {
    var s := Latin1("\r\n") + t;
    assert s[0] as char == '\r' && s[2..] == t;
  }

  /** A character that only appends moves on without a skip. */
  lemma StepAppends(r: Reader, c: char)
    requires Appends(r.phase, c)
    ensures Step(r, c) == Ok(Move(AppendPart(r, [c]), false, false))
  {
  }

  lemma AppendPartTwice(r: Reader, a: string, b: string)
    ensures AppendPart(AppendPart(r, a), b) == AppendPart(r, a + b)
    ensures AppendPart(r, a).phase == r.phase
  {
    assert forall x: string :: x + a + b == x + (a + b);
  }

  /** Feeding characters that only append. */
  lemma {:induction false} FeedRun(s: string, t: seq<byte>, r: Reader)
    requires IsLatin1(s) && forall i :: 0 <= i < |s| ==> Appends(r.phase, s[i])
    ensures Feed(Latin1(s) + t, r) == Feed(t, AppendPart(r, s))
    decreases |s|
  {
    if s == [] {
      assert Latin1(s) + t == t;
      assert AppendPart(r, s) == r;
    } else {
      var b := Latin1(s)[0];
      var q := AppendPart(r, [s[0]]);
      StepAppends(r, s[0]);
      assert Latin1(s) + t == [b] + (Latin1(s[1..]) + t) by {
        assert Latin1(s) == [b] + Latin1(s[1..]);
      }
      FeedOne(b, Latin1(s[1..]) + t, r);
      AppendPartTwice(r, [s[0]], s[1..]);
      FeedRun(s[1..], t, q);
      assert [s[0]] + s[1..] == s;
    }
  }

  /** Feeding one character that moves without a skip. */
  lemma FeedChar(c: char, t: seq<byte>, r: Reader)
    requires c as int < 0x100
    requires Step(r, c).Ok? && !Step(r, c).value.skip && !Step(r, c).value.stop
    ensures Feed(Latin1([c]) + t, r) == Feed(t, Step(r, c).value.next)
  {
    FeedOne(Latin1([c])[0], t, r);
  }

  lemma Peel(a: string, b: string, t: seq<byte>)
    requires IsLatin1(a) && IsLatin1(b)
    ensures IsLatin1(a + b) && Latin1(a + b) + t == Latin1(a) + (Latin1(b) + t)
  {
    Latin1Append(a, b);
  }

  /** `HTTP/1.1 ` takes the reader from the start to the status code. */
  lemma FeedVersion(t: seq<byte>)
    ensures IsLatin1(PROTOCOL + "/" + VERSION + " ")
    ensures Feed(Latin1(PROTOCOL + "/" + VERSION + " ") + t, START) ==
      Feed(t, START.(phase := StatusCode, protocol := PROTOCOL, version := VERSION))
  {
    var l1 := VERSION + " ";
    var l0 := "/" + l1;
    var r1 := START.(protocol := PROTOCOL);
    var r2 := r1.(phase := Version);
    assert PROTOCOL + "/" + VERSION + " " == PROTOCOL + l0;
    FeedProtocol(l0, t);
    FeedSlash(l1, t, r1);
    FeedVersionDigits(t, r2);
  }

  /** `HTTP` read from the start. */
  lemma FeedProtocol(l: string, t: seq<byte>)
    requires IsLatin1(l)
    ensures IsLatin1(PROTOCOL + l)
    ensures Feed(Latin1(PROTOCOL + l) + t, START) == Feed(Latin1(l) + t, START.(protocol := PROTOCOL))
  {
    Peel(PROTOCOL, l, t);
    FeedRun(PROTOCOL, Latin1(l) + t, START);
  }

  /** The '/' after `HTTP` starts the version. */
  lemma FeedSlash(l: string, t: seq<byte>, r: Reader)
    requires r.phase == Protocol && r.protocol == PROTOCOL && IsLatin1(l)
    ensures IsLatin1("/" + l)
    ensures Feed(Latin1("/" + l) + t, r) == Feed(Latin1(l) + t, r.(phase := Version))
  {
    Peel("/", l, t);
    FeedChar('/', Latin1(l) + t, r);
  }

  /** `1.1 ` takes the reader to the status code. */
  lemma FeedVersionDigits(t: seq<byte>, r: Reader)
    requires r.phase == Version && r.version == ""
    ensures IsLatin1(VERSION + " ")
    ensures Feed(Latin1(VERSION + " ") + t, r) == Feed(t, r.(version := VERSION, phase := StatusCode))
  {
    var r3 := r.(version := VERSION);
    Peel(VERSION, " ", t);
    FeedRun(VERSION, Latin1(" ") + t, r);
    assert r.version + VERSION == VERSION;
    FeedChar(' ', t, r3);
  }

  /** The status code, a space, the text and CRLF take the reader to the first header name. */
  lemma FeedStatus(d: string, text: string, t: seq<byte>, r: Reader)
    requires r.phase == StatusCode && r.code == ""
    requires IsLatin1(d) && forall i :: 0 <= i < |d| ==> IsAsciiDigit(d[i])
    requires IsLatin1(text) && r.text == "" && '\r' !in text
    ensures IsLatin1(d + " " + text + "\r\n")
    ensures Feed(Latin1(d + " " + text + "\r\n") + t, r) ==
      Feed(t, r.(phase := HeaderName, code := d, text := text))
  {
    var l6 := "\r\n";
    var l5 := text + l6;
    var l4 := " " + l5;
    var r5 := r.(code := d);
    var r6 := r5.(phase := StatusText);
    var r7 := r6.(text := text);
    Peel(d, l4, t);
    assert d + " " + text + "\r\n" == d + l4;
    calc {
      Feed(Latin1(d + l4) + t, r);
      { FeedRun(d, Latin1(l4) + t, r); assert r.code + d == d; }
      Feed(Latin1(l4) + t, r5);
      { Peel(" ", l5, t); FeedChar(' ', Latin1(l5) + t, r5); }
      Feed(Latin1(l5) + t, r6);
      { Peel(text, l6, t);
        assert forall i :: 0 <= i < |text| ==> Appends(r6.phase, text[i]);
        FeedRun(text, Latin1(l6) + t, r6);
        assert r6.text + text == text; }
      Feed(Latin1(l6) + t, r7);
      { FeedCrLf(t, r7); }
      Feed(t, r7.(phase := HeaderName));
    }
  }

  /** The status line takes the reader from the start to the first header name. */
  lemma FeedStatusLine(code: nat, text: string, t: seq<byte>)
    requires IsLatin1(text) && '\r' !in text
    ensures IsLatin1(StatusLine(code, text))
    ensures Feed(Latin1(StatusLine(code, text)) + t, START) ==
      Feed(t, Reader(HeaderName, PROTOCOL, VERSION, NatToString(code), text, "", "", map[]))
  {
    var d := NatToString(code);
    assert IsLatin1(d);
    var head := PROTOCOL + "/" + VERSION + " ";
    var tail := d + " " + text + "\r\n";
    var r := START.(phase := StatusCode, protocol := PROTOCOL, version := VERSION);
    assert r.(phase := HeaderName, code := d, text := text)
      == Reader(HeaderName, PROTOCOL, VERSION, d, text, "", "", map[]);
    FeedStatus(d, text, t, r);
    FeedVersion(Latin1(tail) + t);
    Peel(head, tail, t);
    StatusLineSplit(code, text);
  }

  /** The status line is the protocol and version, then the code, the text and CRLF. */
  lemma StatusLineSplit(code: nat, text: string)
    ensures StatusLine(code, text) == (PROTOCOL + "/" + VERSION + " ") + (NatToString(code) + " " + text + "\r\n")
  {
  }

  /** The space after a header's ':' does not survive the trim. */
  lemma TrimSpaceFirst(v: string)
    ensures Trim(" " + v) == Trim(v)
  {
    LeadingSpaceSpec(" ", 0);
    TrimStartAppend(" ", v);
  }

  /** One `name: value` line records the header and returns to reading a name. */
  lemma FeedHeader(n: string, v: string, t: seq<byte>, r: Reader)
    requires r.phase == HeaderName && r.name == "" && r.value == ""
    requires IsLatin1(n) && IsLatin1(v) && ':' !in n && '\r' !in n && '\r' !in v
    ensures IsLatin1(n + ": " + v + "\r\n")
    ensures Feed(Latin1(n + ": " + v + "\r\n") + t, r) ==
      Feed(t, r.(headers := r.headers[ToLower(n) := Trim(v)]))
  {
    var sv := " " + v;
    var l2 := sv + "\r\n";
    var l1 := ":" + l2;
    var r1 := r.(name := n);
    var r2 := r1.(phase := HeaderValue);
    assert IsLatin1(sv) && IsLatin1(l2);
    assert n + ": " + v + "\r\n" == n + l1;
    FeedHeaderName(n, l1, t, r);
    FeedColon(l2, t, r1);
    FeedHeaderValue(sv, t, r2);
    TrimSpaceFirst(v);
    assert r2.(phase := HeaderName, headers := r2.headers[ToLower(r2.name) := Trim(sv)], name := "", value := "")
      == r.(headers := r.headers[ToLower(n) := Trim(v)]);
  }

  /** A header name read up to what follows it. */
  lemma FeedHeaderName(n: string, l: string, t: seq<byte>, r: Reader)
    requires r.phase == HeaderName && r.name == ""
    requires IsLatin1(n) && IsLatin1(l) && ':' !in n && '\r' !in n
    ensures IsLatin1(n + l)
    ensures Feed(Latin1(n + l) + t, r) == Feed(Latin1(l) + t, r.(name := n))
  {
    Peel(n, l, t);
    assert forall i :: 0 <= i < |n| ==> Appends(r.phase, n[i]);
    FeedRun(n, Latin1(l) + t, r);
    assert r.name + n == n;
  }

  /** The ':' after a header name starts its value. */
  lemma FeedColon(l: string, t: seq<byte>, r: Reader)
    requires r.phase == HeaderName && IsLatin1(l)
    ensures IsLatin1(":" + l)
    ensures Feed(Latin1(":" + l) + t, r) == Feed(Latin1(l) + t, r.(phase := HeaderValue))
  {
    Peel(":", l, t);
    FeedChar(':', Latin1(l) + t, r);
  }

  /** A header value and CRLF record the header and return to reading a name. */
  lemma FeedHeaderValue(sv: string, t: seq<byte>, r: Reader)
    requires r.phase == HeaderValue && r.value == ""
    requires IsLatin1(sv) && '\r' !in sv
    ensures IsLatin1(sv + "\r\n")
    ensures Feed(Latin1(sv + "\r\n") + t, r) ==
      Feed(t, r.(phase := HeaderName, headers := r.headers[ToLower(r.name) := Trim(sv)], name := "", value := ""))
  {
    var r3 := r.(value := sv);
    Peel(sv, "\r\n", t);
    assert forall i :: 0 <= i < |sv| ==> Appends(r.phase, sv[i]);
    FeedRun(sv, Latin1("\r\n") + t, r);
    assert r.value + sv == sv;
    FeedCrLf(t, r3);
  }

  /** The header lines record every header, in order. */
  lemma {:induction false} FeedHeaders(hs: seq<(string, string)>, t: seq<byte>, r: Reader)
    requires r.phase == HeaderName && r.name == "" && r.value == ""
    requires GoodHeaders(hs)
    ensures IsLatin1(HeaderLines(hs))
    ensures Feed(Latin1(HeaderLines(hs)) + t, r) == Feed(t, r.(headers := HeaderMap(hs, r.headers)))
    decreases |hs|
  {
    if hs == [] {
      assert Latin1(HeaderLines(hs)) + t == t;
    } else {
      var line := hs[0].0 + ": " + hs[0].1 + "\r\n";
      var q := r.(headers := r.headers[ToLower(hs[0].0) := Trim(hs[0].1)]);
      assert GoodHeaders(hs[1..]) by {
        assert forall k :: 0 <= k < |hs[1..]| ==> hs[1..][k] == hs[k + 1];
      }
      FeedHeaders(hs[1..], t, q);
      FeedHeader(hs[0].0, hs[0].1, Latin1(HeaderLines(hs[1..])) + t, r);
      Peel(line, HeaderLines(hs[1..]), t);
    }
  }

  /** The blank line ends the head and leaves the body in the stream. */
  lemma FeedEnd(t: seq<byte>, r: Reader)
    requires r.phase == HeaderName && r.name == ""
    ensures Feed(Latin1("\r\n") + t, r) == Ok(Fed(r, t))
  {
    FeedCrLf(t, r);
  }

  /** What a response head may hold for the reader to read it back: Latin-1 text without '\r', and good headers. */
  predicate Writable(text: string, hs: seq<(string, string)>) {
    IsLatin1(text) && '\r' !in text && GoodHeaders(hs)
  }

  lemma WritableHead(code: nat, text: string, hs: seq<(string, string)>)
    requires Writable(text, hs)
    ensures IsLatin1(ResponseHead(code, text, hs))
  {
    FeedStatusLine(code, text, []);
    FeedHeaders(hs, [], START.(phase := HeaderName));
    Latin1Append(StatusLine(code, text), HeaderLines(hs));
    Latin1Append(StatusLine(code, text) + HeaderLines(hs), "\r\n");
  }

  /** A whole response on the wire: the head as Latin-1 bytes, then the body. */
  function ResponseBytes(code: nat, text: string, hs: seq<(string, string)>, body: seq<byte>): seq<byte>
    requires IsLatin1(ResponseHead(code, text, hs))
  {
    Latin1(ResponseHead(code, text, hs)) + body
  }

  /** A status code written in decimal reads back, when it fits a `u16`. */
  lemma CodeRoundTrip(code: nat)
    requires code <= U16_MAX
    ensures ParseUnsigned(NatToString(code), 10, U16_MAX) == Some(code)
  {
    NatToStringValue(code);
    assert NatToString(code)[0] != '+';
  }

  /** The reader reads a written head to its end and leaves the body in the stream. */
  lemma ReadHead(code: nat, text: string, hs: seq<(string, string)>, body: seq<byte>)
    requires Writable(text, hs)
    ensures IsLatin1(ResponseHead(code, text, hs))
    ensures Feed(ResponseBytes(code, text, hs, body), START) ==
      Ok(Fed(Reader(HeaderName, PROTOCOL, VERSION, NatToString(code), text, "", "", HeaderMap(hs, map[])), body))
  {
    WritableHead(code, text, hs);
    var sl := StatusLine(code, text);
    var hl := HeaderLines(hs);
    var r := Reader(HeaderName, PROTOCOL, VERSION, NatToString(code), text, "", "", map[]);
    var h := r.(headers := HeaderMap(hs, map[]));
    FeedStatusLine(code, text, []);
    FeedHeaders(hs, [], r);
    var tail := Latin1(hl) + (Latin1("\r\n") + body);
    assert ResponseBytes(code, text, hs, body) == Latin1(sl) + tail by {
      Peel(sl + hl, "\r\n", body);
      Peel(sl, hl, Latin1("\r\n") + body);
    }
    calc {
      Feed(Latin1(sl) + tail, START);
      { FeedStatusLine(code, text, tail); }
      Feed(tail, r);
      { FeedHeaders(hs, Latin1("\r\n") + body, r); }
      Feed(Latin1("\r\n") + body, h);
      { FeedEnd(body, h); }
      Ok(Fed(h, body));
    }
  }

  /**
   * Reading a written response gives back its status code, text, headers
   * (as `HeaderMap` collects them) and body, when the headers carry a
   * `content-length` equal to the body's length.
   */
  lemma ResponseRoundTrip(code: nat, text: string, hs: seq<(string, string)>, body: seq<byte>)
    requires code <= U16_MAX && Writable(text, hs)
    requires var m := HeaderMap(hs, map[]);
      CONTENT_LENGTH in m && ParseUnsigned(m[CONTENT_LENGTH], 10, U16_MAX) == Some(|body|)
    ensures IsLatin1(ResponseHead(code, text, hs))
    ensures FromBytes(ResponseBytes(code, text, hs, body)) == Ok(Response(code, text, HeaderMap(hs, map[]), body))
  {
    ReadHead(code, text, hs, body);
    CodeRoundTrip(code);
    assert body[..|body|] == body;
  }

  /** What the loop leaves in the stream is a suffix of what it was given. */
  lemma {:induction false} FeedRestSuffix(s: seq<byte>, r: Reader)
    requires Feed(s, r).Ok?
    ensures var rest := Feed(s, r).value.rest; |rest| <= |s| && rest == s[|s| - |rest|..]
    decreases |s|
  {
    if s != [] {
      var m := Step(r, s[0] as char).value;
      var t := After(s, m.skip || m.stop);
      assert t == s[|s| - |t|..];
      if !m.stop {
        FeedRestSuffix(t, m.next);
        var rest := Feed(s, r).value.rest;
        assert rest == t[|t| - |rest|..];
      }
    }
  }

  /**
   * A response read from a stream has a `u16` status code and a
   * `content-length` header giving its body's length, and its body is bytes
   * of the stream, in order, from right after the head.
   */
  lemma FromBytesSpec(input: seq<byte>)
    requires FromBytes(input).Ok?
    ensures var res := FromBytes(input).value;
      res.statusCode <= U16_MAX
      && CONTENT_LENGTH in res.headers
      && ParseUnsigned(res.headers[CONTENT_LENGTH], 10, U16_MAX) == Some(|res.body|)
      && exists k :: 0 <= k <= |input| && res.body <= input[k..]
  {
    var fed := Feed(input, START).value;
    FeedRestSuffix(input, START);
    var res := FromBytes(input).value;
    var k := |input| - |fed.rest|;
    assert res.body <= input[k..];
  }

  /** A stream that does not start with an upper-case letter is refused: the protocol name comes first. */
  lemma NoProtocolRefused(input: seq<byte>)
    requires |input| > 0 && !('A' <= input[0] as char <= 'Z')
    ensures FromBytes(input).Err?
  {
  }

  /** A head without a `content-length` header is refused, whatever else it holds. */
  lemma NoLengthRefused(input: seq<byte>)
    requires Feed(input, START).Ok? && CONTENT_LENGTH !in Feed(input, START).value.reader.headers
    ensures FromBytes(input) == Err("Unknown body length")
  {
  }

  /** A body shorter than its `content-length` is refused. */
  lemma ShortBodyRefused(code: nat, text: string, hs: seq<(string, string)>, body: seq<byte>, n: nat)
    requires Writable(text, hs)
    requires var m := HeaderMap(hs, map[]);
      CONTENT_LENGTH in m && ParseUnsigned(m[CONTENT_LENGTH], 10, U16_MAX) == Some(n) && |body| < n
    ensures IsLatin1(ResponseHead(code, text, hs))
    ensures FromBytes(ResponseBytes(code, text, hs, body)) == Err("early eof")
  {
    ReadHead(code, text, hs, body);
  }

  /** `RequestMethod`. */
  datatype Method = Options | Get | Post | Put | Delete | Head | Trace | Connect | Patch

  /** `Display for RequestMethod` as written: `Option` is shown as "OPTION". */
  function MethodNameAsWritten(m: Method): string {
    match m
    case Options => "OPTION"
    case Get => "GET"
    case Post => "POST"
    case Put => "PUT"
    case Delete => "DELETE"
    case Head => "HEAD"
    case Trace => "TRACE"
    case Connect => "CONNECT"
    case Patch => "PATCH"
  }

  /** The method tokens of section 9 of RFC 9110, and PATCH of RFC 5789. */
  const STANDARD_METHODS: set<string> := {"GET", "HEAD", "POST", "PUT", "DELETE", "CONNECT", "OPTIONS", "TRACE", "PATCH"}

  /** The method token a request line carries (the corrected `Display`: "OPTIONS"). */
  function MethodName(m: Method): string {
    match m
    case Options => "OPTIONS"
    case _ => MethodNameAsWritten(m)
  }

  /** The method a token names, if any. */
  function ParseMethod(s: string): Option<Method> {
    if s == "OPTIONS" then Some(Options)
    else if s == "GET" then Some(Get)
    else if s == "POST" then Some(Post)
    else if s == "PUT" then Some(Put)
    else if s == "DELETE" then Some(Delete)
    else if s == "HEAD" then Some(Head)
    else if s == "TRACE" then Some(Trace)
    else if s == "CONNECT" then Some(Connect)
    else if s == "PATCH" then Some(Patch)
    else None
  }

  /** Every method is written as a standard token that names it back. */
  lemma MethodNameRoundTrip(m: Method)
    ensures MethodName(m) in STANDARD_METHODS
    ensures ParseMethod(MethodName(m)) == Some(m)
  {
  }

  /** Exactly the standard tokens name a method. */
  lemma ParseMethodSpec(s: string)
    ensures ParseMethod(s).Some? <==> s in STANDARD_METHODS
    ensures ParseMethod(s).Some? ==> MethodName(ParseMethod(s).value) == s
  {
  }

  /** As written, `Option` goes out as "OPTION", which is no method of RFC 9110; every other method agrees. */
  lemma OptionAsWritten(m: Method)
    ensures MethodNameAsWritten(Options) !in STANDARD_METHODS
    ensures ParseMethod(MethodNameAsWritten(Options)) == None
    ensures m != Options ==> MethodNameAsWritten(m) == MethodName(m)
  {
  }

  /** The fields of a `Request`, as one value. */
  datatype RequestView = RequestView(verb: Method, headers: map<string, string>, path: string, body: Option<seq<byte>>)

  /** `METHOD path HTTP/1.1` and CRLF. */
  function RequestLine(m: Method, path: string): string {
    MethodName(m) + " " + path + " " + PROTOCOL + "/" + VERSION + "\r\n"
  }

  /** The headers in the order `order` visits their names (a `HashMap`'s iteration order). */
  function Pairs(order: seq<string>, headers: map<string, string>): (ps: seq<(string, string)>)
    requires forall k :: 0 <= k < |order| ==> order[k] in headers
    ensures |ps| == |order| && forall k :: 0 <= k < |order| ==> ps[k] == (order[k], headers[order[k]])
  {
    seq(|order|, k requires 0 <= k < |order| => (order[k], headers[order[k]]))
  }

  /** The request head: the request line, a line per header, a blank line. */
  function RequestHead(q: RequestView, order: seq<string>): string
    requires forall k :: 0 <= k < |order| ==> order[k] in q.headers
  {
    RequestLine(q.verb, q.path) + HeaderLines(Pairs(order, q.headers)) + "\r\n"
  }

  /** `as_bytes`: the head in UTF-8, then the body if there is one. */
  function RequestBytes(q: RequestView, order: seq<string>): seq<byte>
    requires forall k :: 0 <= k < |order| ==> order[k] in q.headers
  {
    Utf8(RequestHead(q, order)) + (if q.body.Some? then q.body.value else [])
  }

  /** `order` visits every header name exactly once. */
  predicate Enumerates(order: seq<string>, headers: map<string, string>) {
    (forall i, j :: 0 <= i < j < |order| ==> order[i] != order[j])
    && (forall k :: 0 <= k < |order| ==> order[k] in headers)
    && forall n :: n in headers ==> n in order
  }

  lemma OccursAfter(a: string, b: string, t: string, j: nat)
    requires OccursAt(b, t, j)
    ensures OccursAt(a + b, t, |a| + j)
  {
    assert (a + b)[|a| + j..|a| + j + |t|] == b[j..j + |t|];
  }

  lemma OccursBefore(a: string, b: string, t: string, j: nat)
    requires OccursAt(a, t, j)
    ensures OccursAt(a + b, t, j)
  {
    assert (a + b)[j..j + |t|] == a[j..j + |t|];
  }

  /** Every header's line is among the header lines. */
  lemma {:induction false} HeaderLinesHold(hs: seq<(string, string)>, i: nat)
    requires i < |hs|
    ensures Contains(HeaderLines(hs), HeaderLine(hs[i]))
    decreases |hs|
  {
    var first := HeaderLine(hs[0]);
    if i == 0 {
      assert OccursAt(first, first, 0);
      OccursBefore(first, HeaderLines(hs[1..]), first, 0);
    } else {
      HeaderLinesHold(hs[1..], i - 1);
      var j :| OccursAt(HeaderLines(hs[1..]), HeaderLine(hs[i]), j);
      OccursAfter(first, HeaderLines(hs[1..]), HeaderLine(hs[i]), j);
    }
  }

  /** The head holds a `name: value` line for every header the request carries, whatever the iteration order. */
  lemma HeadHoldsHeaders(q: RequestView, order: seq<string>, n: string)
    requires Enumerates(order, q.headers) && n in q.headers
    ensures Contains(RequestHead(q, order), HeaderLine((n, q.headers[n])))
  {
    var ps := Pairs(order, q.headers);
    var line := RequestLine(q.verb, q.path);
    var hl := HeaderLines(ps);
    var t := HeaderLine((n, q.headers[n]));
    var i :| 0 <= i < |order| && order[i] == n;
    assert ps[i] == (n, q.headers[n]);
    HeaderLinesHold(ps, i);
    var j :| OccursAt(hl, t, j);
    OccursAfter(line, hl, t, j);
    OccursBefore(line + hl, "\r\n", t, |line| + j);
    assert OccursAt(RequestHead(q, order), t, |line| + j);
  }

  /** The request starts with its request line, and its body comes last. */
  lemma RequestBytesShape(q: RequestView, order: seq<string>)
    requires Enumerates(order, q.headers)
    ensures Utf8(RequestLine(q.verb, q.path)) <= RequestBytes(q, order)
    ensures q.body.Some? ==> RequestBytes(q, order)[|RequestBytes(q, order)| - |q.body.value|..] == q.body.value
    ensures q.body.None? ==> RequestBytes(q, order) == Utf8(RequestHead(q, order))
  {
    var line := RequestLine(q.verb, q.path);
    var rest := HeaderLines(Pairs(order, q.headers)) + "\r\n";
    assert RequestHead(q, order) == line + rest;
    Utf8Append(line, rest);
  }

  /** `Request`: a builder whose setters update the fields in place. */
  class Request {
    /** `method`. */
    var verb: Method
    var headers: map<string, string>
    var path: string
    var body: Option<seq<byte>>

    function View(): RequestView
      reads this
    {
      RequestView(verb, headers, path, body)
    }

    // `Request::new`: GET, an empty path, `accept: */*` and no body.
    constructor()
      ensures View() == RequestView(Get, map["accept" := "*/*"], "", None)
    {
      verb := Get;
      headers := map["accept" := "*/*"];
      path := "";
      body := None;
    }

    method SetMethod(m: Method)
      modifies this
      ensures View() == old(View()).(verb := m)
    {
      verb := m;
    }

    method SetPath(p: string)
      modifies this
      ensures View() == old(View()).(path := p)
    {
      path := p;
    }

    /** `header`: the name as given, the value trimmed; a name set before is replaced. */
    method Header(name: string, value: string)
      modifies this
      ensures View() == old(View()).(headers := old(headers)[name := Trim(value)])
    {
      headers := headers[name := Trim(value)];
    }

    method SetBody(bytes: seq<byte>)
      modifies this
      ensures View() == old(View()).(body := Some(bytes))
    {
      body := Some(bytes);
    }

    /** `as_bytes`, with `order` the headers' iteration order. */
    method AsBytes(order: seq<string>) returns (req: seq<byte>)
      requires Enumerates(order, headers)
      ensures req == RequestBytes(View(), order)
    {
      var line := RequestLine(verb, path);
      req := Utf8(line);
      var ps := Pairs(order, headers);
      var i := 0;
      assert line + HeaderLines(ps[..0]) == line;
      while i < |order|
        invariant 0 <= i <= |order|
        invariant req == Utf8(line + HeaderLines(ps[..i]))
      {
        WriteHeader(line, ps, i);
        req := req + Utf8(HeaderLine((order[i], headers[order[i]])));
        i := i + 1;
      }
      WriteEnd(line, ps, View(), order);
      req := req + Utf8("\r\n");
      if body.Some? {
        req := req + body.value;
      }
    }
  }

  /** Writing header `i` extends the bytes written so far by its line. */
  lemma WriteHeader(line: string, ps: seq<(string, string)>, i: nat)
    requires i < |ps|
    ensures Utf8(line + HeaderLines(ps[..i + 1])) == Utf8(line + HeaderLines(ps[..i])) + Utf8(HeaderLine(ps[i]))
  {
    var a := line + HeaderLines(ps[..i]);
    var h := HeaderLine(ps[i]);
    assert line + HeaderLines(ps[..i + 1]) == a + h by {
      assert ps[..i + 1] == ps[..i] + [ps[i]];
      HeaderLinesSnoc(ps[..i], ps[i]);
    }
    Utf8Append(a, h);
  }

  /** After the last header, the blank line completes the head. */
  lemma WriteEnd(line: string, ps: seq<(string, string)>, q: RequestView, order: seq<string>)
    requires forall k :: 0 <= k < |order| ==> order[k] in q.headers
    requires line == RequestLine(q.verb, q.path) && ps == Pairs(order, q.headers)
    ensures Utf8(RequestHead(q, order)) == Utf8(line + HeaderLines(ps[..|ps|])) + Utf8("\r\n")
  {
    assert ps[..|ps|] == ps;
    Utf8Append(line + HeaderLines(ps), "\r\n");
  }

  lemma {:induction false} HeaderLinesSnoc(hs: seq<(string, string)>, h: (string, string))
    ensures HeaderLines(hs + [h]) == HeaderLines(hs) + HeaderLine(h)
    decreases |hs|
  {
    if hs == [] {
      assert HeaderLines([h]) == HeaderLine(h) + HeaderLines([]);
    } else {
      assert (hs + [h])[1..] == hs[1..] + [h];
      HeaderLinesSnoc(hs[1..], h);
    }
  }
}
