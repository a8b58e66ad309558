/**
 * The part of hickory-proto's `Name` that the resolver relies on: a name is
 * a sequence of labels plus a fully-qualified flag; it is read from text by
 * `Name::from_ascii`/`Name::from_str`, written back by `to_utf8`, and
 * compared by `==` (same qualification, labels ignoring ASCII case) or by
 * `eq_case` (labels exactly).
 */
module DnsName {
  import opened Wrappers
  import opened Text

  datatype Name = Name(labels: seq<string>, fqdn: bool)

  const ROOT: Name := Name([], true)

  const MAX_LABEL_LEN: nat := 63

  /**
   * A character `Label::from_ascii` admits: an ASCII letter or digit, '_',
   * '-' except first, and '*' only first (the wildcard).
   */
  predicate LabelChar(c: char, first: bool) {
    IsAsciiAlpha(c) || IsAsciiDigit(c) || c == '_' || (c == '-' && !first) || (c == '*' && first)
  }

  /** Every character of the label is admitted at its position. */
  predicate LabelChars(l: string) {
    forall i :: 0 <= i < |l| ==> LabelChar(l[i], i == 0)
  }

  predicate ValidLabel(l: string) {
    0 < |l| <= MAX_LABEL_LEN && '.' !in l && LabelChars(l)
  }

  predicate Valid(n: Name) {
    forall i :: 0 <= i < |n.labels| ==> ValidLabel(n.labels[i])
  }

  /**
   * `Name::from_ascii`: "." is the root; a trailing '.' makes the name fully
   * qualified; an empty inner label, a label over 63 characters or a label
   * holding a character `LabelChar` refuses (a space, say) is an error.
   */
  function FromAscii(s: string): (r: Result<Name>)
    ensures r.Ok? ==> Valid(r.value)
  {
    if s == "" then Ok(Name([], false))
    else if s == "." then Ok(ROOT)
    else
      var parts := Split(s, '.');
      var fqdn := parts[|parts| - 1] == "";
      var labels := if fqdn then parts[..|parts| - 1] else parts;
      if exists i :: 0 <= i < |labels| && labels[i] == "" then Err("Malformed label: empty label in '" + s + "'")
      else if exists i :: 0 <= i < |labels| && |labels[i]| > MAX_LABEL_LEN then Err("Label exceeds 63 characters in '" + s + "'")
      else if exists i :: 0 <= i < |labels| && !LabelChars(labels[i]) then Err("Malformed label in '" + s + "'")
      else Ok(Name(labels, fqdn))
  }

  /**
   * A text without dots is a one-label name, read exactly when it is at
   * most 63 characters of admitted characters: `foo bar` and `-x` are refused.
   */
  lemma SingleLabelText(s: string)
    requires s != "" && '.' !in s
    ensures FromAscii(s).Ok? <==> |s| <= MAX_LABEL_LEN && LabelChars(s)
    ensures FromAscii(s).Ok? ==> FromAscii(s).value == Name([s], false)
  {
    assert s != ".";
    var parts := Split(s, '.');
    assert parts == [s];
    assert parts[|parts| - 1] != "";
  }

  /** `Name::to_utf8`: the labels joined by '.', with a trailing '.' when fully qualified. */
  function ToUtf8(n: Name): string {
    if n.labels == [] then (if n.fqdn then "." else "")
    else Join(n.labels, '.') + (if n.fqdn then "." else "")
  }

  predicate LabelEqIgnoreCase(a: string, b: string) {
    EqIgnoreAsciiCase(a, b)
  }

  /**
   * `PartialEq for Name`: both fully qualified or neither, then label by
   * label, ignoring ASCII case.
   */
  predicate EqIgnoreCase(a: Name, b: Name) {
    a.fqdn == b.fqdn
    && |a.labels| == |b.labels|
    && forall i :: 0 <= i < |a.labels| ==> LabelEqIgnoreCase(a.labels[i], b.labels[i])
  }

  /** `Name::eq_case`: label by label, exactly; the fully-qualified flag is not compared. */
  predicate EqCase(a: Name, b: Name) {
    a.labels == b.labels
  }

  /** Between names alike in qualification, exact equality implies `==`. */
  lemma EqCaseImpliesEq(a: Name, b: Name)
    requires EqCase(a, b) && a.fqdn == b.fqdn
    ensures EqIgnoreCase(a, b)
  {
  }

  /** `==` never equates a fully-qualified name with one that is not, whatever their labels. */
  lemma QualifiedNeverEqUnqualified(a: Name, b: Name)
    requires a.fqdn && !b.fqdn
    ensures !EqIgnoreCase(a, b) && !EqIgnoreCase(b, a)
  {
  }

  /** A text not ending in '.' reads, if at all, as a name that is not fully qualified. */
  lemma NoTrailingDotUnqualified(s: string)
    requires s != "" && s[|s| - 1] != '.'
    ensures FromAscii(s).Ok? ==> !FromAscii(s).value.fqdn
  {
    SplitLastNonEmpty(s, '.');
  }

  /** A text whose last character is not the separator has a non-empty last piece. */
  lemma {:induction false} SplitLastNonEmpty(s: string, sep: char)
    requires s != [] && s[|s| - 1] != sep
    ensures Split(s, sep)[|Split(s, sep)| - 1] != ""
    decreases |s|
  {
    var rest := Split(s[1..], sep);
    if |s| == 1 {
      assert rest == [""];
    } else {
      assert s[1..][|s[1..]| - 1] == s[|s| - 1];
      SplitLastNonEmpty(s[1..], sep);
    }
  }

  /** What `to_utf8` writes, `from_ascii` reads back. */
  lemma ToUtf8RoundTrip(n: Name)
    requires Valid(n) && (n.labels == [] ==> n.fqdn)
    ensures FromAscii(ToUtf8(n)) == Ok(n)
  {
    if n.labels != [] {
      var s := ToUtf8(n);
      var j := Join(n.labels, '.');
      SplitJoin(n.labels, '.');
      assert |Split(j, '.')[0]| > 0;
      assert |j| > 0;
      if n.fqdn {
        SplitAppendSep(j, '.');
        assert Split(s, '.') == n.labels + [""];
      } else {
        assert s == j && j != "." && Split(s, '.') == n.labels + [];
      }
      ValidLabelsRead(s, n.labels, n.fqdn);
    }
  }

  /** Text that splits into valid labels, plus an empty last piece when fully qualified, reads as those labels. */
  lemma ValidLabelsRead(s: string, labels: seq<string>, fqdn: bool)
    requires s != "" && s != "." && labels != []
    requires Split(s, '.') == labels + (if fqdn then [""] else [])
    requires Valid(Name(labels, fqdn))
    ensures FromAscii(s) == Ok(Name(labels, fqdn))
  {
    var parts := Split(s, '.');
    assert parts[|parts| - 1] == "" <==> fqdn;
    assert (if fqdn then parts[..|parts| - 1] else parts) == labels;
  }
}
