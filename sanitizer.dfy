/** `sanitize_value` (sanitizer.py:173-225): pick the kind (the override if
    one is given, else `detect_type`), then apply that kind's sanitizer. The
    JSON kind walks the parsed tree and sanitizes every string leaf by its
    own detected kind; the env kind rewrites the value of every `KEY=VALUE`
    line the same way. Both recurse into `sanitize_value` on strictly shorter
    text, which is what makes the recursion terminate. */
module Sanitizer {
  import opened Str
  import opened Options
  import opened Patterns
  import opened JsonModel
  import opened Detect
  import opened EmailMasking
  import opened PhoneMasking
  import opened UrlStripping
  import opened Escape

  /** `sanitize_value(value, kind)`: the kind reported and the sanitized
      text. An override, when given, is used as it is; otherwise the value's
      detected kind. */
  function Sanitize(lib: JsonCodec, value: string, kind: Option<Kind>): (Kind, string)
    requires WellBehaved(lib)
    decreases |value|, 6
  {
    SanitizeAs(lib, value, if kind.Some? then kind.value else DetectType(lib, value))
  }

  /** The branch of `sanitize_value` for the kind `detected`. */
  function SanitizeAs(lib: JsonCodec, value: string, detected: Kind): (Kind, string)
    requires WellBehaved(lib)
    decreases |value|, 5
  {
    match detected
    case Email => (Email, MaskEmail(value))
    case Phone => (Phone, PhoneMask(value))
    case Url => (Url, StripUrlQuery(value))
    case Json => SanitizeJson(lib, value)
    case Env => (Env, SanitizeEnv(lib, value))
    case Text => (Text, HtmlEscape(EscapeSql(value)))
  }

  /** `sanitize_value(s, detect_type(s))[1]`, what `recurse` does to a string
      leaf and the env branch to a value. Passing the detected kind as the
      override is the same as passing none (`DetectedOverride`). */
  function SanitizeDetected(lib: JsonCodec, s: string): string
    requires WellBehaved(lib)
    decreases |s|, 7
  {
    Sanitize(lib, s, None).1
  }

  /** The JSON branch: parse, walk the tree, print; text that does not parse
      falls back to HTML escaping and is reported as text. */
  function SanitizeJson(lib: JsonCodec, value: string): (Kind, string)
    requires WellBehaved(lib)
    decreases |value|, 4
  {
    match lib.loads(value)
    case None => (Text, HtmlEscape(value))
    case Some(t) =>
      assert ParsesShorter(lib, value);
      (Json, lib.dumps(SanitizeTree(lib, t, |value|)))
  }

  /** The env branch: every line rewritten, joined with '\n'. */
  function SanitizeEnv(lib: JsonCodec, value: string): string
    requires WellBehaved(lib)
    decreases |value|, 4
  {
    Join(EnvLines(lib, SplitLines(value), |value|), "\n")
  }

  /** `recurse`: objects keep their keys in order, arrays their order, and
      every string leaf is sanitized by its own detected kind. `n` bounds the
      leaves' length and is the length of the parsed text. */
  function SanitizeTree(lib: JsonCodec, t: JsonValue, n: nat): (r: JsonValue)
    requires WellBehaved(lib) && LeavesShorter(t, n)
    ensures SameShape(t, r)
    decreases n, 3, t
  {
    match t
    case JString(s) => JString(SanitizeDetected(lib, s))
    case JArray(items) =>
      JArray(seq(|items|, i requires 0 <= i < |items| => SanitizeTree(lib, items[i], n)))
    case JObject(members) =>
      JObject(seq(|members|, i requires 0 <= i < |members| => (members[i].0, SanitizeTree(lib, members[i].1, n))))
    case _ => t
  }

  /** One line of the env branch: blank lines, '#' comments and lines without
      '=' are kept as they are; otherwise the text before the first '=' is
      kept and the rest is replaced by its stripped, sanitized form. */
  function EnvLine(lib: JsonCodec, line: string, n: nat): string
    requires WellBehaved(lib) && |line| <= n
    decreases n, 2
  {
    if !IsSettingLine(line) || '=' !in line then line
    else
      var i := Find(line, '=');
      line[..i] + "=" + SanitizeDetected(lib, Strip(line[i + 1..]))
  }

  /** The env branch's output lines, one per input line. */
  function EnvLines(lib: JsonCodec, lines: seq<string>, n: nat): (out: seq<string>)
    requires WellBehaved(lib)
    requires forall i :: 0 <= i < |lines| ==> |lines[i]| <= n
    ensures |out| == |lines|
    decreases n, 3
  {
    seq(|lines|, i requires 0 <= i < |lines| => EnvLine(lib, lines[i], n))
  }

  // ---------------------------------------------------------------- imperative form

  /** The env branch as written: walk the lines and append each output line. */
  method SanitizeEnvBlock(lib: JsonCodec, v: string) returns (r: string)
    requires WellBehaved(lib)
    ensures r == SanitizeEnv(lib, v)
  {
    var src := SplitLines(v);
    ghost var target := EnvLines(lib, src, |v|);
    var lines: seq<string> := [];
    for i := 0 to |src|
      invariant |lines| == i
      invariant forall k :: 0 <= k < i ==> lines[k] == target[k]
    {
      var line := RewriteEnvLine(lib, src[i]);
      EnvLinesAt(lib, src, |v|, i);
      EnvLineRewrittenUnique(lib, src[i], line, |v|);
      PrefixGrows(lines, line, target);
      lines := lines + [line];
    }
    assert lines == target;
    r := Join(lines, "\n");
  }

  /** The body of the env loop for one line: a setting keeps its key and
      its first '=' and gets its value sanitized; any other line is kept. */
  method RewriteEnvLine(lib: JsonCodec, line: string) returns (out: string)
    requires WellBehaved(lib)
    ensures EnvLineRewritten(lib, line, out)
  {
    if !IsSettingLine(line) || '=' !in line {
      return line;
    }
    var j := Find(line, '=');
    var value := Strip(line[j + 1..]);
    // `sanitize_value(v, detect_type(v))[1]`; see `DetectedOverride`
    var sanitized := SanitizeDetected(lib, value);
    out := line[..j] + "=" + sanitized;
    FindAfterKey(line[..j], sanitized, '=');
  }

  /** How `sanitize_value` reads its `kind` argument: no name and the empty
      name both leave the choice to `detect_type` (`kind or detect_type(value)`);
      a kind's own name selects that kind's branch; any other name passes
      every branch test and ends in the text branch. */
  function OverrideKind(kind: Option<string>): (k: Option<Kind>)
    ensures k.None? <==> kind.None? || kind.value == []
    ensures k.Some? && k.value != Text ==> kind.value == KindName(k.value)
  {
    if kind.None? || kind.value == [] then None
    else if kind.value == "email" then Some(Email)
    else if kind.value == "phone" then Some(Phone)
    else if kind.value == "url" then Some(Url)
    else if kind.value == "json" then Some(Json)
    else if kind.value == "env" then Some(Env)
    else Some(Text)
  }

  /** Each kind's name selects that kind. */
  lemma {:induction false} OverrideKindName(k: Kind)
    ensures OverrideKind(Some(KindName(k))) == Some(k)
  {
    assert "email" != "phone" && "email" != "url" && "email" != "json" && "email" != "env";
  }

  /** `sanitize_value` as written, with the phone and env branches run by
      their loops. */
  method SanitizeValue(lib: JsonCodec, value: string, kind: Option<string>) returns (detected: Kind, r: string)
    requires WellBehaved(lib)
    ensures (detected, r) == Sanitize(lib, value, OverrideKind(kind))
  {
    var chosen := OverrideKind(kind);
    detected := if chosen.Some? then chosen.value else DetectType(lib, value);
    var v := value;
    match detected {
      case Email =>
        r := MaskEmail(v);
      case Phone =>
        r := MaskPhone(v);
      case Url =>
        r := StripUrlQuery(v);
      case Json =>
        detected, r := SanitizeJson(lib, v).0, SanitizeJson(lib, v).1;
      case Env =>
        r := SanitizeEnvBlock(lib, v);
      case Text =>
        r := HtmlEscape(EscapeSql(v));
    }
  }

  // ---------------------------------------------------------------- properties

  /** An override decides the branch and detection is not consulted;
      without one the detected kind decides it. The reported kind is the
      branch's kind, except that JSON that fails to parse is reported as
      text. */
  lemma {:induction false} SanitizeReportsKind(lib: JsonCodec, value: string, kind: Option<Kind>)
    requires WellBehaved(lib)
    ensures kind.Some? ==> Sanitize(lib, value, kind) == SanitizeAs(lib, value, kind.value)
    ensures kind.None? ==> Sanitize(lib, value, kind) == SanitizeAs(lib, value, DetectType(lib, value))
    ensures var d := if kind.Some? then kind.value else DetectType(lib, value);
      Sanitize(lib, value, kind).0 == if d == Json && lib.loads(value).None? then Text else d
  {
  }

  /** Passing the detected kind as the override changes nothing. */
  lemma {:induction false} DetectedOverride(lib: JsonCodec, value: string)
    requires WellBehaved(lib)
    ensures Sanitize(lib, value, Some(DetectType(lib, value))) == Sanitize(lib, value, None)
  {
  }

  /** The text branch is safe to embed in HTML, and undoing the HTML entities
      and then the doubled quotes gives back the input. */
  lemma {:induction false} TextBranchSafe(lib: JsonCodec, value: string)
    requires WellBehaved(lib)
    ensures var r := SanitizeAs(lib, value, Text);
      && r.0 == Text
      && (forall i :: 0 <= i < |r.1| ==> r.1[i] !in "<>\"'")
      && UnescapeSql(UnescapeHtml(r.1)) == value
  {
    HtmlEscapeSafe(EscapeSql(value));
    HtmlEscapeRoundTrip(EscapeSql(value));
    EscapeSqlRoundTrip(value);
  }

  /** JSON that does not parse is reported as text but only HTML-escaped:
      its quotes are not doubled, so it differs from the text branch whenever
      it holds a single quote. */
  lemma {:induction false} JsonFallbackSkipsSql(lib: JsonCodec, value: string)
    requires WellBehaved(lib) && lib.loads(value).None?
    ensures var r := SanitizeAs(lib, value, Json);
      && r.0 == Text
      && UnescapeHtml(r.1) == value
      && ('\'' in value <==> r.1 != SanitizeAs(lib, value, Text).1)
  {
    HtmlEscapeRoundTrip(value);
    SqlEscapeShows(value);
  }

  /** JSON that parses comes back with the same shape: the same keys in the
      same order, the same arrays and the same non-string leaves. */
  lemma {:induction false} JsonBranchKeepsShape(lib: JsonCodec, value: string, t: JsonValue)
    requires WellBehaved(lib) && lib.loads(value) == Some(t)
    ensures LeavesShorter(t, |value|)
    ensures var u := SanitizeTree(lib, t, |value|);
      SanitizeJson(lib, value) == (Json, lib.dumps(u)) && SameShape(t, u)
  {
    assert ParsesShorter(lib, value);
  }

  /** An object with one string member keeps its key, and its value is
      sanitized by its own detected kind. */
  lemma {:induction false} SanitizeOneMember(lib: JsonCodec, key: string, s: string, n: nat)
    requires WellBehaved(lib) && |s| < n
    ensures SanitizeTree(lib, JObject([(key, JString(s))]), n) == JObject([(key, JString(SanitizeDetected(lib, s)))])
  {
    var leaf := JString(s);
    var r := SanitizeTree(lib, JObject([(key, leaf)]), n);
    assert SanitizeTree(lib, leaf, n) == JString(SanitizeDetected(lib, s));
    assert r.members[0] == (key, SanitizeTree(lib, leaf, n));
    assert r.members == [(key, JString(SanitizeDetected(lib, s)))];
  }

  /** What the env branch promises of one line: a line that is not a
      setting, or has no '=', passes through; a setting keeps its key (the
      text before its first '=') and its first '=', and the rest is its
      stripped value, sanitized by its own detected kind. */
  predicate EnvLineRewritten(lib: JsonCodec, line: string, out: string)
    requires WellBehaved(lib)
  {
    if !IsSettingLine(line) || '=' !in line then out == line
    else
      var k := Find(line, '=');
      && k < |out| && Find(out, '=') == k
      && out[..k] == line[..k]
      && out[k + 1..] == SanitizeDetected(lib, Strip(line[k + 1..]))
  }

  /** `EnvLineRewritten` pins the output line down: the one line it allows
      is the env branch's own. */
  lemma {:induction false} EnvLineRewrittenUnique(lib: JsonCodec, line: string, out: string, n: nat)
    requires WellBehaved(lib) && |line| <= n
    requires EnvLineRewritten(lib, line, out)
    ensures out == EnvLine(lib, line, n)
  {
    if IsSettingLine(line) && '=' in line {
      var k := Find(line, '=');
      var value := SanitizeDetected(lib, Strip(line[k + 1..]));
      assert EnvLine(lib, line, n) == line[..k] + "=" + value;
      assert out[k] == '=';
      SplitAround(out, k);
    }
  }

  /** The env branch has one output line per input line, each rewritten as
      `EnvLineRewritten` says. */
  lemma {:induction false} EnvBranchLines(lib: JsonCodec, value: string)
    requires WellBehaved(lib)
    ensures var lines := SplitLines(value);
      var out := EnvLines(lib, lines, |value|);
      && |out| == |lines|
      && forall i :: 0 <= i < |lines| ==> EnvLineRewritten(lib, lines[i], out[i])
  {
    var lines := SplitLines(value);
    forall i | 0 <= i < |lines|
      ensures EnvLineRewritten(lib, lines[i], EnvLines(lib, lines, |value|)[i])
    {
      EnvLinesAt(lib, lines, |value|, i);
      EnvLineMeets(lib, lines[i], |value|);
    }
  }

  /** Each line of the env branch is rewritten as `EnvLineRewritten` says. */
  lemma {:induction false} EnvLineMeets(lib: JsonCodec, line: string, n: nat)
    requires WellBehaved(lib) && |line| <= n
    ensures EnvLineRewritten(lib, line, EnvLine(lib, line, n))
  {
    if IsSettingLine(line) && '=' in line {
      EnvLineKeepsKey(lib, line, n);
    } else {
      EnvLineVerbatim(lib, line, n);
    }
  }

  lemma {:induction false} EnvLinesAt(lib: JsonCodec, lines: seq<string>, n: nat, i: nat)
    requires WellBehaved(lib)
    requires forall i :: 0 <= i < |lines| ==> |lines[i]| <= n
    requires i < |lines|
    ensures EnvLines(lib, lines, n)[i] == EnvLine(lib, lines[i], n)
  {
  }

  /** A blank line, a comment or a line without '=' is kept verbatim. */
  lemma {:induction false} EnvLineVerbatim(lib: JsonCodec, line: string, n: nat)
    requires WellBehaved(lib) && |line| <= n
    requires !IsSettingLine(line) || '=' !in line
    ensures EnvLine(lib, line, n) == line
  {
  }

  lemma {:induction false} EnvLineKeepsKey(lib: JsonCodec, line: string, n: nat)
    requires WellBehaved(lib) && |line| <= n
    requires IsSettingLine(line) && '=' in line
    ensures Find(line, '=') < |EnvLine(lib, line, n)|
    ensures Find(EnvLine(lib, line, n), '=') == Find(line, '=')
    ensures EnvLine(lib, line, n)[..Find(line, '=')] == line[..Find(line, '=')]
    ensures EnvLine(lib, line, n)[Find(line, '=') + 1..] == SanitizeDetected(lib, Strip(line[Find(line, '=') + 1..]))
  {
    var k := Find(line, '=');
    FindAfterKey(line[..k], SanitizeDetected(lib, Strip(line[k + 1..])), '=');
  }
}
