/** `detect_type` (sanitizer.py:93-123): a fixed decision list over the
    stripped value. The first rule that applies names the kind. */
module Detect {
  import opened Str
  import opened Options
  import opened Patterns
  import opened JsonModel

  /** The six kinds `detect_type` returns and `sanitize_value` accepts. */
  datatype Kind = Email | Phone | Url | Json | Env | Text

  /** The name `detect_type` returns for each kind. */
  function KindName(k: Kind): string
  {
    match k
    case Email => "email"
    case Phone => "phone"
    case Url => "url"
    case Json => "json"
    case Env => "env"
    case Text => "text"
  }

  /** Starts with '{' and ends with '}', or starts with '[' and ends with ']'. */
  predicate Bracketed(v: string) {
    (|v| >= 1 && v[0] == '{' && v[|v| - 1] == '}')
    || (|v| >= 1 && v[0] == '[' && v[|v| - 1] == ']')
  }

  /** A line the env rule looks at: not blank, and not a '#' comment once stripped. */
  predicate IsSettingLine(line: string) {
    var t := Strip(line);
    t != [] && t[0] != '#'
  }

  /** The env rule: the value holds an '=', and among its lines at least one
      is a setting line, and every setting line holds an '='. */
  predicate IsEnvBlock(v: string) {
    var lines := SplitLines(v);
    '=' in v
    && (exists i :: 0 <= i < |lines| && IsSettingLine(lines[i]))
    && forall i :: 0 <= i < |lines| && IsSettingLine(lines[i]) ==> '=' in lines[i]
  }

  /** The JSON rule: bracketed, and the parser accepts it. */
  predicate IsJsonText(lib: JsonCodec, v: string) {
    Bracketed(v) && lib.loads(v).Some?
  }

  /** `detect_type`: the decision list applied to the stripped value. */
  function DetectType(lib: JsonCodec, value: string): Kind
  {
    Classify(lib, Strip(value))
  }

  /** The decision list itself, in the source's order. */
  function Classify(lib: JsonCodec, v: string): Kind
  {
    if IsJsonText(lib, v) then Json
    else if IsEnvBlock(v) then Env
    else if IsEmailFull(v) then Email
    else if IsPhoneFull(v) then Phone
    else if IsUrlFull(v) then Url
    else Text
  }

  /** The kind depends on the stripped value only. */
  lemma {:induction false} DetectTypeOfStripped(lib: JsonCodec, value: string)
    ensures DetectType(lib, Strip(value)) == DetectType(lib, value)
  {
    StripIdempotent(value);
  }

  /** Each kind is reported exactly when its rule holds and no earlier rule
      does, the three shape rules read as the regular expressions they stand
      for. */
  lemma {:induction false} DetectTypeMeaning(lib: JsonCodec, value: string)
    ensures var v := Strip(value); var k := DetectType(lib, value);
      && (k == Json <==> IsJsonText(lib, v))
      && (k == Env <==> !IsJsonText(lib, v) && IsEnvBlock(v))
      && (k == Email <==>
            (!IsJsonText(lib, v) && !IsEnvBlock(v) && exists a: nat :: EmailRegexAt(v, 0, a, |v|)))
      && (k == Phone <==>
            (!IsJsonText(lib, v) && !IsEnvBlock(v) && !IsEmailFull(v) && PhoneRegexFull(v)))
      && (k == Url <==>
            (!IsJsonText(lib, v) && !IsEnvBlock(v) && !IsEmailFull(v) && !IsPhoneFull(v) && UrlRegexFull(v)))
  {
    var v := Strip(value);
    IsEmailFullMeaning(v);
    IsPhoneFullMeaning(v);
    IsUrlFullMeaning(v);
  }

  /** Plain text is what matches none of the rules. */
  lemma {:induction false} DetectTypeText(lib: JsonCodec, value: string)
    ensures var v := Strip(value);
      DetectType(lib, value) == Text <==>
        (!IsJsonText(lib, v) && !IsEnvBlock(v)
         && (forall a: nat :: !EmailRegexAt(v, 0, a, |v|))
         && !PhoneRegexFull(v) && !UrlRegexFull(v))
  {
    DetectTypeMeaning(lib, value);
  }

  /** The parser is consulted only for bracketed text: any other value gets
      the same kind whatever the parser would say. */
  lemma {:induction false} DetectTypeNoParser(lib: JsonCodec, lib2: JsonCodec, value: string)
    requires !Bracketed(Strip(value))
    ensures DetectType(lib, value) == DetectType(lib2, value)
  {
  }

  /** A single line that holds an '=' and is neither bracketed nor a '#'
      comment is env, whatever else it looks like: a URL with a query such
      as "http://x?a=b" is reported as env, not as url. */
  lemma {:induction false} OneLineSettingIsEnv(lib: JsonCodec, value: string)
    requires var v := Strip(value);
      v != [] && '\n' !in v && '=' in v && v[0] != '#' && !Bracketed(v)
    ensures DetectType(lib, value) == Env
  {
    var v := Strip(value);
    StripIdempotent(value);
    assert IsEnvBlock(v) by {
      SplitLinesOne(v);
      assert IsSettingLine(SplitLines(v)[0]);
    }
  }
}
