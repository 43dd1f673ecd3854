/** The string-literal escapers and their name table (sanitizer.py:126-170).
    The JavaScript, Java and C-family escapers are chains of one-character
    replacements inside double quotes; the bash escaper wraps the text in
    single quotes. The double-quoted ones are shown to be read back by a
    simplified C-like literal reader that knows only the escapes they emit;
    the bash one by a POSIX shell's quoting rules. */
module Literals {
  import opened Str
  import opened Options

  // ---------------------------------------------------------------- double-quoted

  /** `_js_literal`'s chain: backslash first, then the double quote. */
  const JsSteps: seq<(char, string)> := [('\\', "\\\\"), ('"', "\\\"")]

  /** `_java_literal`'s chain: as JavaScript, then newline and carriage return. */
  const JavaSteps: seq<(char, string)> := [('\\', "\\\\"), ('"', "\\\""), ('\n', "\\n"), ('\r', "\\r")]

  /** `_c_literal`'s chain: as JavaScript, then newline only. */
  const CSteps: seq<(char, string)> := [('\\', "\\\\"), ('"', "\\\""), ('\n', "\\n")]

  function Quoted(s: string, steps: seq<(char, string)>): (r: string)
    ensures |r| >= 2 && r[0] == '"' && r[|r| - 1] == '"'
  {
    "\"" + ReplaceAll(s, steps) + "\""
  }

  /** `_js_literal`. */
  function JsLiteral(s: string): string
  {
    Quoted(s, JsSteps)
  }

  /** `_java_literal`. */
  function JavaLiteral(s: string): string
  {
    Quoted(s, JavaSteps)
  }

  /** `_c_literal`, shared by Go, C, C#, PHP, Ruby, Rust and Swift. */
  function CLiteral(s: string): string
  {
    Quoted(s, CSteps)
  }

  /** The character a backslash escape stands for: `\n` and `\r` are line
      breaks, and any other escaped character stands for itself (`\\`, `\"`). */
  function Unescaped(d: char): char
  {
    if d == 'n' then '\n' else if d == 'r' then '\r' else d
  }

  /** How a C-like language scans a double-quoted literal once its opening
      quote is consumed, for the escapes above: a backslash and the next
      character make one character, an unescaped '"' closes the literal, and
      every other character stands for itself. The result is the text read
      and whatever follows the closing quote, or None when the literal is
      never closed (including a backslash at the very end). */
  function ReadBody(t: string): Option<(string, string)>
  {
    if t == [] then None
    else if t[0] == '"' then Some(([], t[1..]))
    else if t[0] == '\\' then
      if |t| < 2 then None
      else match ReadBody(t[2..])
        case None => None
        case Some((x, rest)) => Some(([Unescaped(t[1])] + x, rest))
    else match ReadBody(t[1..])
      case None => None
      case Some((x, rest)) => Some(([t[0]] + x, rest))
  }

  /** How a reader gets the text back from a whole double-quoted literal: an
      opening '"', a body closed by the first unescaped '"', and nothing
      after that quote. */
  function ReadQuoted(lit: string): Option<string>
  {
    if lit == [] || lit[0] != '"' then None
    else match ReadBody(lit[1..])
      case None => None
      case Some((x, rest)) => if rest == [] then Some(x) else None
  }

  /** Every character becomes either itself (when it is neither a backslash
      nor a double quote) or a backslash followed by a character the reader
      maps back to it. */
  ghost predicate Readable(steps: seq<(char, string)>) {
    forall c: char :: ReadsBack(c, Lookup(c, steps))
  }

  predicate ReadsBack(c: char, e: string) {
    (e == [c] && c != '\\' && c != '"') || (|e| == 2 && e[0] == '\\' && Unescaped(e[1]) == c)
  }

  /** A bare double quote inside the body ends the literal early, so the
      reader refuses it. */
  lemma BareQuoteRejected()
    ensures ReadQuoted("\"a\"b\"") == None
  {
    var lit := "\"a\"b\"";
    assert lit[1..][1..] == "\"b\"";
    assert ReadBody(lit[1..][1..]) == Some(([], "b\""));
    assert lit[1..][0] == 'a' && ['a'] + [] == "a";
    assert ReadBody(lit[1..]) == Some(("a", "b\""));
  }

  /** Any readable chain escapes the double quote. */
  lemma QuoteMustBeEscaped(steps: seq<(char, string)>)
    requires Readable(steps)
    ensures Lookup('"', steps) == "\\\""
  {
    var e := Lookup('"', steps);
    assert ReadsBack('"', e);
    assert e[1] == '"';
    assert e == [e[0], e[1]];
  }

  lemma {:induction false} JsStepsReadable()
    ensures Unclobbered(JsSteps) && Readable(JsSteps)
  {
    forall c: char ensures ReadsBack(c, Lookup(c, JsSteps)) {
      assert JsSteps[1..][1..] == [];
    }
  }

  lemma {:induction false} JavaStepsReadable()
    ensures Unclobbered(JavaSteps) && Readable(JavaSteps)
  {
    forall c: char ensures ReadsBack(c, Lookup(c, JavaSteps)) {
      assert JavaSteps[1..][1..][1..][1..] == [];
    }
  }

  lemma {:induction false} CStepsReadable()
    ensures Unclobbered(CSteps) && Readable(CSteps)
  {
    forall c: char ensures ReadsBack(c, Lookup(c, CSteps)) {
      assert CSteps[1..][1..][1..] == [];
    }
  }

  /** The reader undoes any readable per-character map, stopping exactly at
      the quote that follows it. */
  lemma {:induction false} ReadBodyMap(s: string, steps: seq<(char, string)>, tail: string)
    requires Readable(steps)
    ensures ReadBody(MapChars(s, steps) + "\"" + tail) == Some((s, tail))
  {
    var t := MapChars(s, steps) + "\"" + tail;
    if s == [] {
      assert t == "\"" + tail;
      assert t[1..] == tail;
    } else {
      ReadBodyMap(s[1..], steps, tail);
      var e := Lookup(s[0], steps);
      var rest := MapChars(s[1..], steps) + "\"" + tail;
      assert t == e + rest;
      assert [s[0]] + s[1..] == s;
      if e == [s[0]] && s[0] != '\\' && s[0] != '"' {
        assert t[0] == s[0] && t[1..] == rest;
      } else {
        assert t[0] == '\\' && Unescaped(t[1]) == s[0] && t[2..] == rest;
      }
    }
  }

  /** A literal built from a readable chain reads back as the text, its
      first unescaped quote being the closing one. */
  lemma {:induction false} QuotedReadBack(s: string, steps: seq<(char, string)>)
    requires Unclobbered(steps) && Readable(steps)
    ensures ReadQuoted(Quoted(s, steps)) == Some(s)
  {
    ReplaceAllIsMap(s, steps);
    ReadBodyMap(s, steps, []);
    var lit := Quoted(s, steps);
    assert lit[1..] == MapChars(s, steps) + "\"" + [];
  }

  /** A JavaScript literal starts and ends with '"' and reads back as the text. */
  lemma {:induction false} JsLiteralReadBack(s: string)
    ensures var lit := JsLiteral(s); lit[0] == '"' && lit[|lit| - 1] == '"'
    ensures ReadQuoted(JsLiteral(s)) == Some(s)
  {
    JsStepsReadable();
    QuotedReadBack(s, JsSteps);
  }

  /** A Java literal starts and ends with '"' and reads back as the text. */
  lemma {:induction false} JavaLiteralReadBack(s: string)
    ensures var lit := JavaLiteral(s); lit[0] == '"' && lit[|lit| - 1] == '"'
    ensures ReadQuoted(JavaLiteral(s)) == Some(s)
  {
    JavaStepsReadable();
    QuotedReadBack(s, JavaSteps);
  }

  /** A C-family literal starts and ends with '"' and reads back as the text. */
  lemma {:induction false} CLiteralReadBack(s: string)
    ensures var lit := CLiteral(s); lit[0] == '"' && lit[|lit| - 1] == '"'
    ensures ReadQuoted(CLiteral(s)) == Some(s)
  {
    CStepsReadable();
    QuotedReadBack(s, CSteps);
  }

  /** A character that no step replaces and no replacement text contains
      occurs in the output exactly where it occurs in the input. */
  lemma {:induction false} MapCharsKeeps(s: string, steps: seq<(char, string)>, c: char)
    requires forall j :: 0 <= j < |steps| ==> steps[j].0 != c && c !in steps[j].1
    ensures c in MapChars(s, steps) <==> c in s
  {
    if s != [] {
      MapCharsKeeps(s[1..], steps, c);
      LookupKeeps(s[0], steps, c);
      assert s == [s[0]] + s[1..];
    }
  }

  lemma {:induction false} LookupKeeps(d: char, steps: seq<(char, string)>, c: char)
    requires forall j :: 0 <= j < |steps| ==> steps[j].0 != c && c !in steps[j].1
    ensures c in Lookup(d, steps) <==> c == d
    decreases |steps|
  {
    if steps != [] && steps[0].0 != d {
      LookupKeeps(d, steps[1..], c);
    }
  }

  /** A character that some step replaces is gone from the output, provided
      no replacement text contains it. */
  lemma {:induction false} MapCharsRemoves(s: string, steps: seq<(char, string)>, c: char)
    requires exists j :: 0 <= j < |steps| && steps[j].0 == c
    requires forall j :: 0 <= j < |steps| ==> c !in steps[j].1
    ensures c !in MapChars(s, steps)
  {
    if s != [] {
      MapCharsRemoves(s[1..], steps, c);
      LookupRemoves(s[0], steps, c);
    }
  }

  lemma {:induction false} LookupRemoves(d: char, steps: seq<(char, string)>, c: char)
    requires d == c ==> exists j :: 0 <= j < |steps| && steps[j].0 == c
    requires forall j :: 0 <= j < |steps| ==> c !in steps[j].1
    ensures c !in Lookup(d, steps)
    decreases |steps|
  {
    if steps != [] && steps[0].0 != d {
      if d == c {
        var j :| 0 <= j < |steps| && steps[j].0 == c;
        assert steps[1..][j - 1] == steps[j];
      }
      LookupRemoves(d, steps[1..], c);
    }
  }

  /** `_js_literal` leaves line breaks raw: a newline in the text is a
      newline inside the literal, which a JavaScript string literal does not
      allow. */
  lemma {:induction false} JsLiteralKeepsNewline(s: string)
    ensures '\n' in JsLiteral(s) <==> '\n' in s
    ensures '\r' in JsLiteral(s) <==> '\r' in s
  {
    JsStepsReadable();
    ReplaceAllIsMap(s, JsSteps);
    MapCharsKeeps(s, JsSteps, '\n');
    MapCharsKeeps(s, JsSteps, '\r');
  }

  /** A Java literal holds no raw line break. */
  lemma {:induction false} JavaLiteralOneLine(s: string)
    ensures '\n' !in JavaLiteral(s) && '\r' !in JavaLiteral(s)
  {
    JavaStepsReadable();
    ReplaceAllIsMap(s, JavaSteps);
    assert JavaSteps[2].0 == '\n' && JavaSteps[3].0 == '\r';
    MapCharsRemoves(s, JavaSteps, '\n');
    MapCharsRemoves(s, JavaSteps, '\r');
  }

  /** A C-family literal holds no raw newline, but a carriage return passes
      through raw. */
  lemma {:induction false} CLiteralNewlines(s: string)
    ensures '\n' !in CLiteral(s)
    ensures '\r' in CLiteral(s) <==> '\r' in s
  {
    CStepsReadable();
    ReplaceAllIsMap(s, CSteps);
    assert CSteps[2].0 == '\n';
    MapCharsRemoves(s, CSteps, '\n');
    MapCharsKeeps(s, CSteps, '\r');
  }

  // ---------------------------------------------------------------- bash

  /** `_bash_literal`: single quotes around the text; when the text holds a
      single quote, each one is closed, escaped and reopened as `'\''`. */
  function BashLiteral(s: string): string
  {
    if '\'' !in s then "'" + s + "'"
    else "'" + ReplaceChar(s, '\'', "'\\''") + "'"
  }

  /** The two branches of `_bash_literal` agree: the quote-free branch is the
      replacing branch with nothing to replace. */
  lemma {:induction false} BashLiteralUniform(s: string)
    ensures BashLiteral(s) == "'" + ReplaceChar(s, '\'', "'\\''") + "'"
  {
    if '\'' !in s {
      ReplaceCharAbsent(s, '\'', "'\\''");
    }
  }

  /** How a POSIX shell reads one word made of single-quoted runs and
      backslash escapes: inside quotes every character up to the next quote is
      literal; outside, a quote opens a run and a backslash escapes the next
      character. A word that ends inside an open quote is refused (None). */
  function ShellRead(t: string, quoted: bool): Option<string>
  {
    if t == [] then (if quoted then None else Some([]))
    else if quoted then
      (if t[0] == '\'' then ShellRead(t[1..], false) else Prepend(t[0], ShellRead(t[1..], true)))
    else if t[0] == '\'' then ShellRead(t[1..], true)
    else if t[0] == '\\' && |t| >= 2 then Prepend(t[1], ShellRead(t[2..], false))
    else Prepend(t[0], ShellRead(t[1..], false))
  }

  function Prepend(c: char, r: Option<string>): Option<string>
  {
    match r
    case None => None
    case Some(x) => Some([c] + x)
  }

  /** A single quote that is never closed makes the word unreadable. */
  lemma UnclosedQuoteRejected()
    ensures ShellRead("'abc", false) == None
  {
    var t := "'abc";
    assert t[1..][1..][1..][1..] == [];
  }

  /** Inside an open quote, the escaped text followed by the closing quote
      reads back as the text. */
  lemma {:induction false} ShellReadBody(s: string)
    ensures ShellRead(ReplaceChar(s, '\'', "'\\''") + "'", true) == Some(s)
  {
    if s == [] {
      assert ShellRead("'"[1..], false) == Some([]);
    } else {
      var rest := ReplaceChar(s[1..], '\'', "'\\''") + "'";
      ShellReadBody(s[1..]);
      assert [s[0]] + s[1..] == s;
      if s[0] == '\'' {
        var t := "'\\''" + rest;
        assert ReplaceChar(s, '\'', "'\\''") + "'" == t;
        assert t[1..][2..][1..] == rest;
        assert ShellRead(t, true) == ShellRead(t[1..], false);
        assert ShellRead(t[1..], false) == Prepend('\'', ShellRead(t[1..][2..], false));
        assert ShellRead(t[1..][2..], false) == ShellRead(rest, true);
      } else {
        var t := [s[0]] + rest;
        assert ReplaceChar(s, '\'', "'\\''") + "'" == t;
        assert t[1..] == rest;
      }
    }
  }

  /** A bash literal is read by the shell as exactly the text. */
  lemma {:induction false} BashLiteralReadBack(s: string)
    ensures ShellRead(BashLiteral(s), false) == Some(s)
  {
    BashLiteralUniform(s);
    var t := ReplaceChar(s, '\'', "'\\''") + "'";
    assert BashLiteral(s) == "'" + t;
    assert ("'" + t)[1..] == t;
    ShellReadBody(s);
  }

  // ---------------------------------------------------------------- table

  /** The five escapers of the table; `PythonRepr` is `_python_literal`. */
  datatype Escaper = PythonRepr | JsEscaper | JavaEscaper | CEscaper | BashEscaper

  /** `_LANGUAGE_ESCAPERS`. */
  const LanguageEscapers: map<string, Escaper> := map[
    "python" := PythonRepr,
    "javascript" := JsEscaper,
    "js" := JsEscaper,
    "java" := JavaEscaper,
    "go" := CEscaper,
    "c" := CEscaper,
    "csharp" := CEscaper,
    "cs" := CEscaper,
    "php" := CEscaper,
    "ruby" := CEscaper,
    "rust" := CEscaper,
    "swift" := CEscaper,
    "bash" := BashEscaper
  ]

  /** Runs one escaper; `repr` is Python's `repr`, which is not part of this model. */
  function Apply(e: Escaper, s: string, repr: string -> string): string
  {
    match e
    case PythonRepr => repr(s)
    case JsEscaper => JsLiteral(s)
    case JavaEscaper => JavaLiteral(s)
    case CEscaper => CLiteral(s)
    case BashEscaper => BashLiteral(s)
  }

  /** `_LANGUAGE_ESCAPERS.get(language.lower())`. */
  function EscaperFor(language: string): (e: Option<Escaper>)
    ensures e.Some? <==> Lower(language) in LanguageEscapers
    ensures e.Some? ==> e.value == LanguageEscapers[Lower(language)]
  {
    var name := Lower(language);
    if name in LanguageEscapers then Some(LanguageEscapers[name]) else None
  }

  /** The names, in any case, that select each escaper: the table's keys
      grouped by the escaper they map to. */
  lemma EscaperNames(language: string)
    ensures EscaperFor(language) == Some(PythonRepr) <==> Lower(language) == "python"
    ensures EscaperFor(language) == Some(JsEscaper) <==> Lower(language) in {"javascript", "js"}
    ensures EscaperFor(language) == Some(JavaEscaper) <==> Lower(language) == "java"
    ensures EscaperFor(language) == Some(CEscaper)
      <==> Lower(language) in {"go", "c", "csharp", "cs", "php", "ruby", "rust", "swift"}
    ensures EscaperFor(language) == Some(BashEscaper) <==> Lower(language) == "bash"
  {
  }

  /** `language_escape`: the table's escaper for the lower-cased name, or
      `repr` when the name is not in the table. */
  function LanguageEscape(s: string, language: string, repr: string -> string): string
  {
    match EscaperFor(language)
    case Some(e) => Apply(e, s, repr)
    case None => repr(s)
  }

  /** Every key of the table is already lower case, so each key is reached
      by every spelling that lower-cases to it. */
  lemma {:induction false} TableKeysLowerCase()
    ensures forall name :: name in LanguageEscapers ==> Lower(name) == name
  {
    forall name | name in LanguageEscapers ensures Lower(name) == name {
      assert forall i :: 0 <= i < |name| ==> 'a' <= name[i] <= 'z';
    }
  }

  /** A name outside the table falls back to Python, exactly as the name
      "python" does. */
  lemma {:induction false} UnknownLanguageIsPython(s: string, language: string, repr: string -> string)
    requires Lower(language) !in LanguageEscapers
    ensures LanguageEscape(s, language, repr) == LanguageEscape(s, "python", repr) == repr(s)
  {
    TableKeysLowerCase();
    assert "python" in LanguageEscapers;
  }

  /** The lookup ignores case: names that lower-case alike escape alike. */
  lemma {:induction false} LanguageEscapeIgnoresCase(s: string, a: string, b: string, repr: string -> string)
    requires Lower(a) == Lower(b)
    ensures LanguageEscape(s, a, repr) == LanguageEscape(s, b, repr)
  {
  }

  /** Whatever the spelling, a name that lower-cases to a key gets that key's
      escaper; in particular "JS" and "JavaScript" give a JavaScript literal. */
  lemma {:induction false} LanguageEscapeByKey(s: string, language: string, repr: string -> string)
    requires Lower(language) in LanguageEscapers
    ensures LanguageEscape(s, language, repr) == Apply(LanguageEscapers[Lower(language)], s, repr)
  {
  }
}
