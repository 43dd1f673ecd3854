/** `escape_sql` and `html_escape` (sanitizer.py:72-90). Both are chains of
    one-character `str.replace` calls; each chain is proved equal to a
    per-character map, which is then shown to be undone by the matching
    decoder. */
module Escape {
  import opened Str

  // ---------------------------------------------------------------- SQL

  /** `escape_sql`: double every single quote. */
  function EscapeSql(s: string): string
  {
    ReplaceChar(s, '\'', "''")
  }

  /** Reads a doubled quote back as one quote. */
  function UnescapeSql(t: string): string
  {
    if t == [] then []
    else if |t| >= 2 && t[0] == '\'' && t[1] == '\'' then "'" + UnescapeSql(t[2..])
    else [t[0]] + UnescapeSql(t[1..])
  }

  /** `escape_sql` adds one character per quote, leaves only doubled quotes,
      and collapsing them gives back the input. */
  lemma {:induction false} EscapeSqlRoundTrip(s: string)
    ensures UnescapeSql(EscapeSql(s)) == s
    ensures |EscapeSql(s)| == |s| + Count(s, '\'')
    ensures Count(EscapeSql(s), '\'') == 2 * Count(s, '\'')
  {
    if s != [] {
      EscapeSqlRoundTrip(s[1..]);
      var rest := EscapeSql(s[1..]);
      var head := if s[0] == '\'' then "''" else [s[0]];
      assert EscapeSql(s) == head + rest;
      assert (head + rest)[|head|..] == rest;
      assert UnescapeSql(head + rest) == [s[0]] + UnescapeSql(rest);
      assert s == [s[0]] + s[1..];
      CountConcat(head, rest, '\'');
    }
  }

  // ---------------------------------------------------------------- HTML

  /** The entity `html_escape` gives each character: the five special ones
      become entities, every other character stands for itself. */
  function HtmlEntity(c: char): string
  {
    if c == '&' then "&amp;"
    else if c == '<' then "&lt;"
    else if c == '>' then "&gt;"
    else if c == '"' then "&quot;"
    else if c == '\'' then "&#x27;"
    else [c]
  }

  /** One of the five characters `html_escape` replaces. */
  predicate IsHtmlSpecial(c: char) {
    c == '&' || c == '<' || c == '>' || c == '"' || c == '\''
  }

  /** The per-character map the chain of replacements amounts to. */
  function HtmlEntities(s: string): string
  {
    if s == [] then [] else HtmlEntity(s[0]) + HtmlEntities(s[1..])
  }

  /** `html_escape`'s chain of replacements, in the source's order, '&' first. */
  const HtmlSteps: seq<(char, string)> :=
    [('&', "&amp;"), ('<', "&lt;"), ('>', "&gt;"), ('"', "&quot;"), ('\'', "&#x27;")]

  /** `html_escape`. */
  function HtmlEscape(s: string): string
  {
    ReplaceAll(s, HtmlSteps)
  }

  /** The entities introduced by the earlier replacements contain none of the
      characters the later ones look for, which is why '&' has to come first;
      and the chain sends each character to its entity. */
  lemma {:induction false} HtmlStepsAreEntities()
    ensures Unclobbered(HtmlSteps)
    ensures forall c :: Lookup(c, HtmlSteps) == HtmlEntity(c)
  {
    forall c ensures Lookup(c, HtmlSteps) == HtmlEntity(c) {
      assert HtmlSteps[1..][1..][1..][1..][1..] == [];
    }
  }

  /** The chain of `str.replace` calls equals the per-character map. */
  lemma {:induction false} HtmlEscapeIsMap(s: string)
    ensures HtmlEscape(s) == HtmlEntities(s)
  {
    HtmlStepsAreEntities();
    ReplaceAllIsMap(s, HtmlSteps);
    EntitiesAreMapChars(s);
  }

  lemma {:induction false} EntitiesAreMapChars(s: string)
    requires forall c :: Lookup(c, HtmlSteps) == HtmlEntity(c)
    ensures MapChars(s, HtmlSteps) == HtmlEntities(s)
  {
    if s != [] {
      EntitiesAreMapChars(s[1..]);
    }
  }

  /** No '<', '>', '"' or '\'' survives the escaping. */
  lemma {:induction false} HtmlEscapeSafe(s: string)
    ensures forall i :: 0 <= i < |HtmlEscape(s)| ==> HtmlEscape(s)[i] !in "<>\"'"
  {
    HtmlEscapeIsMap(s);
    EntitiesAreSafe(s);
    forall i | 0 <= i < |HtmlEscape(s)| ensures HtmlEscape(s)[i] !in "<>\"'" {
      assert !IsMarkup(HtmlEscape(s)[i]);
    }
  }

  /** The characters that could open a tag or close an attribute value. */
  predicate IsMarkup(c: char) {
    c == '<' || c == '>' || c == '"' || c == '\''
  }

  lemma {:induction false} EntitiesAreSafe(s: string)
    ensures forall i :: 0 <= i < |HtmlEntities(s)| ==> !IsMarkup(HtmlEntities(s)[i])
  {
    if s != [] {
      EntitiesAreSafe(s[1..]);
      var e := HtmlEntity(s[0]);
      var r := HtmlEntities(s);
      assert r == e + HtmlEntities(s[1..]);
      forall i | 0 <= i < |r| ensures !IsMarkup(r[i]) {
        if i >= |e| {
          assert r[i] == HtmlEntities(s[1..])[i - |e|];
        }
      }
    }
  }

  /** `t` begins with `p`. */
  predicate Starts(t: string, p: string) {
    |p| <= |t| && forall i :: 0 <= i < |p| ==> t[i] == p[i]
  }

  /** The character the head of `t` stands for, and how many characters of
      `t` it takes: one of the five entities, or else a plain character. */
  function DecodeHead(t: string): (r: (char, nat))
    requires t != []
    ensures 1 <= r.1 <= |t|
  {
    if Starts(t, "&amp;") then ('&', 5)
    else if Starts(t, "&lt;") then ('<', 4)
    else if Starts(t, "&gt;") then ('>', 4)
    else if Starts(t, "&quot;") then ('"', 6)
    else if Starts(t, "&#x27;") then ('\'', 6)
    else (t[0], 1)
  }

  /** Reads the five entities back as their characters. */
  function UnescapeHtml(t: string): string
  {
    if t == [] then []
    else
      var (c, n) := DecodeHead(t);
      [c] + UnescapeHtml(t[n..])
  }

  /** The head of an entity followed by anything decodes to the entity's
      character and takes exactly the entity. */
  lemma {:induction false} DecodeEntity(c: char, rest: string)
    ensures DecodeHead(HtmlEntity(c) + rest) == (c, |HtmlEntity(c)|)
  {
    var e := HtmlEntity(c);
    var t := e + rest;
    assert forall i :: 0 <= i < |e| ==> t[i] == e[i];
    if c == '&' {
    } else if c == '<' {
      assert t[1] == 'l';
    } else if c == '>' {
      assert t[1] == 'g';
    } else if c == '"' {
      assert t[1] == 'q';
    } else if c == '\'' {
      assert t[1] == '#';
    } else {
      assert t[0] == c;
    }
  }

  /** The decoder reads one entity (or plain character) back. */
  lemma {:induction false} UnescapeEntity(c: char, rest: string)
    ensures UnescapeHtml(HtmlEntity(c) + rest) == [c] + UnescapeHtml(rest)
  {
    var e := HtmlEntity(c);
    var t := e + rest;
    DecodeEntity(c, rest);
    assert t[|e|..] == rest;
  }

  /** Decoding the entities recovers the input. */
  lemma {:induction false} HtmlEscapeRoundTrip(s: string)
    ensures UnescapeHtml(HtmlEscape(s)) == s
  {
    if s != [] {
      HtmlEscapeRoundTrip(s[1..]);
      UnescapeEntity(s[0], HtmlEntities(s[1..]));
      HtmlEscapeIsMap(s);
      HtmlEscapeIsMap(s[1..]);
    }
  }

  /** Doubling the quotes before HTML escaping shows in the result exactly
      when the text holds a single quote. */
  lemma {:induction false} SqlEscapeShows(s: string)
    ensures '\'' in s <==> HtmlEscape(EscapeSql(s)) != HtmlEscape(s)
  {
    if '\'' in s {
      EscapeSqlRoundTrip(s);
      HtmlEscapeRoundTrip(s);
      HtmlEscapeRoundTrip(EscapeSql(s));
    } else {
      ReplaceCharAbsent(s, '\'', "''");
    }
  }

  /** Escaping a string that contains a special character makes it longer. */
  lemma {:induction false} HtmlEscapeGrows(s: string)
    ensures |HtmlEscape(s)| >= |s|
    ensures (exists i :: 0 <= i < |s| && IsHtmlSpecial(s[i])) ==> |HtmlEscape(s)| > |s|
  {
    if s != [] {
      HtmlEscapeGrows(s[1..]);
      HtmlEscapeIsMap(s);
      HtmlEscapeIsMap(s[1..]);
      if exists i :: 0 <= i < |s| && IsHtmlSpecial(s[i]) {
        var i :| 0 <= i < |s| && IsHtmlSpecial(s[i]);
        if i > 0 {
          assert s[1..][i - 1] == s[i];
        }
      }
    }
  }

  /** Escaping is not idempotent: a second pass changes any string that holds
      one of the five special characters, since the first pass leaves an '&'. */
  lemma {:induction false} HtmlEscapeNotIdempotent(s: string)
    requires exists i :: 0 <= i < |s| && IsHtmlSpecial(s[i])
    ensures HtmlEscape(HtmlEscape(s)) != HtmlEscape(s)
  {
    var i :| 0 <= i < |s| && IsHtmlSpecial(s[i]);
    var t := HtmlEscape(s);
    HtmlEscapeIsMap(s);
    EntityLeavesAmp(s, i);
    assert IsHtmlSpecial(t[|HtmlEntities(s[..i])|]);
    HtmlEscapeGrows(t);
  }

  /** The entity of a special character at `i` starts with an '&'. */
  lemma {:induction false} EntityLeavesAmp(s: string, i: nat)
    requires i < |s| && IsHtmlSpecial(s[i])
    ensures |HtmlEntities(s[..i])| < |HtmlEntities(s)|
    ensures HtmlEntities(s)[|HtmlEntities(s[..i])|] == '&'
  {
    assert s == s[..i] + ([s[i]] + s[i + 1..]);
    EntitiesConcat(s[..i], [s[i]] + s[i + 1..]);
    assert ([s[i]] + s[i + 1..])[1..] == s[i + 1..];
    assert HtmlEntities([s[i]] + s[i + 1..]) == HtmlEntity(s[i]) + HtmlEntities(s[i + 1..]);
  }

  lemma {:induction false} EntitiesConcat(a: string, b: string)
    ensures HtmlEntities(a + b) == HtmlEntities(a) + HtmlEntities(b)
  {
    if a == [] {
      assert a + b == b;
    } else {
      assert (a + b)[1..] == a[1..] + b;
      EntitiesConcat(a[1..], b);
    }
  }
}
