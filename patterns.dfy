/** The three shape recognisers of sanitizer.py:13-15, written out as
    scanners instead of regular expressions.

    Email  `(?P<local>[^@\s]+)@(?P<domain>[^\s@]+\.[^\s@]+)`
    Phone  `\+?\d[\d\-() ]{6,}\d`
    URL    `https?://[^\s]+`

    Each scanner is tied to a declarative reading of its pattern (which
    substrings the pattern can match), so that the greedy choices the regex
    engine makes are proved, not taken on trust. */
module Patterns {
  import opened Str
  import opened Options

  // ---------------------------------------------------------------- email

  /** A character of the class `[^@\s]` used by both halves of the email pattern. */
  predicate IsEmailChar(c: char) {
    c != '@' && !IsSpace(c)
  }

  /** End of the run of email characters that starts at `i`. */
  function RunEnd(v: string, i: nat): (e: nat)
    requires i <= |v|
    ensures i <= e <= |v|
    ensures forall k :: i <= k < e ==> IsEmailChar(v[k])
    ensures e == |v| || !IsEmailChar(v[e])
    decreases |v| - i
  {
    if i == |v| || !IsEmailChar(v[i]) then i else RunEnd(v, i + 1)
  }

  /** A run of email characters that stops at `e` ends at `e`. */
  lemma {:induction false} RunEndAt(v: string, i: nat, e: nat)
    requires i <= e <= |v|
    requires forall k :: i <= k < e ==> IsEmailChar(v[k])
    requires e == |v| || !IsEmailChar(v[e])
    ensures RunEnd(v, i) == e
  {
  }

  /** `d` has a '.' with at least one character on each side: `X\.Y` with X, Y non-empty. */
  predicate HasInnerDot(d: string) {
    exists k :: 1 <= k < |d| - 1 && d[k] == '.'
  }

  /** The email pattern can match `v[p..e]` with its '@' at index `a`. */
  ghost predicate EmailRegexAt(v: string, p: nat, a: nat, e: nat) {
    p < a < e <= |v| && v[a] == '@'
    && (forall k :: p <= k < a ==> IsEmailChar(v[k]))
    && (forall k :: a < k < e ==> IsEmailChar(v[k]))
    && HasInnerDot(v[a + 1..e])
  }

  /** Positions of one email match: local part `v[start..at]`, '@' at `at`,
      domain `v[at + 1..end]`. */
  datatype EmailMatch = EmailMatch(start: nat, at: nat, end: nat)

  /** The match the regex engine reports when it tries position `p`: the
      local part runs greedily to the first non-email character, which must
      be '@', and the domain greedily to the end of the run after it. */
  function MatchAt(v: string, p: nat): (m: Option<EmailMatch>)
    requires p <= |v|
    ensures m.Some? ==> m.value.start == p < m.value.at < m.value.end <= |v|
  {
    var a := RunEnd(v, p);
    if a == p || a == |v| || v[a] != '@' then
      None
    else
      var e := RunEnd(v, a + 1);
      if HasInnerDot(v[a + 1..e]) then
        Some(EmailMatch(p, a, e))
      else
        None
  }

  /** The greedy match exists exactly when the pattern can match at `p` at
      all, and it is the longest such match. */
  lemma {:induction false} MatchAtMeaning(v: string, p: nat)
    requires p <= |v|
    ensures var m := MatchAt(v, p);
      && (m.Some? ==> EmailRegexAt(v, p, m.value.at, m.value.end))
      && (m.Some? ==> forall a: nat, e: nat :: EmailRegexAt(v, p, a, e) ==> a == m.value.at && e <= m.value.end)
      && (m.None? ==> forall a: nat, e: nat :: !EmailRegexAt(v, p, a, e))
  {
    GreedyAll(v, p);
  }

  /** `Greedy` for every match at `p`. */
  lemma {:induction false} GreedyAll(v: string, p: nat)
    ensures forall a: nat, e: nat :: EmailRegexAt(v, p, a, e) ==>
      a == RunEnd(v, p) && e <= RunEnd(v, a + 1) && HasInnerDot(v[a + 1..RunEnd(v, a + 1)])
  {
    forall a: nat, e: nat | EmailRegexAt(v, p, a, e)
      ensures a == RunEnd(v, p) && e <= RunEnd(v, a + 1) && HasInnerDot(v[a + 1..RunEnd(v, a + 1)])
    {
      Greedy(v, p, a, e);
    }
  }

  /** Whatever match the pattern finds at `p`, its '@' is the end of the
      first run and its domain lies within the second run, whose whole
      length therefore matches too. */
  lemma {:induction false} Greedy(v: string, p: nat, a: nat, e: nat)
    requires EmailRegexAt(v, p, a, e)
    ensures a == RunEnd(v, p)
    ensures e <= RunEnd(v, a + 1)
    ensures HasInnerDot(v[a + 1..RunEnd(v, a + 1)])
  {
    var d := v[a + 1..e];
    var k :| 1 <= k < |d| - 1 && d[k] == '.';
    var full := v[a + 1..RunEnd(v, a + 1)];
    assert full[k] == d[k];
  }

  /** Leftmost match at or after `p`: `re.search` from position `p`. */
  function SearchFrom(v: string, p: nat): (m: Option<EmailMatch>)
    requires p <= |v|
    ensures m.Some? ==> p <= m.value.start <= |v| && MatchAt(v, m.value.start) == m
    decreases |v| - p
  {
    if MatchAt(v, p).Some? then MatchAt(v, p)
    else if p == |v| then None
    else SearchFrom(v, p + 1)
  }

  /** No position before the one found, and no position at all when nothing
      is found, has a match. */
  lemma {:induction false} SearchFromLeftmost(v: string, p: nat)
    requires p <= |v|
    ensures var m := SearchFrom(v, p);
      && (m.Some? ==> forall q :: p <= q < m.value.start ==> MatchAt(v, q).None?)
      && (m.None? ==> forall q :: p <= q <= |v| ==> MatchAt(v, q).None?)
    decreases |v| - p
  {
    if MatchAt(v, p).None? && p < |v| {
      SearchFromLeftmost(v, p + 1);
    }
  }

  /** `_EMAIL_RE.search(v)`: the leftmost email-shaped substring, if any. */
  function FindEmail(v: string): (m: Option<EmailMatch>)
    ensures m.Some? ==> m.value.start < m.value.at < m.value.end <= |v|
    ensures m.Some? ==> MatchAt(v, m.value.start) == m
  {
    SearchFrom(v, 0)
  }

  /** The match found is the leftmost one the pattern admits, and there is
      none exactly when the pattern matches nowhere. */
  lemma {:induction false} FindEmailMeaning(v: string)
    ensures var m := FindEmail(v);
      && (m.Some? ==> EmailRegexAt(v, m.value.start, m.value.at, m.value.end))
      && (m.Some? ==> forall p: nat, a: nat, e: nat :: p < m.value.start ==> !EmailRegexAt(v, p, a, e))
      && (m.None? ==> forall p: nat, a: nat, e: nat :: !EmailRegexAt(v, p, a, e))
  {
    var m := FindEmail(v);
    SearchFromLeftmost(v, 0);
    if m.Some? {
      MatchAtMeaning(v, m.value.start);
    }
    forall p: nat, a: nat, e: nat | m.None? || p < m.value.start
      ensures !EmailRegexAt(v, p, a, e)
    {
      if p <= |v| {
        assert MatchAt(v, p).None?;
        MatchAtMeaning(v, p);
      }
    }
  }

  /** `_EMAIL_RE.fullmatch(v)`. */
  predicate IsEmailFull(v: string) {
    var m := MatchAt(v, 0);
    m.Some? && m.value.end == |v|
  }

  /** The full-match test holds exactly when the pattern can match all of `v`. */
  lemma {:induction false} IsEmailFullMeaning(v: string)
    ensures IsEmailFull(v) <==> exists a: nat :: EmailRegexAt(v, 0, a, |v|)
  {
    var m := MatchAt(v, 0);
    MatchAtMeaning(v, 0);
    if exists a: nat :: EmailRegexAt(v, 0, a, |v|) {
      var a: nat :| EmailRegexAt(v, 0, a, |v|);
      assert m.Some?;
    }
    if IsEmailFull(v) {
      assert EmailRegexAt(v, 0, m.value.at, |v|);
    }
  }

  // ---------------------------------------------------------------- phone

  /** A character of the class `[\d\-() ]`. */
  predicate IsPhoneChar(c: char) {
    IsDigit(c) || c == '-' || c == '(' || c == ')' || c == ' '
  }

  /** `\d[\d\-() ]{6,}\d` matches all of `w`. */
  predicate PhoneBody(w: string) {
    |w| >= 8 && IsDigit(w[0]) && IsDigit(w[|w| - 1])
    && forall k :: 1 <= k < |w| - 1 ==> IsPhoneChar(w[k])
  }

  /** The whole pattern with its optional '+', read with both choices open. */
  ghost predicate PhoneRegexFull(v: string) {
    PhoneBody(v) || (v != [] && v[0] == '+' && PhoneBody(v[1..]))
  }

  /** `_PHONE_RE.fullmatch(v)`: a leading '+' is consumed when present. */
  predicate IsPhoneFull(v: string) {
    PhoneBody(if v != [] && v[0] == '+' then v[1..] else v)
  }

  /** Consuming a present '+' loses no match: '+' is not a digit. */
  lemma {:induction false} IsPhoneFullMeaning(v: string)
    ensures IsPhoneFull(v) <==> PhoneRegexFull(v)
  {
    if v != [] && v[0] == '+' {
      assert !PhoneBody(v);
    }
  }

  // ---------------------------------------------------------------- url

  /** `https?://` occurs at position `p` of `v`. */
  ghost predicate SchemeAt(v: string, p: nat, scheme: string) {
    p + |scheme| <= |v| && v[p..p + |scheme|] == scheme
  }

  /** "http://" (or "https://" when `secure`) starts at `p`, character by character. */
  predicate HasScheme(v: string, p: nat, secure: bool) {
    var n := if secure then 8 else 7;
    p + n <= |v|
    && v[p] == 'h' && v[p + 1] == 't' && v[p + 2] == 't' && v[p + 3] == 'p'
    && (secure ==> v[p + 4] == 's')
    && v[p + n - 3] == ':' && v[p + n - 2] == '/' && v[p + n - 1] == '/'
  }

  /** Length of the scheme `https?://` at position `p` of `v`, or 0 when
      there is none (`SchemeLengthMeaning`). */
  function SchemeLength(v: string, p: nat): (n: nat)
    requires p <= |v|
    ensures n == 0 || n == 7 || n == 8
    ensures p + n <= |v|
  {
    if HasScheme(v, p, true) then 8
    else if HasScheme(v, p, false) then 7
    else 0
  }

  /** The length names the one scheme present, or 0 when neither is. */
  lemma {:induction false} SchemeLengthMeaning(v: string, p: nat)
    requires p <= |v|
    ensures SchemeLength(v, p) == 8 <==> SchemeAt(v, p, "https://")
    ensures SchemeLength(v, p) == 7 <==> SchemeAt(v, p, "http://")
    ensures SchemeLength(v, p) == 0 <==> !SchemeAt(v, p, "https://") && !SchemeAt(v, p, "http://")
  {
    SchemeAtChars(v, p, "https://");
    SchemeAtChars(v, p, "http://");
  }

  /** A scheme is present when its characters are, one by one. */
  lemma {:induction false} SchemeAtChars(v: string, p: nat, scheme: string)
    requires scheme == "https://" || scheme == "http://"
    ensures SchemeAt(v, p, scheme) <==> HasScheme(v, p, |scheme| == 8)
  {
    if p + |scheme| <= |v| {
      var w := v[p..p + |scheme|];
      assert forall i :: 0 <= i < |scheme| ==> w[i] == v[p + i];
      if HasScheme(v, p, |scheme| == 8) {
        assert forall i :: 0 <= i < |scheme| ==> w[i] == scheme[i];
      }
    }
  }

  /** `_URL_RE.fullmatch(v)`: a scheme and then one or more non-whitespace characters. */
  predicate IsUrlFull(v: string) {
    var n := SchemeLength(v, 0);
    n > 0 && |v| > n && forall k :: n <= k < |v| ==> !IsSpace(v[k])
  }

  /** The URL pattern read with both choices of the optional 's' open. */
  ghost predicate UrlRegexFull(v: string) {
    (SchemeAt(v, 0, "http://") && |v| > 7 && forall k :: 7 <= k < |v| ==> !IsSpace(v[k]))
    || (SchemeAt(v, 0, "https://") && |v| > 8 && forall k :: 8 <= k < |v| ==> !IsSpace(v[k]))
  }

  lemma {:induction false} IsUrlFullMeaning(v: string)
    ensures IsUrlFull(v) <==> UrlRegexFull(v)
  {
    SchemeLengthMeaning(v, 0);
  }
}
