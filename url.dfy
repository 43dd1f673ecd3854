/** `strip_url_query` (sanitizer.py:65-69): `re.sub(r"(https?://[^\s?]+)\?.*", r"\1", value)`.
    Neither `[^\s?]` nor `.` crosses a '\n', so the substitution acts on
    each line by itself: the leftmost URL on the line whose run of
    non-space, non-'?' characters ends at a '?' is cut at that '?', and
    the rest of the line goes with it. */
module UrlStripping {
  import opened Str
  import opened Options
  import opened Patterns

  /** A character of the class `[^\s?]`. */
  predicate IsPathChar(c: char) {
    c != '?' && !IsSpace(c)
  }

  /** End of the run of `[^\s?]` characters that starts at `i`. */
  function PathEnd(line: string, i: nat): (e: nat)
    requires i <= |line|
    ensures i <= e <= |line|
    ensures forall k :: i <= k < e ==> IsPathChar(line[k])
    ensures e == |line| || !IsPathChar(line[e])
    decreases |line| - i
  {
    if i == |line| || !IsPathChar(line[i]) then i else PathEnd(line, i + 1)
  }

  /** The pattern can match at `p` with the scheme `scheme` and its '?' at `q`. */
  ghost predicate QueryRegexAt(line: string, p: nat, scheme: string, q: nat) {
    (scheme == "http://" || scheme == "https://")
    && SchemeAt(line, p, scheme)
    && p + |scheme| < q < |line| && line[q] == '?'
    && forall k :: p + |scheme| <= k < q ==> IsPathChar(line[k])
  }

  /** Where the regex engine finds its '?' when it tries position `p`, if it
      matches there at all (`QueryAtMeaning`). */
  function QueryAt(line: string, p: nat): (q: Option<nat>)
    requires p <= |line|
    ensures q.Some? ==> p < q.value < |line| && line[q.value] == '?'
  {
    var n := SchemeLength(line, p);
    if n == 0 then None
    else
      var e := PathEnd(line, p + n);
      if e > p + n && e < |line| && line[e] == '?' then Some(e) else None
  }

  /** `QueryAt` finds a match exactly when the pattern can match at `p`, and
      the '?' it reports is the only one a match at `p` could use. */
  lemma {:induction false} QueryAtMeaning(line: string, p: nat)
    requires p <= |line|
    ensures QueryAt(line, p).Some? ==> exists scheme :: QueryRegexAt(line, p, scheme, QueryAt(line, p).value)
    ensures QueryAt(line, p).Some? ==> forall scheme, q :: QueryRegexAt(line, p, scheme, q) ==> q == QueryAt(line, p).value
    ensures QueryAt(line, p).None? ==> forall scheme, q :: !QueryRegexAt(line, p, scheme, q)
  {
    var n := SchemeLength(line, p);
    SchemeLengthMeaning(line, p);
    assert forall scheme, q :: QueryRegexAt(line, p, scheme, q) ==> |scheme| == n && q == PathEnd(line, p + n);
    if QueryAt(line, p).Some? {
      assert QueryRegexAt(line, p, if n == 8 then "https://" else "http://", QueryAt(line, p).value);
    }
  }

  /** The first position at or after `p` where `QueryAt` finds a match, with its '?'. */
  function SearchQuery(line: string, p: nat): (m: Option<(nat, nat)>)
    requires p <= |line|
    ensures m.Some? ==> p <= m.value.0 <= |line| && QueryAt(line, m.value.0) == Some(m.value.1)
    decreases |line| - p
  {
    var q := QueryAt(line, p);
    if q.Some? then Some((p, q.value))
    else if p == |line| then None
    else SearchQuery(line, p + 1)
  }

  /** No position before the one found, and no position at all when nothing
      is found, has a match. */
  lemma {:induction false} SearchQueryLeftmost(line: string, p: nat)
    requires p <= |line|
    ensures var m := SearchQuery(line, p);
      && (m.Some? ==> forall k :: p <= k < m.value.0 ==> QueryAt(line, k).None?)
      && (m.None? ==> forall k :: p <= k <= |line| ==> QueryAt(line, k).None?)
    decreases |line| - p
  {
    if QueryAt(line, p).None? && p < |line| {
      SearchQueryLeftmost(line, p + 1);
    }
  }

  /** One line after the substitution: cut at the '?' of the first match,
      or unchanged when the pattern matches nowhere on the line. */
  function StripLine(line: string): (r: string)
    ensures SearchQuery(line, 0).None? ==> r == line
    ensures SearchQuery(line, 0).Some? ==> var q := SearchQuery(line, 0).value.1;
      q < |line| && r == line[..q] && line[q] == '?'
  {
    match SearchQuery(line, 0)
    case None => line
    case Some((p, q)) => line[..q]
  }

  /** `StripLine` is the substitution `re.sub` performs on one line: when the
      pattern matches nowhere the line is kept; otherwise the match is the
      leftmost one and the line is cut at its '?'. */
  lemma {:induction false} StripLineMeaning(line: string)
    ensures match SearchQuery(line, 0)
      case None =>
        (forall p: nat, scheme, q: nat :: !QueryRegexAt(line, p, scheme, q))
        && StripLine(line) == line
      case Some((p, q)) =>
        (exists scheme :: QueryRegexAt(line, p, scheme, q))
        && (forall k: nat, scheme, q': nat :: k < p ==> !QueryRegexAt(line, k, scheme, q'))
        && StripLine(line) == line[..q]
  {
    SearchQueryLeftmost(line, 0);
    match SearchQuery(line, 0)
    case None =>
      forall p: nat, scheme, q: nat ensures !QueryRegexAt(line, p, scheme, q) {
        if p <= |line| {
          QueryAtMeaning(line, p);
        }
      }
    case Some((p, q)) =>
      QueryAtMeaning(line, p);
      forall k: nat, scheme, q': nat | k < p ensures !QueryRegexAt(line, k, scheme, q') {
        QueryAtMeaning(line, k);
      }
  }

  /** `strip_url_query`: the substitution applied to every line. */
  function StripUrlQuery(value: string): string
  {
    var lines := Split(value, '\n');
    Join(seq(|lines|, i requires 0 <= i < |lines| => StripLine(lines[i])), "\n")
  }

  /** A run of path characters that stops at `e` ends at `e`. */
  lemma {:induction false} PathEndAt(line: string, i: nat, e: nat)
    requires i <= e <= |line|
    requires forall k :: i <= k < e ==> IsPathChar(line[k])
    requires e == |line| || !IsPathChar(line[e])
    ensures PathEnd(line, i) == e
  {
  }

  /** Text of one line is substituted as that line. */
  lemma {:induction false} StripUrlQueryOneLine(line: string)
    requires '\n' !in line
    ensures StripUrlQuery(line) == StripLine(line)
  {
    assert Split(line, '\n') == [line];
  }

  /** One line on which the pattern matches at its start is cut at that
      match's '?'. */
  lemma {:induction false} StripUrlQueryCut(line: string, q: nat)
    requires '\n' !in line && 0 < |line| && QueryAt(line, 0) == Some(q)
    ensures StripUrlQuery(line) == line[..q]
  {
    StripUrlQueryOneLine(line);
  }

  /** A line without a '?' has no match. */
  lemma {:induction false} StripLineNoQuery(line: string)
    requires '?' !in line
    ensures StripLine(line) == line
  {
  }

  /** The result's lines are the input's lines, each stripped on its own:
      a line without a match comes out as it went in. */
  lemma {:induction false} StripUrlQueryLines(value: string)
    ensures Split(StripUrlQuery(value), '\n') == seq(|Split(value, '\n')|, i requires 0 <= i < |Split(value, '\n')| => StripLine(Split(value, '\n')[i]))
  {
    var lines := Split(value, '\n');
    var out := seq(|lines|, i requires 0 <= i < |lines| => StripLine(lines[i]));
    forall i | 0 <= i < |out|
      ensures '\n' !in out[i]
    {
      assert '\n' !in lines[i];
      assert forall k :: 0 <= k < |out[i]| ==> out[i][k] == lines[i][k];
    }
    SplitJoin(out, '\n');
  }

  /** Text without a '?' passes through unchanged. */
  lemma {:induction false} StripUrlQueryNoQuery(value: string)
    requires '?' !in value
    ensures StripUrlQuery(value) == value
  {
    var lines := Split(value, '\n');
    var out := seq(|lines|, i requires 0 <= i < |lines| => StripLine(lines[i]));
    JoinSplit(value, '\n');
    forall i | 0 <= i < |lines|
      ensures out[i] == lines[i]
    {
      assert '?' !in lines[i] by {
        if '?' in lines[i] { PieceInJoin(lines, "\n", i, '?'); }
      }
      StripLineNoQuery(lines[i]);
    }
    assert out == lines;
  }
}
