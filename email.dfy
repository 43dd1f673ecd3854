/** `mask_email` and its helper `mask_part` (sanitizer.py:20-41): the leftmost
    email-shaped substring is replaced by its masked form and the text around
    it is dropped. */
module EmailMasking {
  import opened Str
  import opened Options
  import opened Patterns

  /** `mask_part`: keep the first character, and the last one when there are
      at least three, and star the rest. A single character gains a star. */
  function MaskPart(s: string): (r: string)
    ensures |s| == 0 ==> r == []
    ensures |s| == 1 ==> r == s + "*"
    ensures |s| == 2 ==> r == [s[0], '*']
    ensures |s| >= 3 ==> |r| == |s| && r[0] == s[0] && r[|r| - 1] == s[|s| - 1]
    ensures |s| >= 3 ==> forall i :: 0 < i < |s| - 1 ==> r[i] == '*'
  {
    if s == [] then []
    else if |s| == 1 then s + "*"
    else if |s| == 2 then [s[0]] + "*"
    else [s[0]] + Stars(|s| - 2) + [s[|s| - 1]]
  }

  /** The masked labels of a domain, in order. */
  function MaskLabels(labels: seq<string>): (r: seq<string>)
    ensures |r| == |labels|
    ensures forall i :: 0 <= i < |r| ==> r[i] == MaskPart(labels[i])
  {
    seq(|labels|, i requires 0 <= i < |labels| => MaskPart(labels[i]))
  }

  /** `".".join(mask_part(label) for label in domain.split("."))`. */
  function MaskDomain(domain: string): string
  {
    Join(MaskLabels(Split(domain, '.')), ".")
  }

  /** The masked domain has exactly the masked labels of the domain: masking
      neither adds nor removes a '.'. */
  lemma {:induction false} MaskDomainLabels(domain: string)
    ensures Split(MaskDomain(domain), '.') == MaskLabels(Split(domain, '.'))
  {
    var labels := Split(domain, '.');
    var masked := MaskLabels(labels);
    forall i | 0 <= i < |masked|
      ensures '.' !in masked[i]
    {
      MaskPartAdds(labels[i], '.');
    }
    SplitJoin(masked, '.');
  }

  /** Masking a domain never introduces an '@'. */
  lemma {:induction false} MaskDomainNoAt(domain: string)
    requires '@' !in domain
    ensures '@' !in MaskDomain(domain)
  {
    var labels := Split(domain, '.');
    var masked := MaskLabels(labels);
    JoinSplit(domain, '.');
    forall i | 0 <= i < |masked|
      ensures '@' !in masked[i]
    {
      assert '@' !in labels[i] by {
        if '@' in labels[i] { PieceInJoin(labels, ".", i, '@'); }
      }
      MaskPartAdds(labels[i], '@');
    }
    JoinExcludes(masked, ".", '@');
  }

  /** `mask_email`: when the text holds an email-shaped substring, the result
      is the masked local part, '@' and the masked domain of the leftmost one;
      otherwise the text is returned as it is. */
  function MaskEmail(value: string): (r: string)
    ensures FindEmail(value).None? ==> r == value
  {
    var found := FindEmail(value);
    if found.None? then value else MaskMatch(value, found.value)
  }

  /** The replacement for the match `m` of `value`. */
  function MaskMatch(value: string, m: EmailMatch): string
    requires m.start < m.at < m.end <= |value|
  {
    MaskHalves(LocalPart(value, m), DomainPart(value, m))
  }

  /** The text the match covers before its '@'. */
  function LocalPart(value: string, m: EmailMatch): (r: string)
    requires m.start < m.at < m.end <= |value|
    ensures |r| == m.at - m.start
    ensures forall i :: 0 <= i < |r| ==> r[i] == value[m.start + i]
  {
    value[m.start..m.at]
  }

  /** The text the match covers after its '@'. */
  function DomainPart(value: string, m: EmailMatch): (r: string)
    requires m.start < m.at < m.end <= |value|
    ensures |r| == m.end - m.at - 1
    ensures forall i :: 0 <= i < |r| ==> r[i] == value[m.at + 1 + i]
  {
    value[m.at + 1..m.end]
  }

  /** Masked local part, '@', masked domain. */
  function MaskHalves(local: string, domain: string): string
  {
    MaskPart(local) + "@" + MaskDomain(domain)
  }

  /** Text in which the email pattern matches nowhere is returned unchanged. */
  lemma {:induction false} MaskEmailNoMatch(value: string)
    requires forall p: nat, a: nat, e: nat :: !EmailRegexAt(value, p, a, e)
    ensures MaskEmail(value) == value
  {
    FindEmailMeaning(value);
  }

  /** The two halves of a match are non-empty (the local part) and free of '@'. */
  lemma {:induction false} MatchHalves(value: string, m: EmailMatch)
    requires m.start <= |value| && MatchAt(value, m.start) == Some(m)
    ensures m.start < m.at < m.end <= |value|
    ensures '@' !in LocalPart(value, m) && '@' !in DomainPart(value, m)
  {
    MatchAtMeaning(value, m.start);
    var local := LocalPart(value, m);
    var domain := DomainPart(value, m);
    forall i | 0 <= i < |local| ensures local[i] != '@' {
      assert local[i] == value[m.start + i];
    }
    forall i | 0 <= i < |domain| ensures domain[i] != '@' {
      assert domain[i] == value[m.at + 1 + i];
    }
  }

  /** When there is a match, the result is the masked form of its two
      halves; it holds exactly one '@' and starts with the first character
      of the local part. */
  lemma {:induction false} MaskEmailShape(value: string, m: EmailMatch)
    requires FindEmail(value) == Some(m)
    ensures MaskEmail(value) == MaskMatch(value, m)
    ensures Count(MaskEmail(value), '@') == 1
    ensures MaskEmail(value)[0] == value[m.start]
  {
    MatchHalves(value, m);
    MaskEmailIsMatch(value, m);
    MaskHalvesShape(LocalPart(value, m), DomainPart(value, m));
  }

  lemma {:induction false} MaskEmailIsMatch(value: string, m: EmailMatch)
    requires FindEmail(value) == Some(m)
    ensures MaskEmail(value) == MaskMatch(value, m)
  {
  }

  /** The masked form of two halves free of '@' holds one '@' and starts
      with the first character of the local part. */
  lemma {:induction false} MaskHalvesShape(local: string, domain: string)
    requires local != [] && '@' !in local && '@' !in domain
    ensures Count(MaskHalves(local, domain), '@') == 1
    ensures MaskHalves(local, domain)[0] == local[0]
  {
    MaskDomainNoAt(domain);
    MaskPartAdds(local, '@');
    AtJoin(MaskPart(local), MaskDomain(domain));
  }

  /** Masking a part adds no character but '*'. */
  lemma {:induction false} MaskPartAdds(s: string, c: char)
    requires c != '*' && c !in s
    ensures c !in MaskPart(s)
  {
    var r := MaskPart(s);
    if |s| >= 3 {
      assert r == [s[0]] + Stars(|s| - 2) + [s[|s| - 1]];
    }
  }

  /** `x + "@" + y` with no '@' in `x` or `y` holds exactly one '@', and
      starts with `x`. */
  lemma {:induction false} AtJoin(x: string, y: string)
    requires '@' !in x && '@' !in y
    ensures Count(x + "@" + y, '@') == 1
    ensures x != [] ==> (x + "@" + y)[0] == x[0]
  {
    assert Count("@", '@') == 1;
    CountConcat(x, "@", '@');
    CountConcat(x + "@", y, '@');
  }
}
