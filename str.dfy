/** Strings as sequences of ASCII characters, and the handful of Python `str`
    operations the sanitizer relies on: whitespace and digit classes, `strip`,
    `split` on one character, `join`, `splitlines`, single-character `replace`
    and ASCII `lower`. */
module Str {

  /** The ASCII members of Python's whitespace class (`\s`, `str.strip`,
      `str.isspace`): space, \t \n \v \f \r and the separators 0x1c-0x1f. */
  predicate IsSpace(c: char) {
    c == ' ' || (9 <= c as int <= 13) || (28 <= c as int <= 31)
  }

  predicate IsDigit(c: char) {
    '0' <= c <= '9'
  }

  /** Number of occurrences of `c` in `s`. */
  function Count(s: string, c: char): (n: nat)
    ensures n <= |s|
    ensures n == 0 <==> c !in s
  {
    if s == [] then 0 else (if s[0] == c then 1 else 0) + Count(s[1..], c)
  }

  lemma {:induction false} CountConcat(a: string, b: string, c: char)
    ensures Count(a + b, c) == Count(a, c) + Count(b, c)
  {
    if a == [] {
      assert a + b == b;
    } else {
      assert (a + b)[1..] == a[1..] + b;
      CountConcat(a[1..], b, c);
    }
  }

  /** `n` asterisks: Python's `"*" * n`. */
  function Stars(n: nat): (r: string)
    ensures |r| == n && forall i :: 0 <= i < n ==> r[i] == '*'
  {
    seq(n, _ => '*')
  }

  // ---------------------------------------------------------------- strip

  function LStrip(s: string): (r: string)
    ensures |r| <= |s| && r == s[|s| - |r|..]
    ensures r == [] || !IsSpace(r[0])
    ensures forall i :: 0 <= i < |s| - |r| ==> IsSpace(s[i])
  {
    if s != [] && IsSpace(s[0]) then LStrip(s[1..]) else s
  }

  function RStrip(s: string): (r: string)
    ensures |r| <= |s| && r == s[..|r|]
    ensures r == [] || !IsSpace(r[|r| - 1])
    ensures forall i :: |r| <= i < |s| ==> IsSpace(s[i])
  {
    if s != [] && IsSpace(s[|s| - 1]) then RStrip(s[..|s| - 1]) else s
  }

  /** Python's `str.strip()`: the slice of `s` left after dropping leading and
      trailing whitespace. */
  function Strip(s: string): (r: string)
    ensures |r| <= |s|
    ensures exists i :: 0 <= i <= |s| - |r| && r == s[i..][..|r|]
    ensures r == [] || (!IsSpace(r[0]) && !IsSpace(r[|r| - 1]))
  {
    var l := LStrip(s);
    var r := RStrip(l);
    assert r == s[|s| - |l|..][..|r|];
    r
  }

  lemma {:induction false} StripIdempotent(s: string)
    ensures Strip(Strip(s)) == Strip(s)
  {
    var t := Strip(s);
    assert LStrip(t) == t;
    assert RStrip(t) == t;
  }

  /** A string that neither starts nor ends with whitespace strips to itself. */
  lemma {:induction false} StripKeeps(s: string)
    requires s == [] || (!IsSpace(s[0]) && !IsSpace(s[|s| - 1]))
    ensures Strip(s) == s
  {
    assert LStrip(s) == s;
    assert RStrip(s) == s;
  }

  /** A string made only of whitespace strips to the empty string, and no
      other string does. */
  lemma {:induction false} StripEmpty(s: string)
    ensures Strip(s) == [] <==> forall i :: 0 <= i < |s| ==> IsSpace(s[i])
  {
    var l := LStrip(s);
    if !forall i :: 0 <= i < |s| ==> IsSpace(s[i]) {
      var i :| 0 <= i < |s| && !IsSpace(s[i]);
      assert |s| - |l| <= i;
      assert l[i - (|s| - |l|)] == s[i];
    }
  }

  // ---------------------------------------------------------------- find, split, join

  /** Index of the first `c` in `s`, or `|s|` when there is none. */
  function Find(s: string, c: char): (i: nat)
    ensures i <= |s|
    ensures c !in s[..i]
    ensures i < |s| ==> s[i] == c
    ensures i == |s| <==> c !in s
  {
    if s == [] then 0
    else if s[0] == c then 0
    else
      var j := Find(s[1..], c);
      assert s[..1 + j] == [s[0]] + s[1..][..j];
      1 + j
  }

  /** In `key + [c] + rest` with no `c` in `key`, the first `c` is the one
      after the key. */
  lemma {:induction false} FindAfterKey(key: string, rest: string, c: char)
    requires c !in key
    ensures var s := key + [c] + rest;
      && Find(s, c) == |key|
      && s[..|key|] == key && s[|key| + 1..] == rest
  {
    var s := key + [c] + rest;
    assert s[..|key|] == key;
    assert s[|key|] == c;
    assert s[|key| + 1..] == rest;
  }

  /** A string is its part before `k`, its character at `k`, and the rest. */
  lemma SplitAround(s: string, k: nat)
    requires k < |s|
    ensures s == s[..k] + [s[k]] + s[k + 1..]
  {
    assert s[..k] + [s[k]] == s[..k + 1];
  }

  /** Python's `s.split(c)` for a one-character separator: the maximal pieces
      between separators, always at least one, none containing `c`. */
  function Split(s: string, c: char): (parts: seq<string>)
    ensures |parts| >= 1
    ensures forall i :: 0 <= i < |parts| ==> c !in parts[i] && |parts[i]| <= |s|
    decreases |s|
  {
    var i := Find(s, c);
    if i == |s| then [s] else [s[..i]] + Split(s[i + 1..], c)
  }

  /** Python's `sep.join(parts)`. */
  function Join(parts: seq<string>, sep: string): string
  {
    if parts == [] then []
    else if |parts| == 1 then parts[0]
    else parts[0] + sep + Join(parts[1..], sep)
  }

  /** Joining the pieces of a split with the separator gives back the string. */
  lemma {:induction false} JoinSplit(s: string, c: char)
    ensures Join(Split(s, c), [c]) == s
    decreases |s|
  {
    var i := Find(s, c);
    if i < |s| {
      var rest := Split(s[i + 1..], c);
      var parts := [s[..i]] + rest;
      assert Split(s, c) == parts;
      assert parts[1..] == rest;
      assert Join(parts, [c]) == s[..i] + [c] + Join(rest, [c]);
      JoinSplit(s[i + 1..], c);
      assert s == s[..i] + [c] + s[i + 1..];
    }
  }

  /** Splitting a join of separator-free pieces gives back the pieces. */
  lemma {:induction false} SplitJoin(parts: seq<string>, c: char)
    requires |parts| >= 1
    requires forall i :: 0 <= i < |parts| ==> c !in parts[i]
    ensures Split(Join(parts, [c]), c) == parts
  {
    if |parts| > 1 {
      var s := Join(parts, [c]);
      assert s == parts[0] + [c] + Join(parts[1..], [c]);
      assert s[..|parts[0]|] == parts[0];
      assert s[|parts[0]|] == c;
      var k := Find(s, c);
      assert k <= |parts[0]| by {
        assert s[..|parts[0]| + 1][|parts[0]|] == c;
      }
      assert k == |parts[0]| by {
        assert c !in s[..|parts[0]|];
      }
      assert s[|parts[0]| + 1..] == Join(parts[1..], [c]);
      SplitJoin(parts[1..], c);
    } else {
      assert Find(parts[0], c) == |parts[0]|;
    }
  }

  /** A join contains a character only if a piece or the separator does. */
  lemma {:induction false} JoinExcludes(parts: seq<string>, sep: string, c: char)
    requires c !in sep
    requires forall i :: 0 <= i < |parts| ==> c !in parts[i]
    ensures c !in Join(parts, sep)
  {
    if |parts| > 1 {
      JoinExcludes(parts[1..], sep, c);
    }
  }

  /** A character of a piece is a character of the join. */
  lemma {:induction false} PieceInJoin(parts: seq<string>, sep: string, i: nat, c: char)
    requires i < |parts| && c in parts[i]
    ensures c in Join(parts, sep)
  {
    if |parts| > 1 && i > 0 {
      PieceInJoin(parts[1..], sep, i - 1, c);
    }
  }

  /** Python's `str.splitlines()` with '\n' as the only line break: no line
      for the empty string and no empty line after a final '\n'. */
  function SplitLines(s: string): (lines: seq<string>)
    ensures forall i :: 0 <= i < |lines| ==> '\n' !in lines[i] && |lines[i]| <= |s|
    ensures s == [] <==> lines == []
  {
    if s == [] then []
    else
      var parts := Split(s, '\n');
      if parts[|parts| - 1] == [] then
        assert |parts| > 1 by {
          if |parts| == 1 { JoinSplit(s, '\n'); }
        }
        parts[..|parts| - 1]
      else parts
  }

  /** Non-empty text without a '\n' is one line. */
  lemma {:induction false} SplitLinesOne(s: string)
    requires s != [] && '\n' !in s
    ensures SplitLines(s) == [s]
  {
    assert Split(s, '\n') == [s];
  }

  /** Joining the lines with '\n' gives back the text, less one final '\n'. */
  lemma {:induction false} SplitLinesJoin(s: string)
    ensures s != [] && s[|s| - 1] == '\n' ==> Join(SplitLines(s), "\n") + "\n" == s
    ensures (s == [] || s[|s| - 1] != '\n') ==> Join(SplitLines(s), "\n") == s
  {
    if s != [] {
      var parts := Split(s, '\n');
      if parts[|parts| - 1] == [] {
        SplitLinesDropped(s, parts);
      } else {
        SplitLinesKept(s, parts);
      }
    }
  }

  lemma {:induction false} SplitLinesKept(s: string, parts: seq<string>)
    requires s != [] && parts == Split(s, '\n') && parts[|parts| - 1] != []
    ensures s[|s| - 1] != '\n' && Join(SplitLines(s), "\n") == s
  {
    SplitLinesWhole(s);
    JoinSplit(s, '\n');
    SplitLastOutside(s, '\n');
  }

  /** When the last piece of a split is not empty, the string does not end
      with the separator. */
  lemma {:induction false} SplitLastOutside(s: string, c: char)
    requires var parts := Split(s, c); parts[|parts| - 1] != []
    ensures s != [] && s[|s| - 1] != c
    decreases |s|
  {
    var i := Find(s, c);
    if i < |s| {
      var rest := s[i + 1..];
      var tail := Split(rest, c);
      var parts := [s[..i]] + tail;
      assert Split(s, c) == parts;
      assert parts[|parts| - 1] == tail[|tail| - 1];
      if rest != [] {
        SplitLastOutside(rest, c);
        assert s[|s| - 1] == rest[|rest| - 1];
      }
    }
  }

  lemma {:induction false} SplitLinesDropped(s: string, parts: seq<string>)
    requires s != [] && parts == Split(s, '\n') && parts[|parts| - 1] == []
    ensures s[|s| - 1] == '\n' && Join(SplitLines(s), "\n") + "\n" == s
  {
    JoinSplit(s, '\n');
    var lines := parts[..|parts| - 1];
    assert SplitLines(s) == lines;
    JoinDropLast(parts, "\n");
  }

  lemma {:induction false} SplitLinesWhole(s: string)
    requires s != [] && Split(s, '\n')[|Split(s, '\n')| - 1] != []
    ensures SplitLines(s) == Split(s, '\n')
  {
  }

  lemma {:induction false} JoinDropLast(parts: seq<string>, sep: string)
    requires |parts| > 1 && parts[|parts| - 1] == []
    ensures Join(parts, sep) == Join(parts[..|parts| - 1], sep) + sep
  {
    if |parts| > 2 {
      JoinDropLast(parts[1..], sep);
      assert parts[1..][..|parts| - 2] == parts[..|parts| - 1][1..];
    }
  }

  // ---------------------------------------------------------------- replace

  /** Python's `s.replace(c, t)` for a one-character pattern: every `c`
      becomes `t`, everything else stays. */
  function ReplaceChar(s: string, c: char, t: string): string
  {
    if s == [] then [] else (if s[0] == c then t else [s[0]]) + ReplaceChar(s[1..], c, t)
  }

  lemma {:induction false} ReplaceCharConcat(a: string, b: string, c: char, t: string)
    ensures ReplaceChar(a + b, c, t) == ReplaceChar(a, c, t) + ReplaceChar(b, c, t)
  {
    if a == [] {
      assert a + b == b;
    } else {
      assert (a + b)[1..] == a[1..] + b;
      ReplaceCharConcat(a[1..], b, c, t);
    }
  }

  /** Replacing a character that does not occur changes nothing. */
  lemma {:induction false} ReplaceCharAbsent(s: string, c: char, t: string)
    requires c !in s
    ensures ReplaceChar(s, c, t) == s
  {
    if s != [] {
      ReplaceCharAbsent(s[1..], c, t);
    }
  }

  /** A chain of one-character replacements, `s.replace(c1, t1).replace(c2, t2)...`,
      applied left to right. */
  function ReplaceAll(s: string, reps: seq<(char, string)>): string
    decreases |reps|
  {
    if reps == [] then s else ReplaceAll(ReplaceChar(s, reps[0].0, reps[0].1), reps[1..])
  }

  /** What the chain does to one character: the replacement of the first
      pair that names it, or the character itself. */
  function Lookup(c: char, reps: seq<(char, string)>): string
    decreases |reps|
  {
    if reps == [] then [c] else if reps[0].0 == c then reps[0].1 else Lookup(c, reps[1..])
  }

  /** The per-character map: every character replaced by its `Lookup`. */
  function MapChars(s: string, reps: seq<(char, string)>): string
  {
    if s == [] then [] else Lookup(s[0], reps) + MapChars(s[1..], reps)
  }

  /** No replacement text contains a character that a later step replaces,
      so no step rewrites what an earlier one produced. */
  predicate Unclobbered(reps: seq<(char, string)>) {
    forall i, j :: 0 <= i < j < |reps| ==> reps[j].0 !in reps[i].1
  }

  lemma {:induction false} ReplaceAllConcat(a: string, b: string, reps: seq<(char, string)>)
    ensures ReplaceAll(a + b, reps) == ReplaceAll(a, reps) + ReplaceAll(b, reps)
    decreases |reps|
  {
    if reps != [] {
      ReplaceCharConcat(a, b, reps[0].0, reps[0].1);
      ReplaceAllConcat(ReplaceChar(a, reps[0].0, reps[0].1), ReplaceChar(b, reps[0].0, reps[0].1), reps[1..]);
    }
  }

  /** A chain none of whose characters occur in `s` leaves `s` alone. */
  lemma {:induction false} ReplaceAllAbsent(s: string, reps: seq<(char, string)>)
    requires forall j :: 0 <= j < |reps| ==> reps[j].0 !in s
    ensures ReplaceAll(s, reps) == s
    decreases |reps|
  {
    if reps != [] {
      ReplaceCharAbsent(s, reps[0].0, reps[0].1);
      ReplaceAllAbsent(s, reps[1..]);
    }
  }

  lemma {:induction false} ReplaceAllOne(c: char, reps: seq<(char, string)>)
    requires Unclobbered(reps)
    ensures ReplaceAll([c], reps) == Lookup(c, reps)
    decreases |reps|
  {
    if reps != [] {
      var first := ReplaceChar([c], reps[0].0, reps[0].1);
      assert ReplaceChar([c][1..], reps[0].0, reps[0].1) == [];
      if reps[0].0 == c {
        assert first == reps[0].1;
        ReplaceAllAbsent(first, reps[1..]);
      } else {
        assert first == [c];
        ReplaceAllOne(c, reps[1..]);
      }
    }
  }

  /** When no step rewrites an earlier step's output, the chain of replacements
      is the per-character map. */
  lemma {:induction false} ReplaceAllIsMap(s: string, reps: seq<(char, string)>)
    requires Unclobbered(reps)
    ensures ReplaceAll(s, reps) == MapChars(s, reps)
  {
    if s != [] {
      assert s == [s[0]] + s[1..];
      ReplaceAllConcat([s[0]], s[1..], reps);
      ReplaceAllOne(s[0], reps);
      ReplaceAllIsMap(s[1..], reps);
    } else {
      ReplaceAllAbsent(s, reps);
    }
  }

  lemma {:induction false} MapCharsConcat(a: string, b: string, reps: seq<(char, string)>)
    ensures MapChars(a + b, reps) == MapChars(a, reps) + MapChars(b, reps)
  {
    if a == [] {
      assert a + b == b;
    } else {
      assert (a + b)[1..] == a[1..] + b;
      MapCharsConcat(a[1..], b, reps);
    }
  }

  // ---------------------------------------------------------------- lower

  function LowerChar(c: char): (d: char)
    ensures 'A' <= c <= 'Z' ==> 'a' <= d <= 'z' && d as int == c as int + 32
    ensures !('A' <= c <= 'Z') ==> d == c
  {
    if 'A' <= c <= 'Z' then (c as int + 32) as char else c
  }

  /** Python's `str.lower()` on ASCII. */
  function Lower(s: string): (r: string)
    ensures |r| == |s|
    ensures forall i :: 0 <= i < |s| ==> r[i] == LowerChar(s[i])
  {
    seq(|s|, i requires 0 <= i < |s| => LowerChar(s[i]))
  }

  /** Appending the next element of `target` to a prefix of it gives a
      longer prefix. */
  lemma {:induction false} PrefixGrows<T>(out: seq<T>, x: T, target: seq<T>)
    requires |out| < |target| && x == target[|out|]
    requires forall k :: 0 <= k < |out| ==> out[k] == target[k]
    ensures forall k :: 0 <= k < |out| + 1 ==> (out + [x])[k] == target[k]
  {
  }
}
