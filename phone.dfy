/** `mask_phone` (sanitizer.py:44-62): every digit but the last two becomes
    '*', and the delimiters stay where they were. With fewer than four digits
    the result is only stars, one per digit. */
module PhoneMasking {
  import opened Str

  /** `re.sub(r"\D", "", s)`: the digits of `s`, in order. */
  function Digits(s: string): (d: string)
    ensures |d| <= |s|
    ensures forall i :: 0 <= i < |d| ==> IsDigit(d[i])
  {
    if s == [] then [] else (if IsDigit(s[0]) then [s[0]] else []) + Digits(s[1..])
  }

  lemma {:induction false} DigitsConcat(a: string, b: string)
    ensures Digits(a + b) == Digits(a) + Digits(b)
  {
    if a == [] {
      assert a + b == b;
    } else {
      assert (a + b)[1..] == a[1..] + b;
      DigitsConcat(a[1..], b);
    }
  }

  /** The digit at position `i` of `s` is digit number |Digits(s[..i])| of `s`. */
  lemma {:induction false} DigitIndex(s: string, i: nat)
    requires i < |s| && IsDigit(s[i])
    ensures |Digits(s[..i])| < |Digits(s)|
    ensures Digits(s)[|Digits(s[..i])|] == s[i]
    ensures |Digits(s[i + 1..])| == |Digits(s)| - |Digits(s[..i])| - 1
  {
    assert s == s[..i] + [s[i]] + s[i + 1..];
    DigitsConcat(s[..i] + [s[i]], s[i + 1..]);
    DigitsConcat(s[..i], [s[i]]);
    assert Digits([s[i]]) == [s[i]];
  }

  /** What `mask_phone` returns, stated position by position: with fewer than
      four digits, one star per digit; otherwise a digit followed by at least
      two more digits is starred and every other character is kept. */
  function PhoneMask(v: string): (r: string)
  {
    var n := |Digits(v)|;
    if n < 4 then Stars(n)
    else seq(|v|, i requires 0 <= i < |v| => MaskedAt(v, i))
  }

  /** Position `i` of the mask of a number with at least four digits. */
  function MaskedAt(v: string, i: nat): char
    requires i < |v|
  {
    if IsDigit(v[i]) && |Digits(v[i + 1..])| >= 2 then '*' else v[i]
  }

  /** The digits left visible in the tail `r[i..]` of a mask are the last
      (at most) two digits of `v[i..]`. */
  lemma {:induction false} VisibleDigitsFrom(v: string, i: nat)
    requires |Digits(v)| >= 4 && i <= |v|
    ensures var d := Digits(v[i..]);
      Digits(PhoneMask(v)[i..]) == d[if |d| >= 2 then |d| - 2 else 0..]
    decreases |v| - i
  {
    var r := PhoneMask(v);
    if i == |v| {
      assert r[i..] == [] && v[i..] == [];
    } else {
      VisibleDigitsFrom(v, i + 1);
      DigitsFrom(v, i);
      DigitsFrom(r, i);
      assert r[i] == MaskedAt(v, i);
      if IsDigit(v[i]) && |Digits(v[i + 1..])| >= 2 {
        LastTwo(v[i], Digits(v[i + 1..]));
      }
    }
  }

  /** The digits of a tail: those of its first character, then the rest. */
  lemma {:induction false} DigitsFrom(s: string, i: nat)
    requires i < |s|
    ensures Digits(s[i..]) == (if IsDigit(s[i]) then [s[i]] else []) + Digits(s[i + 1..])
  {
    assert s[i..][1..] == s[i + 1..];
  }

  /** Putting one more element in front leaves the last two alone. */
  lemma {:induction false} LastTwo(x: char, d: string)
    requires |d| >= 2
    ensures ([x] + d)[|d| - 1..] == d[|d| - 2..]
  {
  }

  /** `mask_phone` keeps the length of a number with at least four digits,
      leaves every non-digit in place, and shows exactly its last two digits. */
  lemma {:induction false} PhoneMaskKeepsLayout(v: string)
    requires |Digits(v)| >= 4
    ensures |PhoneMask(v)| == |v|
    ensures forall i :: 0 <= i < |v| && !IsDigit(v[i]) ==> PhoneMask(v)[i] == v[i]
    ensures Digits(PhoneMask(v)) == Digits(v)[|Digits(v)| - 2..]
  {
    VisibleDigitsFrom(v, 0);
    assert v[0..] == v;
    assert PhoneMask(v)[0..] == PhoneMask(v);
  }

  /** With fewer than four digits the result is one star per digit and
      nothing else. */
  lemma {:induction false} PhoneMaskShort(v: string)
    requires |Digits(v)| < 4
    ensures PhoneMask(v) == Stars(|Digits(v)|)
    ensures Digits(PhoneMask(v)) == []
  {
    var r := PhoneMask(v);
    assert forall i :: 0 <= i < |r| ==> !IsDigit(r[i]);
    NoDigits(r);
  }

  /** The result holds a star exactly when the input holds a digit: with
      fewer than four digits every digit becomes a star, and with four or
      more the first digit is followed by at least two others. */
  lemma {:induction false} PhoneMaskHides(v: string)
    ensures '*' in PhoneMask(v) <==> |Digits(v)| >= 1
  {
    if |Digits(v)| == 0 {
      assert PhoneMask(v) == [];
    } else if |Digits(v)| < 4 {
      assert PhoneMask(v)[0] == '*';
    } else {
      var i := FirstDigit(v);
      assert PhoneMask(v)[i] == MaskedAt(v, i) == '*';
    }
  }

  /** The first digit of `s`: every digit of `s` but itself follows it. */
  lemma {:induction false} FirstDigit(s: string) returns (i: nat)
    requires |Digits(s)| >= 1
    ensures i < |s| && IsDigit(s[i]) && |Digits(s[i + 1..])| == |Digits(s)| - 1
  {
    if IsDigit(s[0]) {
      i := 0;
    } else {
      var j := FirstDigit(s[1..]);
      assert s[1..][j + 1..] == s[j + 2..];
      i := j + 1;
    }
  }

  lemma {:induction false} NoDigits(s: string)
    requires forall i :: 0 <= i < |s| ==> !IsDigit(s[i])
    ensures Digits(s) == []
  {
    if s != [] {
      NoDigits(s[1..]);
    }
  }

  /** One position of the walk: a digit advances the digit counter and is
      replaced by the masked digit it has reached; any other character is
      kept and leaves the counter alone. */
  lemma {:induction false} MaskStep(value: string, i: nat)
    requires |Digits(value)| >= 4 && i < |value|
    ensures var d := Digits(value); var it := |Digits(value[..i])|;
      var masked := Stars(|d| - 2) + d[|d| - 2..];
      && |Digits(value[..i + 1])| == it + (if IsDigit(value[i]) then 1 else 0)
      && (IsDigit(value[i]) ==> it < |masked| && PhoneMask(value)[i] == masked[it])
      && (!IsDigit(value[i]) ==> PhoneMask(value)[i] == value[i])
  {
    DigitsConcat(value[..i], [value[i]]);
    assert value[..i + 1] == value[..i] + [value[i]];
    assert PhoneMask(value)[i] == MaskedAt(value, i);
    if IsDigit(value[i]) {
      MaskedDigit(value, i);
    }
  }

  /** A digit is starred unless it is one of the last two. */
  lemma {:induction false} MaskedDigit(value: string, i: nat)
    requires |Digits(value)| >= 4 && i < |value| && IsDigit(value[i])
    ensures var d := Digits(value); var it := |Digits(value[..i])|;
      var masked := Stars(|d| - 2) + d[|d| - 2..];
      it < |masked| && MaskedAt(value, i) == masked[it]
  {
    DigitIndex(value, i);
    var d := Digits(value);
    var it := |Digits(value[..i])|;
    var masked := Stars(|d| - 2) + d[|d| - 2..];
    if it < |d| - 2 {
      assert masked[it] == '*';
    } else {
      assert masked[it] == d[it];
    }
  }

  /** `mask_phone` as written: collect the digits, build the masked digit
      string, then walk the value and take the next masked digit for each
      digit position. */
  method MaskPhone(value: string) returns (r: string)
    ensures r == PhoneMask(value)
  {
    var digits := Digits(value);
    if |digits| < 4 {
      return Stars(|digits|);
    }
    var keep := 2;
    var maskedDigits := Stars(|digits| - keep) + digits[|digits| - keep..];
    ghost var target := PhoneMask(value);
    assert |target| == |value|;
    var it := 0;
    var out: string := [];
    for i := 0 to |value|
      invariant |out| == i
      invariant it == |Digits(value[..i])|
      invariant forall k :: 0 <= k < i ==> out[k] == target[k]
    {
      MaskStep(value, i);
      var c;
      if IsDigit(value[i]) {
        c := maskedDigits[it];
        it := it + 1;
      } else {
        c := value[i];
      }
      PrefixGrows(out, c, target);
      out := out + [c];
    }
    r := out;
  }
}
