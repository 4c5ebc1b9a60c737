/** The Python `str` primitives the job-file protocol is built from: `strip`, `lower`,
    the digit class of `\d` with `int()`, and `str()` of an integer.
    Characters are Unicode scalar values, as in Dafny's `char`. */
module PyText {

  /** The characters for which Python's `str.isspace()` holds. `str.strip()` without an
      argument removes exactly these, and `\s` in a `str` regex matches exactly these. */
  predicate IsSpace(c: char) {
    || '\t' <= c <= '\r'
    || '\U{1C}' <= c <= ' '
    || c == '\U{85}' || c == '\U{A0}' || c == '\U{1680}'
    || '\U{2000}' <= c <= '\U{200A}'
    || c == '\U{2028}' || c == '\U{2029}' || c == '\U{202F}' || c == '\U{205F}' || c == '\U{3000}'
  }

  /** Whitespace is never a digit, an ASCII letter or one of the characters the job file
      and the slugs give a meaning to. */
  lemma SpaceIsNotText(c: char)
    requires IsSpace(c)
    ensures !IsDigit(c) && !('a' <= c <= 'z') && !('A' <= c <= 'Z')
    ensures c != '_' && c != '#' && c != '|' && c != '-'
  {
  }

  /** The character sets the protocol strips: whitespace (`strip()`) and underscores
      (`strip("_")`). */
  datatype CharSet = Whitespace | Underscores

  predicate InSet(c: char, cs: CharSet) {
    match cs
    case Whitespace => IsSpace(c)
    case Underscores => c == '_'
  }

  /** Every character of `s` is in `cs`. */
  predicate AllIn(s: string, cs: CharSet) {
    forall k :: 0 <= k < |s| ==> InSet(s[k], cs)
  }

  predicate AllSpace(s: string) {
    AllIn(s, Whitespace)
  }

  lemma AllInConcat(a: string, b: string, cs: CharSet)
    requires AllIn(a, cs) && AllIn(b, cs)
    ensures AllIn(a + b, cs)
  {
    forall k | 0 <= k < |a + b| ensures InSet((a + b)[k], cs) {
      if k >= |a| { assert (a + b)[k] == b[k - |a|]; }
    }
  }

  /** `s.lstrip(cs)`, keeping what it removes: the run of characters of `cs` that `s`
      starts with, and the rest, which does not start with one. */
  function SplitLeft(s: string, cs: CharSet): (r: (string, string))
    ensures r.0 + r.1 == s
    ensures AllIn(r.0, cs)
    ensures r.1 == [] || !InSet(r.1[0], cs)
  {
    if s == [] || !InSet(s[0], cs) then ([], s)
    else
      var t := SplitLeft(s[1..], cs);
      var a := [s[0]] + t.0;
      assert a + t.1 == s by {
        assert a + t.1 == [s[0]] + (t.0 + t.1);
      }
      assert AllIn(a, cs) by {
        forall k | 0 <= k < |a| ensures InSet(a[k], cs) {
          if k > 0 { assert a[k] == t.0[k - 1]; }
        }
      }
      (a, t.1)
  }

  /** `s.rstrip(cs)`, keeping what it removes: the rest, which does not end with a
      character of `cs`, and the run of such characters that `s` ends with. */
  function SplitRight(s: string, cs: CharSet): (r: (string, string))
    ensures r.0 + r.1 == s
    ensures AllIn(r.1, cs)
    ensures r.0 == [] || !InSet(r.0[|r.0| - 1], cs)
  {
    if s == [] || !InSet(s[|s| - 1], cs) then (s, [])
    else
      var t := SplitRight(s[..|s| - 1], cs);
      var b := t.1 + [s[|s| - 1]];
      assert t.0 + b == s by {
        assert t.0 + b == (t.0 + t.1) + [s[|s| - 1]];
      }
      assert AllIn(b, cs) by {
        forall k | 0 <= k < |b| ensures InSet(b[k], cs) {
          if k < |t.1| { assert b[k] == t.1[k]; }
        }
      }
      (t.0, b)
  }

  /** The split is the only one with those properties. */
  lemma {:induction false} SplitLeftUnique(a: string, b: string, cs: CharSet)
    requires AllIn(a, cs)
    requires b == [] || !InSet(b[0], cs)
    ensures SplitLeft(a + b, cs) == (a, b)
  {
    if a == [] {
      assert a + b == b;
    } else {
      var s := a + b;
      assert s[0] == a[0];
      assert s[1..] == a[1..] + b;
      SplitLeftUnique(a[1..], b, cs);
      assert [a[0]] + a[1..] == a;
    }
  }

  lemma {:induction false} SplitRightUnique(a: string, b: string, cs: CharSet)
    requires AllIn(b, cs)
    requires a == [] || !InSet(a[|a| - 1], cs)
    ensures SplitRight(a + b, cs) == (a, b)
  {
    if b == [] {
      assert a + b == a;
    } else {
      var s := a + b;
      var b' := b[..|b| - 1];
      assert s[|s| - 1] == b[|b| - 1];
      assert s[..|s| - 1] == a + b';
      SplitRightUnique(a, b', cs);
      assert b' + [b[|b| - 1]] == b;
    }
  }

  /** `s.strip(cs)`, keeping what it removes: `s` is `pre + core + post`, where `pre` and
      `post` consist of characters of `cs` and `core` neither starts nor ends with one. */
  function StripSplit(s: string, cs: CharSet): (r: (string, string, string))
    ensures r.0 + r.1 + r.2 == s
    ensures AllIn(r.0, cs)
    ensures AllIn(r.2, cs)
    ensures r.1 == [] || (!InSet(r.1[0], cs) && !InSet(r.1[|r.1| - 1], cs))
  {
    var (pre, rest) := SplitLeft(s, cs);
    var (core, post) := SplitRight(rest, cs);
    assert core != [] ==> core[0] == rest[0];
    (pre, core, post)
  }

  /** `s.strip(cs)`. */
  function StripChars(s: string, cs: CharSet): (r: string)
    ensures |r| <= |s|
    ensures r == [] || (!InSet(r[0], cs) && !InSet(r[|r| - 1], cs))
  {
    StripSplit(s, cs).1
  }

  /** `s.strip()`. */
  function Strip(s: string): (r: string)
    ensures |r| <= |s|
    ensures r == [] || (!IsSpace(r[0]) && !IsSpace(r[|r| - 1]))
  {
    StripChars(s, Whitespace)
  }

  /** `strip` removes exactly the padding: the strip of `pre + core + post` is `core` when
      `pre` and `post` consist of characters of `cs` and `core` has none at either end. */
  lemma StripOfParts(pre: string, core: string, post: string, cs: CharSet)
    requires AllIn(pre, cs) && AllIn(post, cs)
    requires core == [] || (!InSet(core[0], cs) && !InSet(core[|core| - 1], cs))
    ensures StripChars(pre + core + post, cs) == core
  {
    if core == [] {
      assert pre + core + post == (pre + post) + [];
      AllInConcat(pre, post, cs);
      SplitLeftUnique(pre + post, [], cs);
      SplitRightUnique([], [], cs);
    } else {
      assert pre + core + post == pre + (core + post);
      SplitLeftUnique(pre, core + post, cs);
      SplitRightUnique(core, post, cs);
    }
  }

  lemma ConcatAssoc(a: string, b: string, c: string)
    ensures a + (b + c) == a + b + c
  {
  }

  lemma Regroup(a: string, b: string, c: string, d: string, e: string)
    ensures a + (b + c + d) + e == (a + b) + c + (d + e)
  {
  }

  /** Padding `s` with characters of `cs` on either side does not change `s.strip(cs)`. */
  lemma StripPadding(pre: string, s: string, post: string, cs: CharSet)
    requires AllIn(pre, cs) && AllIn(post, cs)
    ensures StripChars(pre + s + post, cs) == StripChars(s, cs)
  {
    var parts := StripSplit(s, cs);
    AllInConcat(pre, parts.0, cs);
    AllInConcat(parts.2, post, cs);
    Regroup(pre, parts.0, parts.1, parts.2, post);
    StripOfParts(pre + parts.0, parts.1, parts.2 + post, cs);
  }

  /** A text that neither starts nor ends with a character of `cs` is its own strip. */
  lemma StripNoPadding(s: string, cs: CharSet)
    requires s == [] || (!InSet(s[0], cs) && !InSet(s[|s| - 1], cs))
    ensures StripChars(s, cs) == s
  {
    assert [] + s + [] == s;
    StripOfParts([], s, [], cs);
  }

  /** Stripping twice is stripping once. */
  lemma StripIdempotent(s: string)
    ensures Strip(Strip(s)) == Strip(s)
  {
    StripNoPadding(Strip(s), Whitespace);
  }

  lemma StripLeadingSpace(s: string)
    ensures Strip(" " + s) == Strip(s)
  {
    assert AllSpace([]) && AllSpace(" ");
    assert " " + s + [] == " " + s;
    StripPadding(" ", s, [], Whitespace);
  }

  /** A text that starts with a non-space keeps its first character when stripped. */
  lemma StripKeepsFirst(s: string)
    requires s != [] && !IsSpace(s[0])
    ensures Strip(s) != [] && Strip(s)[0] == s[0]
  {
    var parts := StripSplit(s, Whitespace);
    assert s == parts.0 + (parts.1 + parts.2);
    assert parts.1 + parts.2 == s;
    assert parts.2 == [] || InSet(parts.2[0], Whitespace);
    assert parts.1 == [] || parts.1[0] == s[0];
  }

  /** ASCII lowering. Python's `str.lower()` also lowers non-ASCII letters, and a few of
      them to ASCII: U+212A KELVIN SIGN becomes `k`, and U+0130 (capital I with dot above)
      becomes two characters, `i` followed by U+0307 COMBINING DOT ABOVE, so lowering can
      lengthen the text. No character lowers to a digit, whitespace, `x` or `×`, and
      the combining dot stays next to the `i`, so no lowered text becomes `q`, `quit` or
      `exit` or a size that was not one before: the decisions taken on lowered text here
      are the same as Python's. */
  function LowerChar(c: char): (r: char)
    ensures ('A' <= c <= 'Z') == (r != c)
    ensures 'A' <= c <= 'Z' ==> 'a' <= r <= 'z' && r as int - c as int == 32
  {
    if 'A' <= c <= 'Z' then (c as int + 32) as char else c
  }

  function Lower(s: string): (r: string)
    ensures |r| == |s|
    ensures forall i :: 0 <= i < |s| ==> r[i] == LowerChar(s[i])
  {
    seq(|s|, i requires 0 <= i < |s| => LowerChar(s[i]))
  }

  lemma LowerUnchanged(s: string)
    requires forall i :: 0 <= i < |s| ==> !('A' <= s[i] <= 'Z')
    ensures Lower(s) == s
  {
  }

  /** The ASCII digits, standing for `\d` and for what `int()` accepts. */
  predicate IsDigit(c: char) {
    '0' <= c <= '9'
  }

  predicate AllDigits(s: string) {
    forall i :: 0 <= i < |s| ==> IsDigit(s[i])
  }

  function DigitValue(c: char): (d: nat)
    requires IsDigit(c)
    ensures d < 10
  {
    c as int - '0' as int
  }

  function DigitChar(d: nat): (c: char)
    requires d < 10
    ensures IsDigit(c) && DigitValue(c) == d
  {
    ('0' as int + d) as char
  }

  function Pow10(n: nat): nat {
    if n == 0 then 1 else 10 * Pow10(n - 1)
  }

  /** `int(s)` for a run of decimal digits (leading zeros allowed, as in Python): a number
      written with `|s|` digits, so below `10^|s|`. */
  function DecimalValue(s: string): (r: nat)
    requires AllDigits(s)
    ensures r < Pow10(|s|)
  {
    if s == [] then 0
    else
      var v := DecimalValue(s[..|s| - 1]);
      assert v + 1 <= Pow10(|s| - 1);
      assert 10 * v + 10 <= 10 * Pow10(|s| - 1);
      10 * v + DigitValue(s[|s| - 1])
  }

  lemma DecimalValueSnoc(s: string, c: char)
    requires AllDigits(s) && IsDigit(c)
    ensures DecimalValue(s + [c]) == 10 * DecimalValue(s) + DigitValue(c)
  {
    assert (s + [c])[..|s|] == s;
  }

  /** A digit run as `str()` writes it: no leading zero unless it is `0` itself. */
  predicate IsCanonicalDecimal(s: string) {
    s != [] && AllDigits(s) && (|s| == 1 || s[0] != '0')
  }

  /** `str(n)` for a non-negative integer. */
  function NatToString(n: nat): (r: string)
    ensures IsCanonicalDecimal(r)
  {
    if n < 10 then [DigitChar(n)] else NatToString(n / 10) + [DigitChar(n % 10)]
  }

  /** `str(i)` for any integer; the model only formats positive ones. */
  function IntToString(i: int): (r: string)
    ensures r != []
    ensures forall k :: 0 <= k < |r| ==> IsDigit(r[k]) || r[k] == '-'
  {
    if i < 0 then "-" + NatToString(-i) else NatToString(i)
  }

  /** `int(str(n)) == n`. */
  lemma {:induction false} NatToStringRoundTrip(n: nat)
    ensures DecimalValue(NatToString(n)) == n
  {
    if n >= 10 {
      NatToStringRoundTrip(n / 10);
      var s := NatToString(n);
      assert s[..|s| - 1] == NatToString(n / 10);
    }
  }

  lemma {:induction false} LeadingNonZeroPositive(s: string)
    requires IsCanonicalDecimal(s) && s[0] != '0'
    ensures DecimalValue(s) > 0
  {
    if |s| > 1 {
      LeadingNonZeroPositive(s[..|s| - 1]);
    }
  }

  /** `str(int(s)) == s` for every digit run written without a leading zero. */
  lemma {:induction false} DecimalValueRoundTrip(s: string)
    requires IsCanonicalDecimal(s)
    ensures NatToString(DecimalValue(s)) == s
  {
    if |s| > 1 {
      var init := s[..|s| - 1];
      DecimalValueRoundTrip(init);
      LeadingNonZeroPositive(init);
      var v := DecimalValue(s);
      assert v / 10 == DecimalValue(init) && v % 10 == DigitValue(s[|s| - 1]);
      assert s == init + [s[|s| - 1]];
    }
  }

  /** Different integers are written differently. */
  lemma NatToStringInjective(m: nat, n: nat)
    requires NatToString(m) == NatToString(n)
    ensures m == n
  {
    NatToStringRoundTrip(m);
    NatToStringRoundTrip(n);
  }
}
