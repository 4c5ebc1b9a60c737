/** `parse_size`: reads a size token such as `1024x1344` as (width, height), falling back
    to the default 1024x1024 when the token is malformed or a dimension is too small. */
module SizeParser {
  import opened Options
  import opened PyText

  const DefaultWidth: int := 1024
  const DefaultHeight: int := 1024

  /** A dimension must exceed this to be accepted. */
  const MinDimension: int := 30

  /** The class `[Xx×]` of the size regex. */
  predicate IsSeparator(c: char) {
    c == 'X' || c == 'x' || c == '×'
  }

  /** The pieces of a match of `^(\d+)\s*[Xx×]\s*(\d+)$`: the two digit groups, the two
      runs of whitespace and the separator. */
  datatype SizeMatch = SizeMatch(width: string, gap1: string, sep: char, gap2: string, height: string)
  {
    predicate Valid() {
      && width != [] && AllDigits(width)
      && AllSpace(gap1) && IsSeparator(sep) && AllSpace(gap2)
      && height != [] && AllDigits(height)
    }

    /** The text the match covers. */
    function Text(): string {
      width + gap1 + [sep] + gap2 + height
    }
  }

  /** The longest prefix of ASCII digits (what the greedy `\d+` takes) and the rest. */
  function SplitDigits(s: string): (r: (string, string))
    ensures r.0 + r.1 == s && AllDigits(r.0)
    ensures r.1 == [] || !IsDigit(r.1[0])
  {
    if s == [] || !IsDigit(s[0]) then ([], s)
    else
      var t := SplitDigits(s[1..]);
      assert s == [s[0]] + s[1..];
      ([s[0]] + t.0, t.1)
  }

  lemma {:induction false} SplitDigitsUnique(a: string, b: string)
    requires AllDigits(a)
    requires b == [] || !IsDigit(b[0])
    ensures SplitDigits(a + b) == (a, b)
  {
    if a == [] {
      assert a + b == b;
    } else {
      var s := a + b;
      assert s[0] == a[0];
      assert s[1..] == a[1..] + b;
      SplitDigitsUnique(a[1..], b);
      assert [a[0]] + a[1..] == a;
    }
  }

  lemma Reassemble(s: string, w: string, rest: string, gap1: string, afterGap1: string, gap2: string, h: string)
    requires s == w + rest && rest == gap1 + afterGap1
    requires afterGap1 != [] && afterGap1[1..] == gap2 + h
    ensures s == w + gap1 + [afterGap1[0]] + gap2 + h
  {
    assert afterGap1 == [afterGap1[0]] + afterGap1[1..];
  }

  /** Python's `re.match(r"^(\d+)\s*[Xx×]\s*(\d+)$", s)`.
      (`$` would also match before a final newline; the argument is always stripped.) */
  function MatchSize(s: string): (r: Option<SizeMatch>)
    ensures r.Some? ==> r.value.Valid() && r.value.Text() == s
  {
    var digits := SplitDigits(s);
    var spaces := SplitLeft(digits.1, Whitespace);
    if digits.0 == [] || spaces.1 == [] || !IsSeparator(spaces.1[0]) then None
    else
      var spaces2 := SplitLeft(spaces.1[1..], Whitespace);
      if spaces2.1 == [] || !AllDigits(spaces2.1) then None
      else
        Reassemble(s, digits.0, digits.1, spaces.0, spaces.1, spaces2.0, spaces2.1);
        Some(SizeMatch(digits.0, spaces.0, spaces.1[0], spaces2.0, spaces2.1))
  }

  lemma SplitWidth(m: SizeMatch)
    requires m.Valid()
    ensures SplitDigits(m.Text()) == (m.width, m.gap1 + ([m.sep] + m.gap2 + m.height))
  {
    var rest := m.gap1 + ([m.sep] + m.gap2 + m.height);
    assert m.Text() == m.width + rest;
    assert rest[0] == if m.gap1 == [] then m.sep else m.gap1[0];
    SplitDigitsUnique(m.width, rest);
  }

  lemma SplitHeight(m: SizeMatch)
    requires m.Valid()
    ensures SplitLeft(([m.sep] + m.gap2 + m.height)[1..], Whitespace) == (m.gap2, m.height)
  {
    assert ([m.sep] + m.gap2 + m.height)[1..] == m.gap2 + m.height;
    assert !IsSpace(m.height[0]);
    SplitLeftUnique(m.gap2, m.height, Whitespace);
  }

  /** Every text of the grammar is recognised, and split exactly as it was built:
      with the ensures of `MatchSize` this makes `MatchSize(s)` the one and only way to
      read `s` as a size token. */
  lemma MatchSizeComplete(m: SizeMatch)
    requires m.Valid()
    ensures MatchSize(m.Text()) == Some(m)
  {
    SplitWidth(m);
    SplitLeftUnique(m.gap1, [m.sep] + m.gap2 + m.height, Whitespace);
    SplitHeight(m);
  }

  /** `parse_size(token)`. Both components of the result always exceed `MinDimension`. */
  function ParseSize(token: string): (r: (int, int))
    ensures r.0 > MinDimension && r.1 > MinDimension
  {
    match MatchSize(Lower(Strip(token)))
    case None => (DefaultWidth, DefaultHeight)
    case Some(m) =>
      var w := DecimalValue(m.width);
      var h := DecimalValue(m.height);
      if w <= MinDimension || h <= MinDimension then (DefaultWidth, DefaultHeight) else (w, h)
  }

  /** `m` is a reading of `token` (stripped and lowercased) with both numbers above the floor. */
  ghost predicate AcceptedAs(token: string, m: SizeMatch) {
    && m.Valid() && m.Text() == Lower(Strip(token))
    && DecimalValue(m.width) > MinDimension && DecimalValue(m.height) > MinDimension
  }

  /** A token that, stripped and lowercased, is in the grammar with both numbers above the
      floor yields exactly those numbers, width first. */
  lemma ParseSizeAccepts(token: string, m: SizeMatch)
    requires AcceptedAs(token, m)
    ensures ParseSize(token) == (DecimalValue(m.width), DecimalValue(m.height))
  {
    MatchSizeComplete(m);
  }

  /** A token in the grammar with a dimension at or below the floor yields the default. */
  lemma ParseSizeTooSmall(token: string, m: SizeMatch)
    requires m.Valid() && m.Text() == Lower(Strip(token))
    requires DecimalValue(m.width) <= MinDimension || DecimalValue(m.height) <= MinDimension
    ensures ParseSize(token) == (DefaultWidth, DefaultHeight)
  {
    MatchSizeComplete(m);
  }

  /** A token outside the grammar yields the default. */
  lemma ParseSizeMismatch(token: string)
    requires forall m: SizeMatch :: m.Valid() ==> m.Text() != Lower(Strip(token))
    ensures ParseSize(token) == (DefaultWidth, DefaultHeight)
  {
  }

  /** Every result other than the default comes from a reading of the token. */
  lemma ParseSizeOrigin(token: string)
    ensures ParseSize(token) == (DefaultWidth, DefaultHeight)
      || exists m: SizeMatch :: AcceptedAs(token, m)
           && ParseSize(token) == (DecimalValue(m.width), DecimalValue(m.height))
  {
    var r := MatchSize(Lower(Strip(token)));
    if r.Some? && AcceptedAs(token, r.value) {
      assert ParseSize(token) == (DecimalValue(r.value.width), DecimalValue(r.value.height));
    } else {
      assert ParseSize(token) == (DefaultWidth, DefaultHeight);
    }
  }

  /** A token whose first visible character is not a digit is never a size: whatever
      whitespace `pre` comes before it, it yields the default. */
  lemma ParseSizeNonDigitStart(pre: string, token: string)
    requires AllSpace(pre)
    requires token != [] && !IsSpace(token[0]) && !IsDigit(token[0])
    ensures ParseSize(pre + token) == (DefaultWidth, DefaultHeight)
  {
    assert ParseSize(pre + token) == ParseSize(token) by {
      assert pre + token + [] == pre + token;
      ParseSizeIgnoresPadding(pre, token, []);
    }
    StripKeepsFirst(token);
    var s := Lower(Strip(token));
    assert !IsDigit(s[0]);
    assert SplitDigits(s).0 == [];
  }

  /** Whitespace around the token does not change its reading. */
  lemma ParseSizeIgnoresPadding(pre: string, token: string, post: string)
    requires AllSpace(pre) && AllSpace(post)
    ensures ParseSize(pre + token + post) == ParseSize(token)
  {
    StripPadding(pre, token, post, Whitespace);
  }

  lemma ParseSizeTrailingSpace(token: string)
    ensures ParseSize(token + " ") == ParseSize(token)
  {
    assert AllSpace([]) && AllSpace(" ");
    assert [] + token + " " == token + " ";
    ParseSizeIgnoresPadding([], token, " ");
  }

  lemma Value1024()
    ensures DecimalValue("1024") == 1024
  {
    DecimalValueSnoc("1", '0');
    assert "10" == "1" + ['0'];
    DecimalValueSnoc("10", '2');
    assert "102" == "10" + ['2'];
    DecimalValueSnoc("102", '4');
    assert "1024" == "102" + ['4'];
  }

  lemma Value1344()
    ensures DecimalValue("1344") == 1344
  {
    DecimalValueSnoc("1", '3');
    assert "13" == "1" + ['3'];
    DecimalValueSnoc("13", '4');
    assert "134" == "13" + ['4'];
    DecimalValueSnoc("134", '4');
    assert "1344" == "134" + ['4'];
  }

  lemma CleanToken(s: string)
    requires s != [] && !IsSpace(s[0]) && !IsSpace(s[|s| - 1])
    requires forall i :: 0 <= i < |s| ==> !('A' <= s[i] <= 'Z')
    ensures Lower(Strip(s)) == s
  {
    StripNoPadding(s, Whitespace);
    LowerUnchanged(s);
  }

  /** `1024x1344` is read as width 1024, height 1344. */
  lemma ScenarioExplicitSize()
    ensures ParseSize("1024x1344") == (1024, 1344)
  {
    var m := SizeMatch("1024", "", 'x', "", "1344");
    assert m.Valid();
    assert m.Text() == Lower(Strip("1024x1344")) by {
      assert m.Text() == "1024x1344";
      CleanToken("1024x1344");
    }
    assert DecimalValue(m.width) == 1024 && DecimalValue(m.height) == 1344 by {
      Value1024();
      Value1344();
    }
    ParseSizeAccepts("1024x1344", m);
  }
}
