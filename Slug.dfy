/** `slugify`: turns a prompt into a short, filesystem-safe description for the names of
    the files its images are saved under. */
module Slug {
  import opened PyText

  /** The default `max_len`. */
  const DefaultMaxLen: int := 40

  /** What `slugify` returns when nothing usable is left. */
  const Fallback: string := "image"

  /** `\w`, restricted to ASCII: letters, digits and the underscore. */
  predicate IsWordChar(c: char) {
    'a' <= c <= 'z' || 'A' <= c <= 'Z' || IsDigit(c) || c == '_'
  }

  /** The range `一-龥` of the slug's character class: U+4E00 to U+9FA5 (not the whole
      CJK Unified Ideographs block, which runs to U+9FFF). */
  predicate IsHanRange(c: char) {
    '\U{4E00}' <= c <= '\U{9FA5}'
  }

  /** The class `[\w\-一-龥]`: the characters a slug may contain. */
  predicate IsSlugChar(c: char) {
    IsWordChar(c) || c == '-' || IsHanRange(c)
  }

  predicate AllSlugChars(s: string) {
    forall i :: 0 <= i < |s| ==> IsSlugChar(s[i])
  }

  predicate NoDoubleUnderscore(s: string) {
    forall i :: 0 <= i < |s| - 1 ==> !(s[i] == '_' && s[i + 1] == '_')
  }

  /** The characters of `s` a slug keeps as they are: slug characters other than `_`,
      in their order. */
  function Kept(s: string): (r: string)
    ensures |r| <= |s|
  {
    if s == [] then []
    else (if IsSlugChar(s[0]) && s[0] != '_' then [s[0]] else []) + Kept(s[1..])
  }

  lemma {:induction false} KeptConcat(a: string, b: string)
    ensures Kept(a + b) == Kept(a) + Kept(b)
  {
    if a == [] {
      assert a + b == b;
    } else {
      assert (a + b)[0] == a[0];
      assert (a + b)[1..] == a[1..] + b;
      KeptConcat(a[1..], b);
    }
  }

  lemma {:induction false} KeptUnderscores(s: string)
    requires AllIn(s, Underscores)
    ensures Kept(s) == []
  {
    if s != [] {
      assert InSet(s[0], Underscores);
      KeptUnderscores(s[1..]);
    }
  }

  /** Python's `s[:n]`, where a negative `n` counts from the end. */
  function PyPrefix(s: string, n: int): (r: string)
    ensures |r| <= |s| && r == s[..|r|]
    ensures 0 <= n ==> |r| <= n
  {
    if 0 <= n then (if n <= |s| then s[..n] else s)
    else if 0 <= |s| + n then s[..|s| + n]
    else []
  }

  /** The first step of `slugify`: `text` stripped and cut to `maxLen` characters. */
  function SlugSource(text: string, maxLen: int): (r: string)
    ensures |r| <= |text|
    ensures 0 <= maxLen ==> |r| <= maxLen
  {
    var t := Strip(text);
    if |t| > maxLen then PyPrefix(t, maxLen) else t
  }

  /** `re.sub(r"[^\w\-一-龥]+", "_", s)`: every maximal run of characters outside the
      class becomes one `_` (the last character of a run emits it). Characters of the class
      are kept, so clean text is left as it is. */
  function ReplaceDisallowed(s: string): (r: string)
    ensures AllSlugChars(r)
    ensures |r| <= |s|
    ensures Kept(r) == Kept(s)
    ensures AllSlugChars(s) ==> r == s
  {
    if s == [] then []
    else if IsSlugChar(s[0]) then
      var t := ReplaceDisallowed(s[1..]);
      assert ([s[0]] + t)[1..] == t;
      [s[0]] + t
    else if |s| > 1 && !IsSlugChar(s[1]) then ReplaceDisallowed(s[1..])
    else
      var t := ReplaceDisallowed(s[1..]);
      assert ("_" + t)[1..] == t;
      "_" + t
  }

  /** `re.sub(r"_+", "_", s)`: every run of underscores becomes one. Nothing else changes,
      so text without a doubled underscore is left as it is. */
  function CollapseUnderscores(s: string): (r: string)
    ensures |r| <= |s|
    ensures s != [] ==> r != [] && r[0] == s[0]
    ensures AllSlugChars(s) ==> AllSlugChars(r)
    ensures NoDoubleUnderscore(r)
    ensures Kept(r) == Kept(s)
    ensures NoDoubleUnderscore(s) ==> r == s
  {
    if |s| <= 1 then s
    else if s[0] == '_' && s[1] == '_' then CollapseUnderscores(s[1..])
    else
      var t := CollapseUnderscores(s[1..]);
      assert ([s[0]] + t)[1..] == t;
      [s[0]] + t
  }

  /** No character of `d` is allowed in a slug. */
  predicate AllDisallowed(d: string) {
    forall k :: 0 <= k < |d| ==> !IsSlugChar(d[k])
  }

  /** Slug characters in front are copied unchanged. */
  lemma {:induction false} ReplaceKeepsPrefix(a: string, t: string)
    requires AllSlugChars(a)
    ensures ReplaceDisallowed(a + t) == a + ReplaceDisallowed(t)
  {
    if a == [] {
      assert a + t == t;
    } else {
      SlugCharsTail(a);
      ReplaceKeepsPrefix(a[1..], t);
      ReplaceFirstSlugChar(a, t);
      ConcatAssoc([a[0]], a[1..], ReplaceDisallowed(t));
      assert [a[0]] + a[1..] == a;
    }
  }

  lemma SlugCharsTail(a: string)
    requires a != [] && AllSlugChars(a)
    ensures IsSlugChar(a[0]) && AllSlugChars(a[1..])
  {
    forall k | 0 <= k < |a| - 1 ensures IsSlugChar(a[1..][k]) {
      assert a[1..][k] == a[k + 1];
    }
  }

  lemma ReplaceFirstSlugChar(a: string, t: string)
    requires a != [] && IsSlugChar(a[0])
    ensures ReplaceDisallowed(a + t) == [a[0]] + ReplaceDisallowed(a[1..] + t)
  {
    var s := a + t;
    assert s[0] == a[0] && s[1..] == a[1..] + t;
  }

  lemma {:induction false} ReplaceRunOfDisallowed(d: string, b: string)
    requires d != [] && AllDisallowed(d)
    requires b == [] || IsSlugChar(b[0])
    ensures ReplaceDisallowed(d + b) == "_" + ReplaceDisallowed(b)
  {
    var s := d + b;
    assert s[0] == d[0];
    assert s[1..] == d[1..] + b;
    if |d| == 1 {
      assert d[1..] + b == b;
    } else {
      assert s[1] == d[1];
      ReplaceRunOfDisallowed(d[1..], b);
    }
  }

  /** A maximal run of disallowed characters, whatever its length, becomes exactly one `_`
      in its place: word breaks of the prompt show up as `_`. */
  lemma ReplaceRun(a: string, d: string, b: string)
    requires AllSlugChars(a)
    requires d != [] && AllDisallowed(d)
    requires b == [] || IsSlugChar(b[0])
    ensures ReplaceDisallowed(a + d + b) == a + "_" + ReplaceDisallowed(b)
  {
    ConcatAssoc(a, d, b);
    ReplaceKeepsPrefix(a, d + b);
    ReplaceRunOfDisallowed(d, b);
    ConcatAssoc(a, "_", ReplaceDisallowed(b));
  }

  /** Characters other than `_` in front are copied unchanged. */
  lemma {:induction false} CollapseKeepsPrefix(a: string, t: string)
    requires '_' !in a
    ensures CollapseUnderscores(a + t) == a + CollapseUnderscores(t)
  {
    if a == [] {
      assert a + t == t;
    } else {
      assert a == [a[0]] + a[1..];
      CollapseKeepsPrefix(a[1..], t);
      CollapseFirstOther(a, t);
      ConcatAssoc([a[0]], a[1..], CollapseUnderscores(t));
    }
  }

  lemma CollapseFirstOther(a: string, t: string)
    requires a != [] && a[0] != '_'
    ensures CollapseUnderscores(a + t) == [a[0]] + CollapseUnderscores(a[1..] + t)
  {
    var s := a + t;
    assert s[0] == a[0] && s[1..] == a[1..] + t;
    if |s| == 1 {
      assert s == [a[0]] && a[1..] + t == [];
    }
  }

  lemma {:induction false} CollapseRunOfUnderscores(u: string, b: string)
    requires u != [] && AllIn(u, Underscores)
    requires b == [] || b[0] != '_'
    ensures CollapseUnderscores(u + b) == "_" + CollapseUnderscores(b)
  {
    var s := u + b;
    assert s[0] == u[0] == '_';
    assert s[1..] == u[1..] + b;
    if |u| == 1 {
      assert u[1..] + b == b;
      if b == [] {
        assert s == "_";
      } else {
        assert s[1] == b[0];
      }
    } else {
      assert s[1] == u[1] == '_';
      CollapseRunOfUnderscores(u[1..], b);
    }
  }

  /** A run of underscores, whatever its length, becomes exactly one `_` in its place. */
  lemma CollapseRun(a: string, u: string, b: string)
    requires '_' !in a
    requires u != [] && AllIn(u, Underscores)
    requires b == [] || b[0] != '_'
    ensures CollapseUnderscores(a + u + b) == a + "_" + CollapseUnderscores(b)
  {
    ConcatAssoc(a, u, b);
    CollapseKeepsPrefix(a, u + b);
    CollapseRunOfUnderscores(u, b);
    ConcatAssoc(a, "_", CollapseUnderscores(b));
  }

  /** The text `slugify` returns unless it is empty. */
  function Cleaned(text: string, maxLen: int): string {
    StripChars(CollapseUnderscores(ReplaceDisallowed(SlugSource(text, maxLen))), Underscores)
  }

  /** A piece of a text keeps the text's class and its lack of doubled underscores. */
  lemma InfixShape(p: string, c: string, q: string)
    ensures AllSlugChars(p + c + q) ==> AllSlugChars(c)
    ensures NoDoubleUnderscore(p + c + q) ==> NoDoubleUnderscore(c)
  {
    var x := p + c + q;
    assert forall i :: 0 <= i < |c| ==> c[i] == x[|p| + i];
  }

  lemma KeptOfParts(p: string, c: string, q: string)
    requires AllIn(p, Underscores) && AllIn(q, Underscores)
    ensures Kept(p + c + q) == Kept(c)
  {
    KeptConcat(p + c, q);
    KeptConcat(p, c);
    KeptUnderscores(p);
    KeptUnderscores(q);
    assert [] + Kept(c) + [] == Kept(c);
  }

  lemma KeptStartsWith(c: string)
    requires c != [] && IsSlugChar(c[0]) && c[0] != '_'
    ensures Kept(c) != []
  {
  }

  /** What is left between the stripped underscores keeps the class, has no doubled
      underscore, keeps every kept character, and is empty exactly when none is kept. */
  lemma CleanedShape(x: string)
    requires AllSlugChars(x) && NoDoubleUnderscore(x)
    ensures var c := StripChars(x, Underscores);
      && AllSlugChars(c) && NoDoubleUnderscore(c)
      && Kept(c) == Kept(x)
      && (c == [] <==> Kept(x) == [])
  {
    var parts := StripSplit(x, Underscores);
    InfixShape(parts.0, parts.1, parts.2);
    KeptOfParts(parts.0, parts.1, parts.2);
    if parts.1 != [] {
      KeptStartsWith(parts.1);
    }
  }

  lemma FallbackShape()
    ensures AllSlugChars(Fallback) && NoDoubleUnderscore(Fallback)
    ensures Fallback[0] != '_' && Fallback[|Fallback| - 1] != '_'
  {
  }

  /** `slugify(text, max_len)`. */
  function Slugify(text: string, maxLen: int): (r: string)
    ensures r != [] && AllSlugChars(r) && NoDoubleUnderscore(r)
    ensures r[0] != '_' && r[|r| - 1] != '_'
    ensures Kept(SlugSource(text, maxLen)) == [] ==> r == Fallback
    ensures Kept(SlugSource(text, maxLen)) != [] ==>
      Kept(r) == Kept(SlugSource(text, maxLen)) && |r| <= |SlugSource(text, maxLen)| <= |text|
    ensures 0 <= maxLen ==> |r| <= maxLen || r == Fallback
  {
    var source := SlugSource(text, maxLen);
    var x := CollapseUnderscores(ReplaceDisallowed(source));
    CleanedShape(x);
    FallbackShape();
    var c := StripChars(x, Underscores);
    if c == [] then Fallback else c
  }

  /** The fallback is taken exactly when nothing survives cleaning, which is exactly when
      the shortened text holds no letter, digit, `-` or Han character. */
  lemma CleanedEmptyExactly(text: string, maxLen: int)
    ensures Cleaned(text, maxLen) == [] <==> Kept(SlugSource(text, maxLen)) == []
  {
    CleanedShape(CollapseUnderscores(ReplaceDisallowed(SlugSource(text, maxLen))));
  }

  lemma SlugCharsAreNotSpace(s: string)
    requires AllSlugChars(s)
    ensures forall i :: 0 <= i < |s| ==> !IsSpace(s[i])
  {
  }

  /** A slug is its own slug: slugging is idempotent once `maxLen` leaves room for the
      fallback. */
  lemma SlugifyIdempotent(text: string, maxLen: int)
    requires |Fallback| <= maxLen
    ensures Slugify(Slugify(text, maxLen), maxLen) == Slugify(text, maxLen)
  {
    var r := Slugify(text, maxLen);
    SlugCharsAreNotSpace(r);
    StripNoPadding(r, Whitespace);
    assert SlugSource(r, maxLen) == r;
    StripNoPadding(r, Underscores);
    assert Cleaned(r, maxLen) == r;
  }
}
