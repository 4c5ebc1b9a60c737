/** The pure decisions of the interactive loop: whether the operator asked to quit, whether a
    round has anything to generate, and the file name each generated image is saved under. */
module Session {
  import opened Options
  import opened PyText
  import opened Slug
  import opened JobFile

  /** The words that end the session, compared after stripping and lowercasing. */
  predicate QuitWord(w: string) {
    w == "q" || w == "quit" || w == "exit"
  }

  /** `cmd.strip().lower() in {"q", "quit", "exit"}`. */
  predicate IsQuit(cmd: string)
    ensures IsQuit(cmd) ==> |Strip(cmd)| == 1 || |Strip(cmd)| == 4
  {
    QuitWord(Lower(Strip(cmd)))
  }

  /** `cmd` is a quit word, in any letter case, padded with whitespace. */
  ghost predicate PaddedQuitWord(cmd: string, pre: string, word: string, post: string) {
    cmd == pre + word + post && AllSpace(pre) && AllSpace(post) && QuitWord(Lower(word))
  }

  lemma QuitWordEdges(word: string)
    requires QuitWord(Lower(word))
    ensures word != [] && !IsSpace(word[0]) && !IsSpace(word[|word| - 1])
  {
    var w := Lower(word);
    assert w[0] == LowerChar(word[0]);
    assert w[|w| - 1] == LowerChar(word[|word| - 1]);
  }

  /** The session ends exactly on a quit word, whatever its letter case and padding. */
  lemma QuitExactly(cmd: string)
    ensures IsQuit(cmd) <==> exists pre, word, post :: PaddedQuitWord(cmd, pre, word, post)
  {
    if IsQuit(cmd) {
      var parts := StripSplit(cmd, Whitespace);
      assert PaddedQuitWord(cmd, parts.0, parts.1, parts.2);
    }
    if exists pre, word, post :: PaddedQuitWord(cmd, pre, word, post) {
      var pre, word, post :| PaddedQuitWord(cmd, pre, word, post);
      QuitWordEdges(word);
      StripOfParts(pre, word, post, Whitespace);
    }
  }

  /** Pressing Enter on its own (or typing only spaces) starts a round. */
  lemma BlankInputProceeds(cmd: string)
    requires AllSpace(cmd)
    ensures !IsQuit(cmd)
  {
    assert cmd + [] + [] == cmd;
    StripOfParts(cmd, [], [], Whitespace);
  }

  /** What one pass of the loop does. */
  datatype Round = Quit | NoEntries | Generate(requests: seq<Request>)

  /** One pass of the `while True` loop for the operator's input `cmd` and the job file as it
      is on disk at that moment. */
  function NextRound(cmd: string, file: Option<seq<string>>): (r: Round)
    ensures r.Quit? <==> IsQuit(cmd)
    ensures r.NoEntries? <==> !IsQuit(cmd) && Loaded(file) == []
    ensures r.Generate? ==> r.requests == Loaded(file) && r.requests != []
  {
    if IsQuit(cmd) then Quit
    else
      var items := Loaded(file);
      if items == [] then NoEntries else Generate(items)
  }

  /** A quit word ends the session without looking at the job file. */
  lemma QuitIgnoresFile(cmd: string, file1: Option<seq<string>>, file2: Option<seq<string>>)
    requires IsQuit(cmd)
    ensures NextRound(cmd, file1) == NextRound(cmd, file2) == Quit
  {
  }

  /** A missing job file skips the round; it does not end the session. */
  lemma MissingFileSkipsRound(cmd: string)
    requires !IsQuit(cmd)
    ensures NextRound(cmd, None) == NoEntries
  {
  }

  /** A job file with only blank lines, comments and empty prompts skips the round. */
  lemma NothingAcceptedSkipsRound(cmd: string, lines: seq<string>)
    requires !IsQuit(cmd)
    requires forall j :: 0 <= j < |lines| ==> RequestOf(lines[j]) == None
    ensures NextRound(cmd, Some(lines)) == NoEntries
  {
    NoLinesAccepted(lines);
  }

  /** Every round that generates runs only valid requests, in file order. */
  lemma GeneratedRequestsValid(cmd: string, file: Option<seq<string>>)
    requires NextRound(cmd, file).Generate?
    ensures forall k :: 0 <= k < |NextRound(cmd, file).requests| ==>
      ValidRequest(NextRound(cmd, file).requests[k])
  {
    RequestsValid(file.value);
  }

  /** The part of the file name shared by all images of one request: `ts_WxH_slug_`. */
  function NamePrefix(ts: string, q: Request): string {
    ts + "_" + IntToString(q.width) + "x" + IntToString(q.height) + "_"
      + Slugify(q.prompt, DefaultMaxLen) + "_"
  }

  /** The name image `i` (counted from 0) of request `q` is saved under, the request having
      been timestamped `ts`: `ts_WxH_slug_n.png` with `n = i + 1`. */
  function ImageFileName(ts: string, q: Request, i: nat): (r: string)
    ensures |r| > |ts|
    ensures |r| > 4 && r[|r| - 4..] == ".png"
  {
    NamePrefix(ts, q) + NatToString(i + 1) + ".png"
  }

  lemma CancelAround(p: string, a: string, b: string, s: string)
    requires p + a + s == p + b + s
    ensures a == b
  {
    assert |a| == |b|;
    assert a == (p + a + s)[|p|..|p| + |a|];
    assert b == (p + b + s)[|p|..|p| + |b|];
  }

  /** Within one request the names differ exactly when the image indexes do. */
  lemma FileNamesDistinct(ts: string, q: Request, i: nat, j: nat)
    ensures ImageFileName(ts, q, i) == ImageFileName(ts, q, j) <==> i == j
  {
    IndexSeparatesNames(NamePrefix(ts, q), i, j);
  }

  lemma IndexSeparatesNames(prefix: string, i: nat, j: nat)
    ensures prefix + NatToString(i + 1) + ".png" == prefix + NatToString(j + 1) + ".png" <==> i == j
  {
    if prefix + NatToString(i + 1) + ".png" == prefix + NatToString(j + 1) + ".png" {
      CancelAround(prefix, NatToString(i + 1), NatToString(j + 1), ".png");
      NatToStringInjective(i + 1, j + 1);
    }
  }

  /** The names of the `count` images of one request, in the order they are saved. */
  function RequestFileNames(ts: string, q: Request, count: nat): (r: seq<string>)
    ensures |r| == count
    ensures forall i :: 0 <= i < count ==> r[i] == ImageFileName(ts, q, i)
    ensures forall i, j :: 0 <= i < j < count ==> r[i] != r[j]
  {
    forall i: nat, j: nat | i < j < count {
      FileNamesDistinct(ts, q, i, j);
    }
    seq(count, i requires 0 <= i < count => ImageFileName(ts, q, i))
  }

  lemma TakeOfAppend(a: string, b: string, k: nat)
    requires k <= |a|
    ensures (a + b)[..k] == a[..k]
  {
  }

  lemma NameStartsWithStamp(ts: string, q: Request, i: nat)
    ensures ImageFileName(ts, q, i)[..|ts|] == ts
  {
    var w := IntToString(q.width);
    var h := IntToString(q.height);
    var slug := Slugify(q.prompt, DefaultMaxLen);
    var n := NatToString(i + 1);
    var k := |ts|;
    TakeOfAppend(ts + "_" + w + "x" + h + "_" + slug + "_" + n, ".png", k);
    TakeOfAppend(ts + "_" + w + "x" + h + "_" + slug + "_", n, k);
    TakeOfAppend(ts + "_" + w + "x" + h + "_" + slug, "_", k);
    TakeOfAppend(ts + "_" + w + "x" + h + "_", slug, k);
    TakeOfAppend(ts + "_" + w + "x" + h, "_", k);
    TakeOfAppend(ts + "_" + w + "x", h, k);
    TakeOfAppend(ts + "_" + w, "x", k);
    TakeOfAppend(ts + "_", w, k);
    TakeOfAppend(ts, "_", k);
    assert ts[..k] == ts;
  }

  /** Requests timestamped differently (the timestamps having one width, as `%Y%m%d_%H%M%S`
      gives) never share a file name. */
  lemma StampsSeparateNames(ts1: string, ts2: string, q1: Request, q2: Request, i: nat, j: nat)
    requires |ts1| == |ts2| && ts1 != ts2
    ensures ImageFileName(ts1, q1, i) != ImageFileName(ts2, q2, j)
  {
    NameStartsWithStamp(ts1, q1, i);
    NameStartsWithStamp(ts2, q2, j);
  }

  predicate NoSlash(s: string) {
    forall k :: 0 <= k < |s| ==> s[k] != '/'
  }

  lemma NoSlashConcat(a: string, b: string)
    requires NoSlash(a) && NoSlash(b)
    ensures NoSlash(a + b)
  {
    forall k | 0 <= k < |a + b| ensures (a + b)[k] != '/' {
      if k < |a| {
        assert (a + b)[k] == a[k];
      } else {
        assert (a + b)[k] == b[k - |a|];
      }
    }
  }

  lemma NoSlashJoin(ts: string, w: string, h: string, slug: string, n: string)
    requires NoSlash(ts) && NoSlash(w) && NoSlash(h) && NoSlash(slug) && NoSlash(n)
    ensures NoSlash(ts + "_" + w + "x" + h + "_" + slug + "_" + n + ".png")
  {
    assert NoSlash("_") && NoSlash("x") && NoSlash(".png");
    NoSlashConcat(ts, "_");
    NoSlashConcat(ts + "_", w);
    NoSlashConcat(ts + "_" + w, "x");
    NoSlashConcat(ts + "_" + w + "x", h);
    NoSlashConcat(ts + "_" + w + "x" + h, "_");
    NoSlashConcat(ts + "_" + w + "x" + h + "_", slug);
    NoSlashConcat(ts + "_" + w + "x" + h + "_" + slug, "_");
    NoSlashConcat(ts + "_" + w + "x" + h + "_" + slug + "_", n);
    NoSlashConcat(ts + "_" + w + "x" + h + "_" + slug + "_" + n, ".png");
  }

  /** When the timestamp holds no `/`, neither does the name, so joining it to the output
      directory names a file directly inside that directory. */
  lemma FileNameStaysInDirectory(ts: string, q: Request, i: nat)
    requires NoSlash(ts)
    ensures NoSlash(ImageFileName(ts, q, i))
  {
    var w := IntToString(q.width);
    var h := IntToString(q.height);
    var slug := Slugify(q.prompt, DefaultMaxLen);
    var n := NatToString(i + 1);
    IntNoSlash(q.width);
    IntNoSlash(q.height);
    IntNoSlash(i + 1);
    SlugNoSlash(q.prompt);
    NoSlashJoin(ts, w, h, slug, n);
  }

  lemma IntNoSlash(k: int)
    ensures NoSlash(IntToString(k))
    ensures k >= 0 ==> NoSlash(NatToString(k))
  {
  }

  lemma SlugCharsNoSlash(s: string)
    requires AllSlugChars(s)
    ensures NoSlash(s)
  {
  }

  lemma SlugNoSlash(prompt: string)
    ensures NoSlash(Slugify(prompt, DefaultMaxLen))
  {
    SlugCharsNoSlash(Slugify(prompt, DefaultMaxLen));
  }

  /** A letter followed by one character that is neither allowed in a slug nor whitespace
      slugs to the letter alone. */
  lemma SlugOfLetterAndMark(c: char, d: char)
    requires 'a' <= c <= 'z' && !IsSlugChar(d) && !IsSpace(d)
    ensures Slugify([c, d], DefaultMaxLen) == [c]
  {
    var s := [c, d];
    StripNoPadding(s, Whitespace);
    assert SlugSource(s, DefaultMaxLen) == s;
    assert s[1..] == [d];
    assert ReplaceDisallowed([d]) == "_";
    assert ReplaceDisallowed(s) == [c, '_'];
    assert CollapseUnderscores([c, '_']) == [c, '_'];
    assert [] + [c] + "_" == [c, '_'];
    StripOfParts([], [c], "_", Underscores);
  }

  /** Names are not unique across requests: two different prompts at the same size and
      timestamp, such as `a!` and `a?`, are saved under the same names, the second
      overwriting the first. */
  lemma SameStampCanCollide(ts: string, c: char, d1: char, d2: char, width: int, height: int, i: nat)
    requires 'a' <= c <= 'z' && d1 != d2
    requires !IsSlugChar(d1) && !IsSpace(d1) && !IsSlugChar(d2) && !IsSpace(d2)
    ensures Request([c, d1], width, height) != Request([c, d2], width, height)
    ensures ImageFileName(ts, Request([c, d1], width, height), i)
      == ImageFileName(ts, Request([c, d2], width, height), i)
  {
    SlugOfLetterAndMark(c, d1);
    SlugOfLetterAndMark(c, d2);
    SameSlugSameName(ts, Request([c, d1], width, height), Request([c, d2], width, height), i);
  }

  lemma SameSlugSameName(ts: string, q1: Request, q2: Request, i: nat)
    requires q1.width == q2.width && q1.height == q2.height
    requires Slugify(q1.prompt, DefaultMaxLen) == Slugify(q2.prompt, DefaultMaxLen)
    ensures ImageFileName(ts, q1, i) == ImageFileName(ts, q2, i)
  {
  }
}
