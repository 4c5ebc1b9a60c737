/** `load_prompts`: reads the job file, one generation request per accepted line. A line is
    `size || prompt` or a bare prompt; blank lines, `#` comments and lines whose prompt is
    empty are skipped. */
module JobFile {
  import opened Options
  import opened PyText
  import opened SizeParser

  /** One entry of the job list: the prompt and the requested pixel size. */
  datatype Request = Request(prompt: string, width: int, height: int)

  /** What every loaded request satisfies: a non-empty prompt with no whitespace at either
      end, and a size above the floor of `parse_size`. */
  predicate ValidRequest(q: Request) {
    && q.prompt != [] && !IsSpace(q.prompt[0]) && !IsSpace(q.prompt[|q.prompt| - 1])
    && q.width > MinDimension && q.height > MinDimension
  }

  /** The delimiter `||` starts at position `j` of `s`. */
  predicate DelimiterAt(s: string, j: int) {
    0 <= j && j + 1 < |s| && s[j] == '|' && s[j + 1] == '|'
  }

  function FindDelimiterFrom(s: string, k: nat): (r: Option<nat>)
    requires k <= |s|
    ensures r.Some? ==> k <= r.value && DelimiterAt(s, r.value)
    ensures forall j :: k <= j && DelimiterAt(s, j) ==> r.Some? && r.value <= j
    decreases |s| - k
  {
    if k + 1 >= |s| then None
    else if s[k] == '|' && s[k + 1] == '|' then Some(k)
    else FindDelimiterFrom(s, k + 1)
  }

  /** Where `"||" in s` finds the delimiter and `s.split("||", 1)` cuts: its first occurrence,
      or `None` when `s` has none. */
  function FindDelimiter(s: string): (r: Option<nat>)
    ensures r.Some? ==> DelimiterAt(s, r.value)
    ensures forall j :: DelimiterAt(s, j) ==> r.Some? && r.value <= j
  {
    FindDelimiterFrom(s, 0)
  }

  /** The prompt and the size a non-comment line holds: `size || prompt` cut at the first
      delimiter, each side stripped, or the whole line as the prompt at the default size. */
  function LineFields(raw: string): (r: (string, (int, int)))
    ensures r.1.0 > MinDimension && r.1.1 > MinDimension
  {
    match FindDelimiter(raw)
    case Some(i) => (Strip(raw[i + 2..]), ParseSize(Strip(raw[..i])))
    case None => (raw, (DefaultWidth, DefaultHeight))
  }

  /** The request one line of the file contributes, if any. */
  function RequestOf(line: string): (r: Option<Request>)
    ensures r.Some? ==> ValidRequest(r.value)
  {
    var raw := Strip(line);
    if raw == [] || raw[0] == '#' then None
    else
      var fields := LineFields(raw);
      if fields.0 == [] then None else Some(Request(fields.0, fields.1.0, fields.1.1))
  }

  function Accepted(line: string): (r: seq<Request>)
    ensures |r| <= 1
  {
    match RequestOf(line)
    case None => []
    case Some(q) => [q]
  }

  /** The requests of a file with these lines, in file order. */
  function Requests(lines: seq<string>): (r: seq<Request>)
    ensures |r| <= |lines|
  {
    if lines == [] then []
    else Requests(lines[..|lines| - 1]) + Accepted(lines[|lines| - 1])
  }

  /** The result of `load_prompts` given the file's lines, or `None` when the file does not
      exist. */
  function Loaded(file: Option<seq<string>>): (r: seq<Request>)
    ensures file.None? ==> r == []
    ensures file.Some? ==> |r| <= |file.value|
  {
    match file
    case None => []
    case Some(lines) => Requests(lines)
  }

  lemma RequestsStep(lines: seq<string>, k: nat)
    requires k < |lines|
    ensures Requests(lines[..k + 1]) == Requests(lines[..k]) + Accepted(lines[k])
  {
    assert lines[..k + 1][..k] == lines[..k];
  }

  /** `load_prompts(path)`, with the file already read into `file`. */
  method LoadPrompts(file: Option<seq<string>>) returns (items: seq<Request>)
    ensures items == Loaded(file)
  {
    if file.None? {
      return [];
    }
    var lines := file.value;
    items := [];
    for k := 0 to |lines|
      invariant items == Requests(lines[..k])
    {
      RequestsStep(lines, k);
      var raw := Strip(lines[k]);
      if raw == [] {
        assert Accepted(lines[k]) == [];
        continue;
      }
      if raw[0] == '#' {
        assert Accepted(lines[k]) == [];
        continue;
      }
      var prompt: string;
      var width: int;
      var height: int;
      match FindDelimiter(raw) {
        case Some(i) =>
          var sizePart := Strip(raw[..i]);
          prompt := Strip(raw[i + 2..]);
          var size := ParseSize(sizePart);
          width, height := size.0, size.1;
        case None =>
          prompt := raw;
          width, height := DefaultWidth, DefaultHeight;
      }
      assert LineFields(raw) == (prompt, (width, height));
      if prompt == [] {
        assert Accepted(lines[k]) == [];
        continue;
      }
      assert Accepted(lines[k]) == [Request(prompt, width, height)];
      items := items + [Request(prompt, width, height)];
    }
    assert lines[..|lines|] == lines;
  }

  /** The requests of two consecutive stretches of lines are those of each, in order. */
  lemma {:induction false} RequestsConcat(a: seq<string>, b: seq<string>)
    ensures Requests(a + b) == Requests(a) + Requests(b)
  {
    if b == [] {
      assert a + b == a;
    } else {
      var init := b[..|b| - 1];
      assert (a + b)[..|a + b| - 1] == a + init;
      assert (a + b)[|a + b| - 1] == b[|b| - 1];
      RequestsConcat(a, init);
    }
  }

  lemma RequestsSingle(line: string)
    ensures Requests([line]) == Accepted(line)
  {
    assert [line][..0] == [];
  }

  /** Every request of the job list has a non-empty, stripped prompt and a size above the
      floor. */
  lemma {:induction false} RequestsValid(lines: seq<string>)
    ensures forall k :: 0 <= k < |Requests(lines)| ==> ValidRequest(Requests(lines)[k])
  {
    if lines != [] {
      RequestsValid(lines[..|lines| - 1]);
    }
  }

  /** A line that contributes nothing can be deleted without changing the job list. */
  lemma SkippedLineIgnored(a: seq<string>, line: string, b: seq<string>)
    requires RequestOf(line) == None
    ensures Requests(a + [line] + b) == Requests(a + b)
  {
    RequestsConcat(a + [line], b);
    RequestsConcat(a, [line]);
    RequestsSingle(line);
    RequestsConcat(a, b);
  }

  /** A line that contributes a request puts it exactly between the requests of the lines
      before it and those of the lines after it. */
  lemma AcceptedLineKept(a: seq<string>, line: string, b: seq<string>)
    requires RequestOf(line).Some?
    ensures Requests(a + [line] + b) == Requests(a) + [RequestOf(line).value] + Requests(b)
  {
    RequestsConcat(a + [line], b);
    RequestsConcat(a, [line]);
    RequestsSingle(line);
  }

  lemma LastSplit<T>(s: seq<T>)
    requires s != []
    ensures s == s[..|s| - 1] + [s[|s| - 1]]
  {
  }

  /** A file whose lines each give a request yields exactly those requests, line by line. */
  lemma {:induction false} AllLinesAccepted(lines: seq<string>, expected: seq<Request>)
    requires |expected| == |lines|
    requires forall j :: 0 <= j < |lines| ==> RequestOf(lines[j]) == Some(expected[j])
    ensures Requests(lines) == expected
  {
    if lines != [] {
      var n := |lines| - 1;
      assert forall j :: 0 <= j < n ==> lines[..n][j] == lines[j];
      AllLinesAccepted(lines[..n], expected[..n]);
      RequestsStep(lines, n);
      assert lines[..n + 1] == lines;
      assert Accepted(lines[n]) == [expected[n]];
      LastSplit(expected);
    }
  }

  /** A file in which no line gives a request (blank lines, comments, empty prompts) yields
      no request at all. */
  lemma {:induction false} NoLinesAccepted(lines: seq<string>)
    requires forall j :: 0 <= j < |lines| ==> RequestOf(lines[j]) == None
    ensures Requests(lines) == []
  {
    if lines != [] {
      var n := |lines| - 1;
      assert forall j :: 0 <= j < n ==> lines[..n][j] == lines[j];
      NoLinesAccepted(lines[..n]);
      assert Accepted(lines[n]) == [];
    }
  }

  /** Whitespace around a line does not matter. */
  lemma LinePaddingIgnored(pre: string, line: string, post: string)
    requires AllSpace(pre) && AllSpace(post)
    ensures RequestOf(pre + line + post) == RequestOf(line)
  {
    StripPadding(pre, line, post, Whitespace);
  }

  /** A blank line contributes nothing. */
  lemma BlankLineSkipped(line: string)
    requires AllSpace(line)
    ensures RequestOf(line) == None
  {
    assert line + [] + [] == line;
    StripOfParts(line, [], [], Whitespace);
  }

  /** A line whose first non-blank character is `#` contributes nothing. */
  lemma CommentLineSkipped(indent: string, rest: string)
    requires AllSpace(indent)
    ensures RequestOf(indent + "#" + rest) == None
  {
    assert AllSpace([]);
    assert indent + ("#" + rest) + [] == indent + "#" + rest;
    StripPadding(indent, "#" + rest, [], Whitespace);
    StripKeepsFirst("#" + rest);
  }

  /** The first delimiter is the one `FindDelimiter` reports. */
  lemma FirstDelimiter(s: string, j: nat)
    requires DelimiterAt(s, j)
    requires forall i :: 0 <= i < j ==> !DelimiterAt(s, i)
    ensures FindDelimiter(s) == Some(j)
  {
  }

  lemma DelimiterAfter(size: string, prompt: string)
    requires forall k :: 0 <= k < |size| ==> size[k] != '|'
    ensures FindDelimiter(size + "||" + prompt) == Some(|size|)
  {
    var line := size + "||" + prompt;
    assert DelimiterAt(line, |size|);
    forall i | 0 <= i < |size| ensures !DelimiterAt(line, i) {
      assert line[i] == size[i];
    }
    FirstDelimiter(line, |size|);
  }

  lemma FieldsOfDelimited(size: string, prompt: string)
    requires forall k :: 0 <= k < |size| ==> size[k] != '|'
    ensures LineFields(size + "||" + prompt) == (Strip(prompt), ParseSize(size))
  {
    var line := size + "||" + prompt;
    DelimiterAfter(size, prompt);
    assert line[..|size|] == size;
    assert line[|size| + 2..] == prompt;
    StripIdempotent(size);
  }

  /** `size || prompt`: the text left of the first delimiter is the size, the text right of
      it is the prompt; the line is skipped when the prompt is blank. */
  lemma DelimitedLine(size: string, prompt: string)
    requires forall k :: 0 <= k < |size| ==> size[k] != '|'
    requires size != [] ==> !IsSpace(size[0]) && size[0] != '#'
    requires prompt != [] ==> !IsSpace(prompt[|prompt| - 1])
    ensures RequestOf(size + "||" + prompt)
      == if Strip(prompt) == [] then None
         else Some(Request(Strip(prompt), ParseSize(size).0, ParseSize(size).1))
  {
    var line := size + "||" + prompt;
    assert line[0] == if size == [] then '|' else size[0];
    assert line[|line| - 1] == if prompt == [] then '|' else prompt[|prompt| - 1];
    StripNoPadding(line, Whitespace);
    FieldsOfDelimited(size, prompt);
  }

  /** A line holding only the delimiter, however padded, contributes nothing. */
  lemma BareDelimiterSkipped(pre: string, post: string)
    requires AllSpace(pre) && AllSpace(post)
    ensures RequestOf(pre + "||" + post) == None
  {
    LinePaddingIgnored(pre, "||", post);
    assert [] + "||" + [] == "||";
    DelimitedLine([], []);
  }

  /** A line without a delimiter is a prompt at the default size. */
  lemma PlainLine(text: string)
    requires text != [] && !IsSpace(text[0]) && !IsSpace(text[|text| - 1]) && text[0] != '#'
    requires forall j :: !DelimiterAt(text, j)
    ensures RequestOf(text) == Some(Request(text, DefaultWidth, DefaultHeight))
  {
    StripNoPadding(text, Whitespace);
  }

  /** A size the parser accepts sets the request's size; the prompt is the stripped right
      part. */
  lemma SizedLine(size: string, prompt: string, m: SizeMatch)
    requires forall k :: 0 <= k < |size| ==> size[k] != '|'
    requires size != [] && !IsSpace(size[0]) && size[0] != '#'
    requires prompt != [] && !IsSpace(prompt[|prompt| - 1]) && Strip(prompt) != []
    requires AcceptedAs(size, m)
    ensures RequestOf(size + "||" + prompt)
      == Some(Request(Strip(prompt), DecimalValue(m.width), DecimalValue(m.height)))
  {
    DelimitedLine(size, prompt);
    ParseSizeAccepts(size, m);
  }

  /** A size the parser rejects falls back to 1024x1024 but keeps the request. */
  lemma BrokenSizeLine(size: string, prompt: string)
    requires forall k :: 0 <= k < |size| ==> size[k] != '|'
    requires size != [] ==> !IsSpace(size[0]) && size[0] != '#'
    requires prompt != [] && !IsSpace(prompt[|prompt| - 1]) && Strip(prompt) != []
    requires ParseSize(size) == (DefaultWidth, DefaultHeight)
    ensures RequestOf(size + "||" + prompt)
      == Some(Request(Strip(prompt), DefaultWidth, DefaultHeight))
  {
    DelimitedLine(size, prompt);
  }

  lemma BannerRegroup(prompt: string, size: string)
    ensures prompt + " || " + size == (prompt + " ") + "||" + (" " + size)
  {
  }

  /** A line written in the order the start-up banner shows, `prompt || size`, is read the
      other way round: the size text becomes the prompt and the image gets the default size. */
  lemma BannerOrderSwapsFields(prompt: string, size: string)
    requires forall k :: 0 <= k < |prompt| ==> prompt[k] != '|'
    requires prompt != [] && !IsSpace(prompt[0]) && prompt[0] != '#' && !IsDigit(prompt[0])
    requires size != [] && !IsSpace(size[|size| - 1])
    ensures RequestOf(prompt + " || " + size)
      == Some(Request(Strip(size), DefaultWidth, DefaultHeight))
  {
    var left := prompt + " ";
    var right := " " + size;
    BannerRegroup(prompt, size);
    assert left[0] == prompt[0];
    assert right[|right| - 1] == size[|size| - 1];
    DelimitedLine(left, right);
    ParseSizeTrailingSpace(prompt);
    assert [] + prompt == prompt;
    ParseSizeNonDigitStart([], prompt);
    StripLeadingSpace(size);
  }
}
